/**
 * The string operations the content store relies on: .NET's `char.IsWhiteSpace`,
 * `string.IsNullOrWhiteSpace`, `Trim`, `Replace(' ', '-')`, `ToLower` and
 * `StringComparison.OrdinalIgnoreCase`, and the page-name normalisation built
 * from them (projects/sfa/wiki/Program.cs:959).
 */
module Text {

  /** `char.IsWhiteSpace`: U+0009..U+000D, U+0085 and the Unicode separators. */
  predicate IsWhiteSpace(c: char): (b: bool)
    ensures c == ' ' || c == '\t' || c == '\n' || c == '\r' ==> b
    ensures '!' <= c <= '~' ==> !b
  {
    || ('\U{9}' <= c <= '\U{D}')
    || c == ' ' || c == '\U{85}' || c == '\U{A0}' || c == '\U{1680}'
    || ('\U{2000}' <= c <= '\U{200A}')
    || c == '\U{2028}' || c == '\U{2029}' || c == '\U{202F}' || c == '\U{205F}' || c == '\U{3000}'
  }

  /** `string.IsNullOrWhiteSpace` on a non-null string; also FluentValidation's failed `NotEmpty`. */
  predicate IsBlank(s: string): (b: bool)
    ensures s == [] ==> b
    ensures b <==> forall c :: c in s ==> IsWhiteSpace(c)
  {
    forall i :: 0 <= i < |s| ==> IsWhiteSpace(s[i])
  }

  /**
   * The first index at or after `i` whose character is not white space, or
   * `|s|`: `Trim` scans from the front this way.
   */
  function SkipLeadingWhiteSpace(s: string, i: nat): (k: nat)
    requires i <= |s|
    ensures i <= k <= |s|
    ensures forall j :: i <= j < k ==> IsWhiteSpace(s[j])
    ensures k == |s| || !IsWhiteSpace(s[k])
    decreases |s| - i
  {
    if i < |s| && IsWhiteSpace(s[i]) then SkipLeadingWhiteSpace(s, i + 1) else i
  }

  /**
   * The end of `s[lo..hi]` once its trailing white space is dropped: `Trim`
   * scans from the back this way, never past where the front scan stopped.
   */
  function SkipTrailingWhiteSpace(s: string, lo: nat, hi: nat): (k: nat)
    requires lo <= hi <= |s|
    ensures lo <= k <= hi
    ensures forall j :: k <= j < hi ==> IsWhiteSpace(s[j])
    ensures k == lo || !IsWhiteSpace(s[k - 1])
    decreases hi
  {
    if lo < hi && IsWhiteSpace(s[hi - 1]) then SkipTrailingWhiteSpace(s, lo, hi - 1) else hi
  }

  /** `string.Trim()`: the input without its leading and trailing white space. */
  function Trim(s: string): (r: string)
    ensures |r| <= |s|
    ensures r == [] || (!IsWhiteSpace(r[0]) && !IsWhiteSpace(r[|r| - 1]))
    ensures r == [] <==> IsBlank(s)
  {
    var start := SkipLeadingWhiteSpace(s, 0);
    var end := SkipTrailingWhiteSpace(s, start, |s|);
    assert start < end ==> s[start..end][0] == s[start] && s[start..end][end - start - 1] == s[end - 1];
    assert start == end ==> forall j :: 0 <= j < |s| ==> IsWhiteSpace(s[j]);
    s[start..end]
  }

  /**
   * `Trim` cuts off white space only: what is left is a slice of the input,
   * and everything before and after that slice is white space.
   */
  lemma TrimIsSlice(s: string)
    ensures var r := Trim(s);
      exists k :: 0 <= k <= |s| - |r| && r == s[k..k + |r|] && IsBlank(s[..k]) && IsBlank(s[k + |r|..])
  {
    var start := SkipLeadingWhiteSpace(s, 0);
    var end := SkipTrailingWhiteSpace(s, start, |s|);
    assert Trim(s) == s[start..end];
    assert IsBlank(s[..start]);
    assert IsBlank(s[end..]) by {
      var tail := s[end..];
      forall j | 0 <= j < |tail| ensures IsWhiteSpace(tail[j]) {
        assert tail[j] == s[end + j];
      }
    }
  }

  /** `Replace(' ', '-')`: every space (U+0020 only) becomes a hyphen. */
  function SpacesToHyphens(s: string): (r: string)
    ensures |r| == |s| && ' ' !in r
    ensures forall i :: 0 <= i < |s| ==> r[i] == (if s[i] == ' ' then '-' else s[i])
  {
    seq(|s|, i requires 0 <= i < |s| => if s[i] == ' ' then '-' else s[i])
  }

  predicate IsUpper(c: char) {
    'A' <= c <= 'Z'
  }

  /** Lower-cases one ASCII letter and leaves every other character as it is. */
  function LowerChar(c: char): (r: char)
    ensures !IsUpper(r)
    ensures r == ' ' <==> c == ' '
    ensures !IsUpper(c) ==> r == c
    ensures IsUpper(c) ==> r as int == c as int + 32
  {
    if IsUpper(c) then (c as int + 32) as char else c
  }

  /** No ASCII letter is white space, so lower-casing keeps a character's kind. */
  lemma LowerCharKeepsWhiteSpace(c: char)
    ensures IsWhiteSpace(LowerChar(c)) <==> IsWhiteSpace(c)
  {
  }

  /** `ToLower()`, restricted to ASCII letters. */
  function ToLower(s: string): (r: string)
    ensures |r| == |s|
    ensures forall i :: 0 <= i < |s| ==> r[i] == LowerChar(s[i])
  {
    seq(|s|, i requires 0 <= i < |s| => LowerChar(s[i]))
  }

  /** `a.Equals(b, StringComparison.OrdinalIgnoreCase)`, restricted to ASCII letters. */
  predicate EqualsIgnoreCase(a: string, b: string): (r: bool)
    ensures a == b ==> r
    ensures r <==> |a| == |b| && forall i :: 0 <= i < |a| ==> LowerChar(a[i]) == LowerChar(b[i])
  {
    ToLower(a) == ToLower(b)
  }

  /**
   * The name `SavePage` derives from the input before sanitising it:
   * `name.Trim().Replace(' ', '-').ToLower()`. It is empty exactly when the
   * input is blank; `NormalizedShape` gives the form of a non-empty result.
   */
  function NormalizeName(name: string): (r: string)
    ensures r == [] <==> IsBlank(name)
    ensures |r| <= |name|
  {
    ToLower(SpacesToHyphens(Trim(name)))
  }

  /** A normalised name holds no space and no upper-case letter, and has no white space at its ends. */
  lemma NormalizedShape(name: string)
    ensures var r := NormalizeName(name);
      && ' ' !in r
      && (forall i :: 0 <= i < |r| ==> !IsUpper(r[i]))
      && (r == [] || (!IsWhiteSpace(r[0]) && !IsWhiteSpace(r[|r| - 1])))
  {
    var t := Trim(name);
    var h := SpacesToHyphens(t);
    NoSpaceAfterLower(h);
    NormalizedEnds(t, h, ToLower(h));
  }

  /** Lower-casing a string without spaces adds none. */
  lemma NoSpaceAfterLower(h: string)
    requires ' ' !in h
    ensures ' ' !in ToLower(h)
  {
    var r := ToLower(h);
    forall i | 0 <= i < |r| ensures r[i] != ' ' {
      assert h[i] != ' ';
    }
  }

  /** The ends of the trimmed name stay non-white-space after hyphens and lower-casing. */
  lemma NormalizedEnds(t: string, h: string, r: string)
    requires h == SpacesToHyphens(t) && r == ToLower(h)
    requires t == [] || (!IsWhiteSpace(t[0]) && !IsWhiteSpace(t[|t| - 1]))
    ensures r == [] || (!IsWhiteSpace(r[0]) && !IsWhiteSpace(r[|r| - 1]))
  {
    if t != [] {
      NormalizedEnd(t, h, r, 0);
      NormalizedEnd(t, h, r, |t| - 1);
    }
  }

  /** A non-white-space character of the trimmed name stays one after hyphens and lower-casing. */
  lemma NormalizedEnd(t: string, h: string, r: string, i: nat)
    requires h == SpacesToHyphens(t) && r == ToLower(h)
    requires i < |t| && !IsWhiteSpace(t[i])
    ensures !IsWhiteSpace(r[i])
  {
    assert h[i] == t[i];
    LowerCharKeepsWhiteSpace(h[i]);
  }

  /** `Trim` leaves a string alone that has no white space at either end. */
  lemma {:induction false} TrimOfTrimmed(t: string)
    requires t == [] || (!IsWhiteSpace(t[0]) && !IsWhiteSpace(t[|t| - 1]))
    ensures Trim(t) == t
  {
    assert SkipLeadingWhiteSpace(t, 0) == 0;
    assert SkipTrailingWhiteSpace(t, 0, |t|) == |t|;
    assert t[0..|t|] == t;
  }

  lemma HyphensOfNoSpace(s: string)
    requires ' ' !in s
    ensures SpacesToHyphens(s) == s
  {
    var h := SpacesToHyphens(s);
    forall i | 0 <= i < |s| ensures h[i] == s[i] {
      assert s[i] != ' ';
    }
  }

  lemma LowerOfLower(s: string)
    requires forall i :: 0 <= i < |s| ==> !IsUpper(s[i])
    ensures ToLower(s) == s
  {
  }

  /** Normalising an already normalised name changes nothing. */
  lemma {:induction false} NormalizeIdempotent(name: string)
    ensures NormalizeName(NormalizeName(name)) == NormalizeName(name)
  {
    NormalizedShape(name);
    NormalizedIsFixed(NormalizeName(name));
  }

  /** A name without spaces, upper-case letters or white space at its ends is already normalised. */
  lemma NormalizedIsFixed(n: string)
    requires ' ' !in n
    requires forall i :: 0 <= i < |n| ==> !IsUpper(n[i])
    requires n == [] || (!IsWhiteSpace(n[0]) && !IsWhiteSpace(n[|n| - 1]))
    ensures NormalizeName(n) == n
  {
    TrimOfTrimmed(n);
    HyphensOfNoSpace(n);
    LowerOfLower(n);
  }

  /** "Getting Started", typed with stray blanks, is stored as "getting-started". */
  lemma NormalizeExample()
    ensures NormalizeName(" Getting Started ") == "getting-started"
  {
    assert " Getting Started " == [' '] + "Getting Started" + [' '];
    TrimPadded("Getting Started");
    assert SpacesToHyphens("Getting Started") == "Getting-Started" by { HyphensExample(); }
    assert ToLower("Getting-Started") == "getting-started" by { LowerExample(); }
  }

  /** `Trim` strips one blank from each side of a string that has no white space at its ends. */
  lemma {:induction false} TrimPadded(t: string)
    requires t != [] && !IsWhiteSpace(t[0]) && !IsWhiteSpace(t[|t| - 1])
    ensures Trim([' '] + t + [' ']) == t
  {
    var s := [' '] + t + [' '];
    assert SkipLeadingWhiteSpace(s, 1) == 1 by { assert s[1] == t[0]; }
    assert SkipLeadingWhiteSpace(s, 0) == 1;
    assert SkipTrailingWhiteSpace(s, 1, |s| - 1) == |s| - 1 by { assert s[|s| - 2] == t[|t| - 1]; }
    assert SkipTrailingWhiteSpace(s, 1, |s|) == |s| - 1;
    assert s[1..|s| - 1] == t;
  }

  lemma HyphensExample()
    ensures SpacesToHyphens("Getting Started") == "Getting-Started"
  {
    var h := SpacesToHyphens("Getting Started");
    forall i | 0 <= i < 15 ensures h[i] == "Getting-Started"[i] { }
  }

  lemma LowerExample()
    ensures ToLower("Getting-Started") == "getting-started"
  {
    var r := ToLower("Getting-Started");
    forall i | 0 <= i < 15 ensures r[i] == "getting-started"[i] { }
  }

  /**
   * `Replace(' ', '-')` turns only U+0020 into a hyphen: a tab inside a name
   * is white space, yet it stays in the normalised name.
   */
  lemma TabInsideNameKept()
    ensures IsWhiteSpace('\t')
    ensures NormalizeName("a\tb") == "a\tb"
  {
    var n := "a\tb";
    assert forall i :: 0 <= i < |n| ==> n[i] != ' ' && !IsUpper(n[i]);
    NormalizedIsFixed(n);
  }

  /** "Other" normalises to "other". */
  lemma NormalizeOther()
    ensures NormalizeName("Other") == "other"
  {
    var n := "Other";
    assert forall i :: 0 <= i < |n| ==> n[i] != ' ';
    TrimOfTrimmed(n);
    HyphensOfNoSpace(n);
    var r := ToLower(n);
    forall i | 0 <= i < 5 ensures r[i] == "other"[i] { }
  }
}
