/**
 * What the content store promises its callers, stated over the step
 * functions of module `Store` (projects/sfa/wiki/Program.cs:918-1163): where a
 * saved page can be found, what saving, deleting and registering change and
 * leave alone, how the listing cache relates to the stored pages, and how
 * the validators' verdicts constrain what gets stored.
 */
module StoreProperties {
  import opened Records
  import opened Text
  import opened Validators
  import opened Store

  /*
   * Looking pages up by name
   */

  /** Appending a page never changes what `GetPage` finds when some earlier page already matches. */
  lemma {:induction false} PageNamedAfterAppend(pages: seq<Page>, p: Page, path: string)
    requires PageNamed(pages, path).Some?
    ensures PageNamed(pages + [p], path) == PageNamed(pages, path)
  {
    var r0 := PageNamed(pages, path);
    var i0 :| 0 <= i0 < |pages| && pages[i0] == r0.value && NameMatches(pages[i0], path)
              && forall j :: 0 <= j < i0 ==> !NameMatches(pages[j], path);
    var s := pages + [p];
    assert s[i0] == pages[i0];
    var r := PageNamed(s, path);
    var i :| 0 <= i < |s| && s[i] == r.value && NameMatches(s[i], path)
             && forall j :: 0 <= j < i ==> !NameMatches(s[j], path);
    assert i == i0;
  }

  /** `GetPage` finds the one page whose name matches the path, wherever it is. */
  lemma {:induction false} OnlyMatchIsFound(pages: seq<Page>, k: nat, path: string)
    requires k < |pages| && NameMatches(pages[k], path)
    requires forall j :: 0 <= j < |pages| && j != k ==> !NameMatches(pages[j], path)
    ensures PageNamed(pages, path) == Some(pages[k])
  {
    var r := PageNamed(pages, path);
    var i :| 0 <= i < |pages| && pages[i] == r.value && NameMatches(pages[i], path)
             && forall j :: 0 <= j < i ==> !NameMatches(pages[j], path);
    assert i == k;
  }

  /*
   * Saving a page
   */

  /**
   * A save without a page to update inserts one new page at the end, under an
   * id no stored page has, with the normalised and sanitised name, the
   * content exactly as given and the upload, if any, as its one attachment.
   */
  lemma SaveInsertsNewPage(s: State, input: PageInput, fileId: string, now: Time, sanitize: string -> string)
    requires Inv(s)
    requires input.id.None? || forall i :: 0 <= i < |s.pages| ==> s.pages[i].id != input.id.value
    ensures var (s', page) := SavePageStep(s, input, fileId, now, sanitize);
      && s'.pages == s.pages + [page]
      && page.id >= 1
      && (forall i :: 0 <= i < |s.pages| ==> s.pages[i].id < page.id)
      && page.name == sanitize(NormalizeName(input.name))
      && page.content == input.content
      && page.lastModifiedUtc == now
      && page.attachments == AttachmentList(NewAttachment(input, fileId, now))
      && s'.users == s.users && s'.cache == None
  {
    if input.id.Some? {
      assert IndexOfId(s.pages, input.id.value).None?;
    }
  }

  /**
   * A save with the id of a stored page updates that page in place: it keeps
   * its id, position and earlier attachments, gets the new name, content
   * and time, and the upload, if any, is appended to its attachments; every
   * other page stays as it was.
   */
  lemma SaveUpdatesExistingPage(s: State, input: PageInput, fileId: string, now: Time, sanitize: string -> string, k: nat)
    requires Inv(s)
    requires k < |s.pages| && input.id == Some(s.pages[k].id)
    ensures var (s', page) := SavePageStep(s, input, fileId, now, sanitize);
      && |s'.pages| == |s.pages|
      && s'.pages[k] == page
      && page.id == s.pages[k].id
      && page.name == sanitize(NormalizeName(input.name))
      && page.content == input.content
      && page.lastModifiedUtc == now
      && page.attachments == s.pages[k].attachments + AttachmentList(NewAttachment(input, fileId, now))
      && (forall j :: 0 <= j < |s.pages| && j != k ==> s'.pages[j] == s.pages[j])
      && s'.users == s.users && s'.cache == None
  {
    var t := SaveTarget(s.pages, input);
    assert t.Some? by {
      assert s.pages[k].id == input.id.value;
    }
    assert t.value == k;
  }

  /**
   * A save stores the uploaded file, under the fresh id and with its name and
   * bytes, exactly when a file with a non-blank name was uploaded; the file
   * storage is otherwise unchanged.
   */
  lemma SaveStoresUpload(s: State, input: PageInput, fileId: string, now: Time, sanitize: string -> string)
    ensures var s' := SavePageStep(s, input, fileId, now, sanitize).0;
      && (NewAttachment(input, fileId, now).Some? <==> input.attachment.Some? && !IsBlank(input.attachment.value.fileName))
      && (forall f :: f != fileId ==> FindFile(s'.files, f) == FindFile(s.files, f))
      && (if input.attachment.Some? && !IsBlank(input.attachment.value.fileName) then
            FindFile(s'.files, fileId)
              == Some(StoredFile(FileMeta(fileId, input.attachment.value.fileName), input.attachment.value.data))
          else
            s'.files == s.files)
  {
  }

  /**
   * After a save, `GetPage` with any casing of the stored name returns the
   * saved page, provided no other stored page has a name that matches too.
   */
  lemma {:induction false} SavedPageFoundByName(s: State, input: PageInput, fileId: string, now: Time,
                                                sanitize: string -> string, path: string)
    requires var page := SavePageStep(s, input, fileId, now, sanitize).1;
      EqualsIgnoreCase(page.name, path)
    requires var t := SaveTarget(s.pages, input);
      forall j :: 0 <= j < |s.pages| && t != Some(j) ==> !NameMatches(s.pages[j], path)
    ensures var (s', page) := SavePageStep(s, input, fileId, now, sanitize);
      PageNamed(s'.pages, path) == Some(page)
  {
    var (s', page) := SavePageStep(s, input, fileId, now, sanitize);
    var t := SaveTarget(s.pages, input);
    if t.None? {
      assert s'.pages == s.pages + [page];
      OnlyMatchIsFound(s'.pages, |s.pages|, path);
    } else {
      assert s'.pages == s.pages[t.value := page];
      OnlyMatchIsFound(s'.pages, t.value, path);
    }
  }

  /**
   * Names are not unique: a new page whose name matches that of an earlier
   * page is stored, but `GetPage` keeps returning the earlier page.
   */
  lemma {:induction false} NewPageShadowedByOlder(s: State, input: PageInput, fileId: string, now: Time,
                                                  sanitize: string -> string, path: string)
    requires SaveTarget(s.pages, input).None?
    requires PageNamed(s.pages, path).Some?
    ensures var (s', page) := SavePageStep(s, input, fileId, now, sanitize);
      page in s'.pages && PageNamed(s'.pages, path) == PageNamed(s.pages, path)
  {
    var (s', page) := SavePageStep(s, input, fileId, now, sanitize);
    assert s'.pages == s.pages + [page];
    assert s'.pages[|s.pages|] == page;
    PageNamedAfterAppend(s.pages, page, path);
  }

  /*
   * The listing cache
   */

  /** A listing taken while the cache entry is live is the cached one, and changes nothing. */
  lemma ListingFromLiveCache(s: State, now: Time)
    requires s.cache.Some? && now < s.cache.value.expiresAt
    ensures ListAllPagesStep(s, now) == (s, s.cache.value.pages)
  {
  }

  /**
   * Without a live entry, the listing is the stored pages, and it is cached
   * until thirty minutes after `now`; nothing else changes.
   */
  lemma ListingFromStore(s: State, now: Time)
    requires s.cache.None? || now >= s.cache.value.expiresAt
    ensures var (s', items) := ListAllPagesStep(s, now);
      && items == s.pages
      && s'.cache == Some(CacheEntry(s.pages, now + 30 * 60 * 10_000_000))
      && s'.pages == s.pages && s'.files == s.files && s'.users == s.users
  {
  }

  /**
   * Whatever its source, a listing has one entry per stored page, in `_id`
   * order, agreeing with it on id, name, content and time.
   */
  lemma {:induction false} ListingMatchesStore(s: State, now: Time)
    requires Inv(s)
    ensures var items := ListAllPagesStep(s, now).1;
      |items| == |s.pages| && forall i :: 0 <= i < |s.pages| ==> SameListing(items[i], s.pages[i])
  {
    var items := ListAllPagesStep(s, now).1;
    if !(s.cache.Some? && now < s.cache.value.expiresAt) {
      assert items == s.pages;
      forall i | 0 <= i < |s.pages| ensures SameListing(items[i], s.pages[i]) {
      }
    }
  }

  /** A listing right after a save is read from the store and holds the saved page. */
  lemma ListingAfterSaveIsFresh(s: State, input: PageInput, fileId: string, now: Time, sanitize: string -> string, later: Time)
    ensures var (s', page) := SavePageStep(s, input, fileId, now, sanitize);
      var items := ListAllPagesStep(s', later).1;
      items == s'.pages && page in items
  {
    var (s', page) := SavePageStep(s, input, fileId, now, sanitize);
    var t := SaveTarget(s.pages, input);
    if t.None? {
      assert s'.pages[|s.pages|] == page;
    } else {
      assert s'.pages[t.value] == page;
    }
  }

  /** A listing right after a successful delete is read from the store and lacks the page. */
  lemma {:induction false} ListingAfterDeleteIsFresh(s: State, id: int, homePageName: string, later: Time)
    requires Inv(s)
    requires DeletePageStep(s, id, homePageName).1
    ensures var s' := DeletePageStep(s, id, homePageName).0;
      var items := ListAllPagesStep(s', later).1;
      items == s'.pages && forall i :: 0 <= i < |items| ==> items[i].id != id
  {
    var k := IndexOfId(s.pages, id).value;
    var s' := DeletePageStep(s, id, homePageName).0;
    forall i | 0 <= i < |s'.pages| ensures s'.pages[i].id != id {
      if i < k {
        assert s'.pages[i] == s.pages[i];
      } else {
        assert s'.pages[i] == s.pages[i + 1];
      }
    }
  }

  /*
   * Deleting a page
   */

  /** Under the invariant ids are unique, so looking up a stored page's id finds that page. */
  lemma {:induction false} IndexOfStoredId(pages: seq<Page>, k: nat)
    requires PageIdsAscending(pages) && k < |pages|
    ensures IndexOfId(pages, pages[k].id) == Some(k)
  {
    var idx := IndexOfId(pages, pages[k].id);
    assert idx.Some?;
    var i := idx.value;
    assert pages[i].id == pages[k].id;
  }

  /** An unknown id is refused, and nothing changes. */
  lemma DeleteUnknownPageRefused(s: State, id: int, homePageName: string)
    requires forall k :: 0 <= k < |s.pages| ==> s.pages[k].id != id
    ensures DeletePageStep(s, id, homePageName) == (s, false)
  {
    assert IndexOfId(s.pages, id).None?;
  }

  /** A page named like the home page, in any casing, is refused, and nothing changes. */
  lemma DeleteHomePageRefused(s: State, k: nat, homePageName: string)
    requires Inv(s)
    requires k < |s.pages| && EqualsIgnoreCase(s.pages[k].name, homePageName)
    ensures DeletePageStep(s, s.pages[k].id, homePageName) == (s, false)
  {
    IndexOfStoredId(s.pages, k);
  }

  /**
   * Deleting a stored page not named like the home page succeeds: the page
   * leaves the store, the other pages keep their order, the files of all its
   * attachments are deleted, the users stay and the cache is evicted.
   */
  lemma {:induction false} DeletePageSucceeds(s: State, k: nat, homePageName: string)
    requires Inv(s)
    requires k < |s.pages| && !EqualsIgnoreCase(s.pages[k].name, homePageName)
    ensures var (s', ok) := DeletePageStep(s, s.pages[k].id, homePageName);
      && ok
      && s'.pages == s.pages[..k] + s.pages[k + 1..]
      && (forall i :: 0 <= i < |s'.pages| ==> s'.pages[i].id != s.pages[k].id)
      && (forall a :: a in s.pages[k].attachments ==> FindFile(s'.files, a.fileId).None?)
      && s'.files == s.files - FileIds(s.pages[k].attachments)
      && s'.users == s.users && s'.cache == None
  {
    IndexOfStoredId(s.pages, k);
    ListingAfterDeleteIsFresh(s, s.pages[k].id, homePageName, 0);
  }

  /**
   * The home page cannot be deleted: under the invariant, a page named like
   * the home page survives every `DeletePage` call with that home page name.
   */
  lemma {:induction false} HomePageSurvivesDelete(s: State, id: int, homePageName: string, h: nat)
    requires Inv(s)
    requires h < |s.pages| && EqualsIgnoreCase(s.pages[h].name, homePageName)
    ensures s.pages[h] in DeletePageStep(s, id, homePageName).0.pages
  {
    var s' := DeletePageStep(s, id, homePageName).0;
    var idx := IndexOfId(s.pages, id);
    if idx.Some? && !EqualsIgnoreCase(s.pages[idx.value].name, homePageName) {
      var k := idx.value;
      if h < k {
        assert s'.pages[h] == s.pages[h];
      } else {
        assert s'.pages[h - 1] == s.pages[h];
      }
    } else {
      assert s'.pages == s.pages;
    }
  }

  /*
   * Deleting an attachment
   */

  /** `List.RemoveAll` works element by element: it distributes over concatenation. */
  lemma {:induction false} RemoveAllAppend<T(!new)>(a: seq<T>, b: seq<T>, p: T -> bool)
    ensures RemoveAll(a + b, p) == RemoveAll(a, p) + RemoveAll(b, p)
    decreases |a|
  {
    if |a| > 0 {
      var head := if p(a[0]) then [] else [a[0]];
      assert (a + b)[0] == a[0] && (a + b)[1..] == a[1..] + b;
      assert RemoveAll(a + b, p) == head + RemoveAll(a[1..] + b, p);
      RemoveAllAppend(a[1..], b, p);
      assert RemoveAll(a, p) == head + RemoveAll(a[1..], p);
    } else {
      assert a + b == b;
    }
  }

  /** `List.RemoveAll` keeps a list in which nothing matches as it is. */
  lemma {:induction false} RemoveAllNoMatch<T(!new)>(s: seq<T>, p: T -> bool)
    requires forall i :: 0 <= i < |s| ==> !p(s[i])
    ensures RemoveAll(s, p) == s
    decreases |s|
  {
    if |s| > 0 {
      RemoveAllNoMatch(s[1..], p);
    }
  }

  /** An unknown page id fails without a page, and nothing changes. */
  lemma DeleteAttachmentUnknownPage(s: State, pageId: int, id: string)
    requires forall k :: 0 <= k < |s.pages| ==> s.pages[k].id != pageId
    ensures DeleteAttachmentStep(s, pageId, id) == (s, DeleteAttachmentResult(false, None))
  {
    assert IndexOfId(s.pages, pageId).None?;
  }

  /** A file id the file storage does not hold fails with the page as stored, and nothing changes. */
  lemma DeleteAttachmentMissingFile(s: State, k: nat, id: string)
    requires Inv(s)
    requires k < |s.pages| && id !in s.files
    ensures DeleteAttachmentStep(s, s.pages[k].id, id) == (s, DeleteAttachmentResult(false, Some(s.pages[k])))
  {
    IndexOfStoredId(s.pages, k);
  }

  /**
   * Deleting a stored file of a stored page succeeds: the file is gone, the
   * page keeps, in order, exactly the attachments whose file id differs from
   * `id` ignoring case, every other page and the cache stay as they were.
   */
  lemma DeleteAttachmentSucceeds(s: State, k: nat, id: string)
    requires Inv(s)
    requires k < |s.pages| && id in s.files
    ensures var (s', r) := DeleteAttachmentStep(s, s.pages[k].id, id);
      && r.isOk && r.page == Some(s'.pages[k])
      && s'.files == s.files - {id}
      && |s'.pages| == |s.pages|
      && SameListing(s'.pages[k], s.pages[k])
      && s'.pages[k].attachments == RemoveAttachment(s.pages[k].attachments, id)
      && (forall a :: a in s'.pages[k].attachments <==> a in s.pages[k].attachments && !FileIdMatches(a, id))
      && (forall j :: 0 <= j < |s.pages| && j != k ==> s'.pages[j] == s.pages[j])
      && s'.users == s.users && s'.cache == s.cache
  {
    IndexOfStoredId(s.pages, k);
  }

  /**
   * `DeleteAttachment` does not check that the file belongs to the page: it
   * deletes any stored file, and the page, none of whose attachments match,
   * is left exactly as it was.
   */
  lemma {:induction false} DeleteForeignAttachment(s: State, k: nat, id: string)
    requires Inv(s)
    requires k < |s.pages| && id in s.files
    requires forall i :: 0 <= i < |s.pages[k].attachments| ==> !FileIdMatches(s.pages[k].attachments[i], id)
    ensures var (s', r) := DeleteAttachmentStep(s, s.pages[k].id, id);
      r.isOk && s'.files == s.files - {id} && s'.pages == s.pages
  {
    IndexOfStoredId(s.pages, k);
    var atts := s.pages[k].attachments;
    RemoveAllNoMatch(atts, (a: Attachment) => FileIdMatches(a, id));
    assert s.pages[k].(attachments := atts) == s.pages[k];
  }

  /**
   * The cache is not evicted by `DeleteAttachment`, so a listing served from
   * it can still show an attachment that no longer exists: here the store
   * has dropped the attachment while the listing still holds it.
   */
  lemma StaleAttachmentInListing()
    ensures
      var a := Attachment("f1", "notes.txt", "text/plain", 0);
      var p := Page(1, "home-page", "Welcome", 0, [a]);
      var s := State([p], map["f1" := StoredFile(FileMeta("f1", "notes.txt"), [])], [], Some(CacheEntry([p], 100)));
      var s' := DeleteAttachmentStep(s, 1, "f1").0;
      && Inv(s)
      && s'.pages[0].attachments == []
      && ListAllPagesStep(s', 50).1[0].attachments == [a]
  {
    var a := Attachment("f1", "notes.txt", "text/plain", 0);
    var p := Page(1, "home-page", "Welcome", 0, [a]);
    var s := State([p], map["f1" := StoredFile(FileMeta("f1", "notes.txt"), [])], [], Some(CacheEntry([p], 100)));
    IndexOfStoredId(s.pages, 0);
    assert FileIdMatches(a, "f1");
    assert RemoveAttachment([a], "f1") == [];
  }

  /** Where a save leaves its page: at the end for a new page, in place for an updated one. */
  lemma SavedPageAt(s: State, input: PageInput, fileId: string, now: Time, sanitize: string -> string)
    ensures var (s', page) := SavePageStep(s, input, fileId, now, sanitize);
      var t := SaveTarget(s.pages, input);
      var k := if t.None? then |s.pages| else t.value;
      k < |s'.pages| && s'.pages[k] == page
  {
  }

  /**
   * Round trip: uploading a file with a save, then deleting that attachment,
   * leaves the file storage as it was before the save and the page without
   * an attachment for the file.
   */
  lemma {:induction false} UploadThenDeleteAttachment(s: State, input: PageInput, fileId: string, now: Time,
                                                      sanitize: string -> string)
    requires Inv(s)
    requires fileId !in s.files
    requires input.attachment.Some? && !IsBlank(input.attachment.value.fileName)
    ensures var (s1, page) := SavePageStep(s, input, fileId, now, sanitize);
      var (s2, r) := DeleteAttachmentStep(s1, page.id, fileId);
      && r.isOk
      && s2.files == s.files
      && (forall a :: a in r.page.value.attachments ==> !FileIdMatches(a, fileId))
  {
    var (s1, page) := SavePageStep(s, input, fileId, now, sanitize);
    SavePageKeepsInv(s, input, fileId, now, sanitize);
    SavedPageAt(s, input, fileId, now, sanitize);
    var t := SaveTarget(s.pages, input);
    var k := if t.None? then |s.pages| else t.value;
    UploadedFileRemovable(s, input, fileId, now, sanitize);
    DeleteAttachmentSucceeds(s1, k, fileId);
  }

  /** The file a save uploads under a fresh id is stored, and deleting it restores the file storage. */
  lemma UploadedFileRemovable(s: State, input: PageInput, fileId: string, now: Time, sanitize: string -> string)
    requires fileId !in s.files
    requires input.attachment.Some? && !IsBlank(input.attachment.value.fileName)
    ensures var s1 := SavePageStep(s, input, fileId, now, sanitize).0;
      fileId in s1.files && s1.files - {fileId} == s.files
  {
    var s1 := SavePageStep(s, input, fileId, now, sanitize).0;
    assert s1.files == s.files[fileId := StoredFile(FileMeta(fileId, input.attachment.value.fileName), input.attachment.value.data)];
  }

  /*
   * Users
   */

  /**
   * Logging in succeeds exactly when a user with the name has the password;
   * otherwise the error says whether the name or the password was wrong.
   */
  lemma {:induction false} LoginOutcomes(users: seq<User>, input: LoginInput)
    requires UserNamesUnique(users)
    ensures var r := CheckLogin(users, input);
      && (r.isOk <==> exists u :: u in users && u.name == input.name && u.password == input.password)
      && (r.isOk ==> r.user.Some? && r.user.value in users && r.user.value.name == input.name
                     && r.user.value.password == input.password && r.error.None?)
      && (!r.isOk ==> r.user.None?)
      && (r.error == Some(NoSuchUser) <==> forall u :: u in users ==> u.name != input.name)
      && (r.error == Some(WrongPassword) <==>
            (exists u :: u in users && u.name == input.name) && !(exists u :: u in users && u.name == input.name && u.password == input.password))
  {
    var found := UserNamed(users, input.name);
    if found.Some? {
      var u := found.value;
      forall v | v in users && v.name == input.name ensures v == u {
        var i :| 0 <= i < |users| && users[i] == v;
        var j :| 0 <= j < |users| && users[j] == u;
        if i < j {
          assert users[i].name != users[j].name;
        } else if j < i {
          assert users[j].name != users[i].name;
        }
      }
    }
  }

  /**
   * Registering succeeds exactly when the name is free: it adds one user with
   * the given name and password under a fresh id, and changes nothing else;
   * a taken name is refused with "Username is Taken" and changes nothing.
   */
  lemma {:induction false} RegisterOutcomes(s: State, input: RegisterInput)
    requires Inv(s)
    ensures var (s', r) := RegisterUserStep(s, input);
      && (r.isOk <==> forall u :: u in s.users ==> u.name != input.name)
      && (r.isOk ==> && |s'.users| == |s.users| + 1
                     && s'.users[..|s.users|] == s.users
                     && s'.users[|s.users|].name == input.name
                     && s'.users[|s.users|].password == input.password
                     && (forall u :: u in s.users ==> u.id < s'.users[|s.users|].id)
                     && r.error.None?)
      && (!r.isOk ==> s' == s && r.error == Some(UsernameTaken))
      && s'.pages == s.pages && s'.files == s.files && s'.cache == s.cache
  {
    var (s', r) := RegisterUserStep(s, input);
    if r.isOk {
      RegisterUserKeepsInv(s, input);
      assert s'.users[..|s.users|] == s.users;
      forall u | u in s.users ensures u.id < s'.users[|s.users|].id {
        var i :| 0 <= i < |s.users| && s.users[i] == u;
        assert s'.users[i] == u;
      }
    }
  }

  /** Registering the same name twice: the second attempt is refused. */
  lemma {:induction false} RegisterTwiceRefused(s: State, input: RegisterInput, again: RegisterInput)
    requires again.name == input.name
    ensures var s' := RegisterUserStep(s, input).0;
      RegisterUserStep(s', again).1 == RegisterResult(false, Some(UsernameTaken))
  {
    var s' := RegisterUserStep(s, input).0;
    if UserNamed(s.users, input.name).None? {
      assert s'.users[|s.users|].name == again.name;
    }
  }

  /**
   * Round trip: after a successful registration the user can log in with the
   * password given, and a different password is rejected as wrong.
   */
  lemma {:induction false} RegisterThenLogin(s: State, input: RegisterInput, other: string)
    requires Inv(s)
    requires RegisterUserStep(s, input).1.isOk
    requires other != input.password
    ensures var s' := RegisterUserStep(s, input).0;
      && CheckLogin(s'.users, LoginInput(input.name, input.password)).isOk
      && CheckLogin(s'.users, LoginInput(input.name, other)) == LoginResult(false, None, Some(WrongPassword))
  {
    var s' := RegisterUserStep(s, input).0;
    RegisterUserKeepsInv(s, input);
    var n := |s.users|;
    assert s'.users[n].name == input.name && s'.users[n].password == input.password;
    var found := UserNamed(s'.users, input.name);
    assert found.Some?;
    var j :| 0 <= j < |s'.users| && s'.users[j] == found.value;
    assert j == n;
  }

  /*
   * What the validators guarantee about what gets stored
   */

  /** "home-page" is its own normalised form. */
  lemma HomePageNameIsNormal()
    ensures NormalizeName(HomePageName) == HomePageName
  {
    var h := HomePageName;
    assert forall i :: 0 <= i < |h| ==> h[i] != ' ' && !IsUpper(h[i]);
    assert !IsWhiteSpace(h[0]) && !IsWhiteSpace(h[|h| - 1]);
    NormalizedIsFixed(h);
  }

  /**
   * A save of the home page that passes `PageInputValidator` stores it under
   * the sanitised home page name, so the home page keeps its name.
   */
  lemma ValidatedHomeSaveKeepsName(s: State, input: PageInput, pageName: string, fileId: string, now: Time,
                                   sanitize: string -> string)
    requires EqualsIgnoreCase(pageName, HomePageName)
    requires PageInputErrors(input, pageName, HomePageName) == []
    ensures SavePageStep(s, input, fileId, now, sanitize).1.name == sanitize(HomePageName)
  {
    HomePageNameIsNormal();
  }

  /**
   * Without the validator, `SavePage` renames the home page: saving page 1
   * "home-page" under the name "Other" stores it as "other".
   */
  lemma UnvalidatedSaveRenamesHomePage()
    ensures var s := State([Page(1, HomePageName, "", 0, [])], map[], [], None);
      var s' := SavePageStep(s, PageInput(Some(1), "Other", "x", None), "f", 0, n => n).0;
      s'.pages == [Page(1, "other", "x", 0, [])]
  {
    var pages := [Page(1, HomePageName, "", 0, [])];
    var input := PageInput(Some(1), "Other", "x", None);
    assert SaveTarget(pages, input) == Some(0);
    NormalizeOther();
    var page := SavedPage(pages, Some(0), "other", "x", 0, None);
    assert page == Page(1, "other", "x", 0, []);
    assert PlacePage(pages, Some(0), page) == [page];
  }

  /** Only `PageInputValidator`, which the web layer runs, refuses that save of the home page. */
  lemma ValidatorRefusesHomeRename()
    ensures PageInputErrors(PageInput(Some(1), "Other", "x", None), HomePageName, HomePageName)
      == [KeepHomeName(HomePageName)]
  {
    var input := PageInput(Some(1), "Other", "x", None);
    assert !IsWhiteSpace(input.name[0]) && !IsWhiteSpace(input.content[0]);
  }

  /**
   * The validator checks the name only on the home page's route, while
   * `SavePage` picks the page by the form's id: the same rename posted to
   * the route "other" passes, and the save then renames the home page.
   */
  lemma ForeignRouteAcceptsHomeRename()
    ensures PageInputErrors(PageInput(Some(1), "Other", "x", None), "other", HomePageName) == []
    ensures var s := State([Page(1, HomePageName, "", 0, [])], map[], [], None);
      SavePageStep(s, PageInput(Some(1), "Other", "x", None), "f", 0, n => n).0.pages == [Page(1, "other", "x", 0, [])]
  {
    var input := PageInput(Some(1), "Other", "x", None);
    assert !IsWhiteSpace(input.name[0]) && !IsWhiteSpace(input.content[0]);
    assert |"other"| != |HomePageName|;
    UnvalidatedSaveRenamesHomePage();
  }
}
