/**
 * The state of the wiki's content store and the effect of each of its
 * operations on it, as functions of the state before the call
 * (projects/sfa/wiki/Program.cs:896-1164).
 *
 * The LiteDB database becomes three values: the `Pages` collection as the
 * sequence of its documents in `_id` order (the order `Query()` returns them
 * in), the `FileStorage` area as a map from file id to stored file, and the
 * `Users` collection, also in `_id` order. The memory cache contributes its
 * single `AllPages` slot.
 */
module Store {
  import opened Records
  import opened Text

  /** `CacheAllPagesForMinutes`: the absolute expiration of the cached listing. */
  const CacheAllPagesForMinutes := 30
  const TicksPerMinute := 600_000_000

  const NoSuchUser := "No user exists with this name"
  const WrongPassword := "Wrong password"
  const UsernameTaken := "Username is Taken"

  /** The `AllPages` cache entry: the listing and the instant it expires. */
  datatype CacheEntry = CacheEntry(pages: seq<Page>, expiresAt: Time)

  datatype State = State(pages: seq<Page>, files: map<string, StoredFile>, users: seq<User>, cache: Option<CacheEntry>)

  datatype DeleteAttachmentResult = DeleteAttachmentResult(isOk: bool, page: Option<Page>)

  datatype LoginResult = LoginResult(isOk: bool, user: Option<User>, error: Option<string>)

  datatype RegisterResult = RegisterResult(isOk: bool, error: Option<string>)

  /*
   * Lookups
   */

  /** The position of the first element satisfying `p`, as LINQ's `FirstOrDefault` and LiteDB's `FindOne` find it. */
  function FirstIndex<T>(s: seq<T>, p: T -> bool): (r: Option<nat>)
    ensures r.Some? ==> r.value < |s| && p(s[r.value]) && forall j :: 0 <= j < r.value ==> !p(s[j])
    ensures r.None? ==> forall j :: 0 <= j < |s| ==> !p(s[j])
  {
    if |s| == 0 then None
    else if p(s[0]) then Some(0)
    else match FirstIndex(s[1..], p)
      case None => None
      case Some(k) => Some(k + 1)
  }

  /** `FindById(id)` and `FindOne(x => x.Id == id)` on the pages. */
  function IndexOfId(pages: seq<Page>, id: int): (r: Option<nat>)
    ensures r.Some? ==> r.value < |pages| && pages[r.value].id == id && forall j :: 0 <= j < r.value ==> pages[j].id != id
    ensures r.None? <==> forall j :: 0 <= j < |pages| ==> pages[j].id != id
  {
    FirstIndex(pages, (p: Page) => p.id == id)
  }

  predicate NameMatches(p: Page, path: string) {
    EqualsIgnoreCase(p.name, path)
  }

  /**
   * `GetPage(path)`: the first page, in `_id` order, whose name equals `path`
   * ignoring case; none when no page's name does.
   */
  function PageNamed(pages: seq<Page>, path: string): (r: Option<Page>)
    ensures r.None? <==> forall j :: 0 <= j < |pages| ==> !NameMatches(pages[j], path)
    ensures r.Some? ==>
      exists i :: (0 <= i < |pages| && pages[i] == r.value && NameMatches(pages[i], path)
                   && forall j :: 0 <= j < i ==> !NameMatches(pages[j], path))
  {
    match FirstIndex(pages, (p: Page) => NameMatches(p, path))
    case None => None
    case Some(i) => Some(pages[i])
  }

  /** `FindOne(x => x.Name == name)` and `Exists(...)` on the users. */
  function UserNamed(users: seq<User>, name: string): (r: Option<User>)
    ensures r.None? <==> forall j :: 0 <= j < |users| ==> users[j].name != name
    ensures r.Some? ==> r.value in users && r.value.name == name
  {
    match FirstIndex(users, (u: User) => u.name == name)
    case None => None
    case Some(i) => Some(users[i])
  }

  /** `FileStorage.FindById` followed by `Download`: the stored file, if any. */
  function FindFile(files: map<string, StoredFile>, fileId: string): (r: Option<StoredFile>)
    ensures r.Some? <==> fileId in files
    ensures r.Some? ==> r.value == files[fileId]
  {
    if fileId in files then Some(files[fileId]) else None
  }

  /*
   * Identifiers. The source opens a new `LiteDatabase` for every call, and
   * LiteDB then numbers an inserted document one past the largest `_id` of
   * its collection (1 in an empty one).
   */

  /** The `_id` LiteDB gives a page inserted now: 1 in an empty collection, and above every stored id when ids ascend. */
  function NextPageId(pages: seq<Page>): (r: int)
    ensures |pages| == 0 ==> r == 1
    ensures PageIdsAscending(pages) ==> r >= 1 && forall i :: 0 <= i < |pages| ==> pages[i].id < r
  {
    if |pages| == 0 then 1 else pages[|pages| - 1].id + 1
  }

  /** The `_id` LiteDB gives a user inserted now, on the same terms as `NextPageId`. */
  function NextUserId(users: seq<User>): (r: int)
    ensures |users| == 0 ==> r == 1
    ensures UserIdsAscending(users) ==> r >= 1 && forall i :: 0 <= i < |users| ==> users[i].id < r
  {
    if |users| == 0 then 1 else users[|users| - 1].id + 1
  }

  /*
   * Invariants
   */

  predicate PageIdsAscending(pages: seq<Page>) {
    && (forall i :: 0 <= i < |pages| ==> pages[i].id >= 1)
    && (forall i, j :: 0 <= i < j < |pages| ==> pages[i].id < pages[j].id)
  }

  predicate UserIdsAscending(users: seq<User>) {
    && (forall i :: 0 <= i < |users| ==> users[i].id >= 1)
    && (forall i, j :: 0 <= i < j < |users| ==> users[i].id < users[j].id)
  }

  /** No two users share a name: `RegisterUser` refuses a taken name. */
  predicate UserNamesUnique(users: seq<User>) {
    forall i, j :: 0 <= i < j < |users| ==> users[i].name != users[j].name
  }

  /** Two records of one page that agree on everything but the attachment list. */
  predicate SameListing(a: Page, b: Page) {
    a.id == b.id && a.name == b.name && a.content == b.content && a.lastModifiedUtc == b.lastModifiedUtc
  }

  /**
   * A cached listing, when there is one, holds the stored pages in order; only
   * their attachment lists may be out of date, because `DeleteAttachment`
   * does not evict the cache.
   */
  predicate CacheCurrent(cache: Option<CacheEntry>, pages: seq<Page>) {
    cache.Some? ==>
      |cache.value.pages| == |pages| &&
      forall i :: 0 <= i < |pages| ==> SameListing(cache.value.pages[i], pages[i])
  }

  predicate Inv(s: State) {
    && PageIdsAscending(s.pages)
    && UserIdsAscending(s.users)
    && UserNamesUnique(s.users)
    && CacheCurrent(s.cache, s.pages)
  }

  /*
   * Helpers of the operations
   */

  /** The attachment `SavePage` creates: only for an uploaded file whose name is not blank. */
  function NewAttachment(input: PageInput, fileId: string, now: Time): (r: Option<Attachment>)
    ensures r.Some? <==> input.attachment.Some? && !IsBlank(input.attachment.value.fileName)
    ensures r.Some? ==> && r.value.fileId == fileId && r.value.fileName == input.attachment.value.fileName
                        && r.value.mimeType == input.attachment.value.contentType && r.value.lastModifiedUtc == now
  {
    if input.attachment.Some? && !IsBlank(input.attachment.value.fileName) then
      Some(Attachment(fileId, input.attachment.value.fileName, input.attachment.value.contentType, now))
    else
      None
  }

  function AttachmentList(a: Option<Attachment>): seq<Attachment> {
    if a.Some? then [a.value] else []
  }

  /** `List.RemoveAll(p)`: the elements that do not satisfy `p`, in their order. */
  function RemoveAll<T(==,!new)>(s: seq<T>, p: T -> bool): (r: seq<T>)
    ensures |r| <= |s|
    ensures forall x :: x in r <==> x in s && !p(x)
  {
    if |s| == 0 then [] else (if p(s[0]) then [] else [s[0]]) + RemoveAll(s[1..], p)
  }

  predicate FileIdMatches(a: Attachment, id: string) {
    EqualsIgnoreCase(a.fileId, id)
  }

  function RemoveAttachment(atts: seq<Attachment>, id: string): (r: seq<Attachment>)
    ensures |r| <= |atts|
    ensures forall a :: a in r <==> a in atts && !FileIdMatches(a, id)
  {
    RemoveAll(atts, (a: Attachment) => FileIdMatches(a, id))
  }

  /** The file ids of a list of attachments. */
  function FileIds(atts: seq<Attachment>): set<string> {
    set a | a in atts :: a.fileId
  }

  /** Deleting the files of one more attachment removes one more id. */
  lemma FileIdsSnoc(atts: seq<Attachment>, k: nat)
    requires k < |atts|
    ensures FileIds(atts[..k + 1]) == FileIds(atts[..k]) + {atts[k].fileId}
  {
    assert atts[..k + 1] == atts[..k] + [atts[k]];
  }

  function RemoveAt<T>(s: seq<T>, i: nat): (r: seq<T>)
    requires i < |s|
    ensures |r| == |s| - 1
    ensures forall j :: 0 <= j < i ==> r[j] == s[j]
    ensures forall j :: i <= j < |r| ==> r[j] == s[j + 1]
  {
    s[..i] + s[i + 1..]
  }

  /*
   * Operations
   */

  /**
   * `ListAllPages` (Program.cs:920-933): a live cache entry is returned as it
   * is; otherwise the stored pages are returned and cached for 30 minutes.
   */
  function ListAllPagesStep(s: State, now: Time): (r: (State, seq<Page>))
    ensures r.0.pages == s.pages && r.0.files == s.files && r.0.users == s.users
    ensures r.0.cache.Some? && now < r.0.cache.value.expiresAt ==> r.1 == r.0.cache.value.pages
    ensures r.1 == s.pages || (s.cache.Some? && now < s.cache.value.expiresAt && r.1 == s.cache.value.pages)
  {
    if s.cache.Some? && now < s.cache.value.expiresAt then
      (s, s.cache.value.pages)
    else
      (s.(cache := Some(CacheEntry(s.pages, now + CacheAllPagesForMinutes * TicksPerMinute))), s.pages)
  }

  /**
   * `SavePage` (Program.cs:948-1016), with `fileId` the fresh `Guid`, `now`
   * the clock and `sanitize` the HTML sanitiser. The uploaded file is stored
   * first; then the page with the given id is updated, or a new page
   * inserted when there is no id or no page has it; the cache is evicted.
   */
  function SavePageStep(s: State, input: PageInput, fileId: string, now: Time, sanitize: string -> string): (r: (State, Page))
    ensures r.1.name == sanitize(NormalizeName(input.name))
    ensures r.0.users == s.users && r.0.cache == None
  {
    var attachment := NewAttachment(input, fileId, now);
    var target := SaveTarget(s.pages, input);
    var page := SavedPage(s.pages, target, sanitize(NormalizeName(input.name)), input.content, now, attachment);
    (State(PlacePage(s.pages, target, page), UploadedFiles(s.files, input, fileId, now), s.users, None), page)
  }

  /** The index of the page `SavePage` updates; none when it inserts a new page. */
  function SaveTarget(pages: seq<Page>, input: PageInput): (r: Option<nat>)
    ensures r.Some? ==> input.id.Some? && r.value < |pages| && pages[r.value].id == input.id.value
    ensures r.None? ==> input.id.None? || forall i :: 0 <= i < |pages| ==> pages[i].id != input.id.value
  {
    if input.id.Some? then IndexOfId(pages, input.id.value) else None
  }

  /** The file storage after `SavePage`'s upload step. */
  function UploadedFiles(files: map<string, StoredFile>, input: PageInput, fileId: string, now: Time): (r: map<string, StoredFile>)
    ensures files.Keys <= r.Keys <= files.Keys + {fileId}
    ensures forall k :: k in files && k != fileId ==> r[k] == files[k]
    ensures NewAttachment(input, fileId, now).Some? ==>
      fileId in r && r[fileId].meta == FileMeta(fileId, input.attachment.value.fileName) && r[fileId].data == input.attachment.value.data
    ensures NewAttachment(input, fileId, now).None? ==> r == files
  {
    if NewAttachment(input, fileId, now).Some? then
      files[fileId := StoredFile(FileMeta(fileId, input.attachment.value.fileName), input.attachment.value.data)]
    else
      files
  }

  /**
   * The page `SavePage` stores: a fresh page when there is no target, or the
   * target page with a new name, content and time and the new attachment
   * appended to its list.
   */
  function SavedPage(pages: seq<Page>, target: Option<nat>, name: string, content: string, now: Time,
                     attachment: Option<Attachment>): (r: Page)
    requires target.Some? ==> target.value < |pages|
    ensures r.name == name && r.content == content && r.lastModifiedUtc == now
    ensures target.None? ==> r.id == NextPageId(pages) && r.attachments == AttachmentList(attachment)
    ensures target.Some? ==>
      && r.id == pages[target.value].id
      && r.attachments == pages[target.value].attachments + AttachmentList(attachment)
  {
    if target.None? then
      Page(NextPageId(pages), name, content, now, AttachmentList(attachment))
    else
      var stored := pages[target.value];
      stored.(name := name, content := content, lastModifiedUtc := now,
              attachments := stored.attachments + AttachmentList(attachment))
  }

  /** Appends the page when there is no target, or replaces the target with it. */
  function PlacePage(pages: seq<Page>, target: Option<nat>, page: Page): (r: seq<Page>)
    requires target.Some? ==> target.value < |pages|
    ensures target.None? ==> |r| == |pages| + 1 && r[|pages|] == page
    ensures target.Some? ==> |r| == |pages| && r[target.value] == page
    ensures forall i :: 0 <= i < |pages| && Some(i) != target ==> r[i] == pages[i]
  {
    if target.None? then pages + [page] else pages[target.value := page]
  }

  /**
   * `DeleteAttachment` (Program.cs:1018-1053): fails without a page for an
   * unknown page id, fails with the page when the file storage has no file
   * `id`; otherwise deletes the file and every attachment whose file id
   * equals `id` ignoring case. The cache is not touched.
   */
  function DeleteAttachmentStep(s: State, pageId: int, id: string): (r: (State, DeleteAttachmentResult))
    ensures r.0.users == s.users && r.0.cache == s.cache && |r.0.pages| == |s.pages|
    ensures r.1.isOk ==> r.0.files == s.files - {id} && id in s.files
    ensures !r.1.isOk ==> r.0 == s
  {
    var idx := IndexOfId(s.pages, pageId);
    if idx.None? then
      (s, DeleteAttachmentResult(false, None))
    else
      var page := s.pages[idx.value];
      if id !in s.files then
        (s, DeleteAttachmentResult(false, Some(page)))
      else
        var updated := page.(attachments := RemoveAttachment(page.attachments, id));
        (s.(pages := s.pages[idx.value := updated], files := s.files - {id}), DeleteAttachmentResult(true, Some(updated)))
  }

  /**
   * `DeletePage` (Program.cs:1055-1095): refuses an unknown id and a page named
   * like the home page (ignoring case); otherwise deletes the files of all
   * the page's attachments, then the page, and evicts the cache.
   */
  function DeletePageStep(s: State, id: int, homePageName: string): (r: (State, bool))
    ensures r.0.users == s.users && r.0.files.Keys <= s.files.Keys
    ensures r.1 ==> |r.0.pages| == |s.pages| - 1 && r.0.cache == None
    ensures !r.1 ==> r.0 == s
  {
    var idx := IndexOfId(s.pages, id);
    if idx.None? then
      (s, false)
    else
      var page := s.pages[idx.value];
      if EqualsIgnoreCase(page.name, homePageName) then
        (s, false)
      else
        (s.(pages := RemoveAt(s.pages, idx.value), files := s.files - FileIds(page.attachments), cache := None), true)
  }

  /** `CanLogin` (Program.cs:1111-1135). */
  function CheckLogin(users: seq<User>, input: LoginInput): (r: LoginResult)
    ensures r.isOk <==> r.user.Some?
    ensures r.isOk <==> r.error.None?
    ensures r.isOk ==> r.user.value in users && r.user.value.name == input.name && r.user.value.password == input.password
  {
    match UserNamed(users, input.name)
    case None => LoginResult(false, None, Some(NoSuchUser))
    case Some(user) =>
      if user.password != input.password then LoginResult(false, None, Some(WrongPassword))
      else LoginResult(true, Some(user), None)
  }

  /** `RegisterUser` (Program.cs:1137-1163): a taken name is refused, otherwise one user is added. */
  function RegisterUserStep(s: State, input: RegisterInput): (r: (State, RegisterResult))
    ensures r.0.pages == s.pages && r.0.files == s.files && r.0.cache == s.cache
    ensures r.1.isOk <==> r.1.error.None?
    ensures r.1.isOk ==> |r.0.users| == |s.users| + 1 && r.0.users[..|s.users|] == s.users
    ensures !r.1.isOk ==> r.0 == s
  {
    if UserNamed(s.users, input.name).Some? then
      (s, RegisterResult(false, Some(UsernameTaken)))
    else
      (s.(users := s.users + [User(NextUserId(s.users), input.name, input.password)]), RegisterResult(true, None))
  }

  /*
   * Every operation keeps the invariant.
   */

  lemma ListAllPagesKeepsInv(s: State, now: Time)
    requires Inv(s)
    ensures Inv(ListAllPagesStep(s, now).0)
  {
  }

  lemma {:induction false} SavePageKeepsInv(s: State, input: PageInput, fileId: string, now: Time, sanitize: string -> string)
    requires Inv(s)
    ensures Inv(SavePageStep(s, input, fileId, now, sanitize).0)
  {
    var (s', page) := SavePageStep(s, input, fileId, now, sanitize);
    var existing := SaveTarget(s.pages, input);
    if existing.None? {
      assert s'.pages == s.pages + [page];
      assert PageIdsAscending(s'.pages) by {
        forall i, j | 0 <= i < j < |s'.pages| ensures s'.pages[i].id < s'.pages[j].id {
          if j == |s.pages| {
            assert s'.pages[i] == s.pages[i];
          }
        }
      }
    } else {
      assert s'.pages == s.pages[existing.value := page];
      assert page.id == s.pages[existing.value].id;
    }
  }

  lemma {:induction false} DeleteAttachmentKeepsInv(s: State, pageId: int, id: string)
    requires Inv(s)
    ensures Inv(DeleteAttachmentStep(s, pageId, id).0)
  {
    var idx := IndexOfId(s.pages, pageId);
    if idx.Some? && id in s.files {
      var s' := DeleteAttachmentStep(s, pageId, id).0;
      var i := idx.value;
      assert s'.pages[i].id == s.pages[i].id;
      assert forall j :: 0 <= j < |s.pages| && j != i ==> s'.pages[j] == s.pages[j];
      assert CacheCurrent(s'.cache, s'.pages) by {
        if s'.cache.Some? {
          assert SameListing(s'.cache.value.pages[i], s'.pages[i]) by {
            assert SameListing(s.cache.value.pages[i], s.pages[i]);
          }
        }
      }
    }
  }

  lemma {:induction false} RemoveAtKeepsIdsAscending(pages: seq<Page>, k: nat)
    requires k < |pages| && PageIdsAscending(pages)
    ensures PageIdsAscending(RemoveAt(pages, k))
  {
    var r := RemoveAt(pages, k);
    assert forall i :: 0 <= i < |r| ==> r[i] == pages[if i < k then i else i + 1];
  }

  lemma {:induction false} DeletePageKeepsInv(s: State, id: int, homePageName: string)
    requires Inv(s)
    ensures Inv(DeletePageStep(s, id, homePageName).0)
  {
    var idx := IndexOfId(s.pages, id);
    if idx.Some? {
      RemoveAtKeepsIdsAscending(s.pages, idx.value);
    }
  }

  lemma {:induction false} RegisterUserKeepsInv(s: State, input: RegisterInput)
    requires Inv(s)
    ensures Inv(RegisterUserStep(s, input).0)
  {
    if UserNamed(s.users, input.name).None? {
      var users := s.users;
      var user := User(NextUserId(users), input.name, input.password);
      var users' := users + [user];
      assert forall i :: 0 <= i < |users| ==> users'[i] == users[i];
      assert forall i :: 0 <= i < |users| ==> users[i].id < user.id;
    }
  }
}
