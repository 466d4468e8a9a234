/**
 * The `Wiki` class of projects/sfa/wiki/Program.cs:896-1164: one object that
 * owns the pages, the file storage, the users and the listing cache, and
 * whose methods change them in place. Each method is proved to have exactly
 * the effect the matching function of module `Store` describes, and to keep
 * the store's invariant.
 */
module ContentStore {
  import opened Records
  import opened Text
  import opened Store

  class Wiki {
    var pages: seq<Page>
    var files: map<string, StoredFile>
    var users: seq<User>
    var cache: Option<CacheEntry>

    ghost function Current(): State
      reads this
    {
      State(pages, files, users, cache)
    }

    ghost predicate Valid()
      reads this
    {
      Inv(Current())
    }

    /** A wiki over an empty database and an empty cache. */
    constructor ()
      ensures Valid()
      ensures pages == [] && files == map[] && users == [] && cache == None
    {
      pages, files, users, cache := [], map[], [], None;
    }

    /** `ListAllPages` (Program.cs:920-933), at clock time `now`. */
    method ListAllPages(now: Time) returns (items: seq<Page>)
      requires Valid()
      modifies this
      ensures Valid()
      ensures (Current(), items) == ListAllPagesStep(old(Current()), now)
    {
      if cache.Some? && now < cache.value.expiresAt {
        return cache.value.pages;
      }
      items := pages;
      cache := Some(CacheEntry(items, now + CacheAllPagesForMinutes * TicksPerMinute));
    }

    /**
     * `GetPage` (Program.cs:936-945): the first page, in `_id` order, whose
     * name equals `path` ignoring case; none exactly when no name matches.
     */
    function GetPage(path: string): (r: Option<Page>)
      reads this
      ensures r.None? <==> forall j :: 0 <= j < |pages| ==> !EqualsIgnoreCase(pages[j].name, path)
      ensures r.Some? ==>
        exists i :: (0 <= i < |pages| && pages[i] == r.value && EqualsIgnoreCase(pages[i].name, path)
                     && forall j :: 0 <= j < i ==> !EqualsIgnoreCase(pages[j].name, path))
    {
      PageNamed(pages, path)
    }

    /** `FileStorage.Delete(id)`: true when there was a file to delete. */
    method DeleteFile(id: string) returns (deleted: bool)
      modifies this
      ensures deleted <==> id in old(files)
      ensures files == old(files) - {id}
      ensures pages == old(pages) && users == old(users) && cache == old(cache)
    {
      deleted := id in files;
      files := files - {id};
    }

    /**
     * The upload step of `SavePage` (Program.cs:961-974): a non-blank file
     * name makes an attachment and stores the file under `fileId`.
     */
    method UploadAttachment(input: PageInput, fileId: string, now: Time) returns (attachment: Option<Attachment>)
      modifies this
      ensures attachment == NewAttachment(input, fileId, now)
      ensures files == UploadedFiles(old(files), input, fileId, now)
      ensures pages == old(pages) && users == old(users) && cache == old(cache)
    {
      attachment := None;
      if input.attachment.Some? && !IsBlank(input.attachment.value.fileName) {
        var upload := input.attachment.value;
        attachment := Some(Attachment(fileId, upload.fileName, upload.contentType, now));
        files := files[fileId := StoredFile(FileMeta(fileId, upload.fileName), upload.data)];
      }
    }

    /**
     * The database step of `SavePage` (Program.cs:976-1010): inserts a new page,
     * or updates the name, content and time of the target page and appends
     * the attachment to its list; then evicts the listing cache.
     */
    method StorePage(target: Option<nat>, name: string, content: string, now: Time, attachment: Option<Attachment>)
      returns (page: Page)
      requires target.Some? ==> target.value < |pages|
      modifies this
      ensures page == SavedPage(old(pages), target, name, content, now, attachment)
      ensures pages == PlacePage(old(pages), target, page)
      ensures files == old(files) && users == old(users) && cache == None
    {
      if target.None? {
        page := Page(NextPageId(pages), name, content, now, []);
        if attachment.Some? {
          page := page.(attachments := page.attachments + [attachment.value]);
        }
        assert page.attachments == AttachmentList(attachment);
        pages := pages + [page];
      } else {
        var stored := pages[target.value];
        page := stored.(name := name, content := content, lastModifiedUtc := now);
        if attachment.Some? {
          page := page.(attachments := page.attachments + [attachment.value]);
        } else {
          assert stored.attachments + AttachmentList(attachment) == stored.attachments;
        }
        pages := pages[target.value := page];
      }
      cache := None;
    }

    /**
     * `SavePage` (Program.cs:948-1016). The fresh `Guid`, the clock and the
     * HTML sanitiser are parameters.
     */
    method SavePage(input: PageInput, fileId: string, now: Time, sanitize: string -> string) returns (page: Page)
      requires Valid()
      modifies this
      ensures Valid()
      ensures (Current(), page) == SavePageStep(old(Current()), input, fileId, now, sanitize)
    {
      SavePageKeepsInv(Current(), input, fileId, now, sanitize);
      var target := SaveTarget(pages, input);
      var properName := NormalizeName(input.name);
      var attachment := UploadAttachment(input, fileId, now);
      page := StorePage(target, sanitize(properName), input.content, now, attachment);
    }

    /** `DeleteAttachment` (Program.cs:1018-1053). */
    method DeleteAttachment(pageId: int, id: string) returns (r: DeleteAttachmentResult)
      requires Valid()
      modifies this
      ensures Valid()
      ensures (Current(), r) == DeleteAttachmentStep(old(Current()), pageId, id)
    {
      DeleteAttachmentKeepsInv(Current(), pageId, id);
      var idx := IndexOfId(pages, pageId);
      if idx.None? {
        return DeleteAttachmentResult(false, None);
      }
      var page := pages[idx.value];
      var deleted := DeleteFile(id);
      if !deleted {
        assert files == old(files);
        return DeleteAttachmentResult(false, Some(page));
      }
      page := page.(attachments := RemoveAttachment(page.attachments, id));
      pages := pages[idx.value := page];
      return DeleteAttachmentResult(true, Some(page));
    }

    /** `DeletePage` (Program.cs:1055-1095). */
    method DeletePage(id: int, homePageName: string) returns (isOk: bool)
      requires Valid()
      modifies this
      ensures Valid()
      ensures (Current(), isOk) == DeletePageStep(old(Current()), id, homePageName)
    {
      DeletePageKeepsInv(Current(), id, homePageName);
      var idx := IndexOfId(pages, id);
      if idx.None? {
        return false;
      }
      var page := pages[idx.value];
      if EqualsIgnoreCase(page.name, homePageName) {
        return false;
      }

      var k := 0;
      while k < |page.attachments|
        invariant 0 <= k <= |page.attachments|
        invariant files == old(files) - FileIds(page.attachments[..k])
        invariant pages == old(pages) && users == old(users) && cache == old(cache)
      {
        var deleted := DeleteFile(page.attachments[k].fileId);
        FileIdsSnoc(page.attachments, k);
        k := k + 1;
      }
      assert page.attachments[..k] == page.attachments;

      pages := RemoveAt(pages, idx.value);
      cache := None;
      return true;
    }

    /** `GetFile` (Program.cs:1098-1109): the file's metadata and bytes, exactly when it exists. */
    function GetFile(fileId: string): (r: Option<StoredFile>)
      reads this
      ensures r.Some? <==> fileId in files
      ensures r.Some? ==> r.value == files[fileId]
    {
      FindFile(files, fileId)
    }

    /**
     * `CanLogin` (Program.cs:1111-1135): succeeds with the first user of that
     * name when the password is equal; otherwise fails with no user and an
     * error naming the unknown user or the wrong password.
     */
    function CanLogin(input: LoginInput): (r: LoginResult)
      reads this
      ensures r == CheckLogin(users, input)
      ensures r.isOk ==> r.user.Some? && r.user.value in users
                         && r.user.value.name == input.name && r.user.value.password == input.password
      ensures !r.isOk ==> r.user.None?
      ensures r.error == Some(NoSuchUser) <==> forall u :: u in users ==> u.name != input.name
      ensures r.error.None? <==> r.isOk
    {
      CheckLogin(users, input)
    }

    /** `RegisterUser` (Program.cs:1137-1163). */
    method RegisterUser(input: RegisterInput) returns (r: RegisterResult)
      requires Valid()
      modifies this
      ensures Valid()
      ensures (Current(), r) == RegisterUserStep(old(Current()), input)
    {
      RegisterUserKeepsInv(Current(), input);
      if UserNamed(users, input.name).Some? {
        return RegisterResult(false, Some(UsernameTaken));
      }
      users := users + [User(NextUserId(users), input.name, input.password)];
      return RegisterResult(true, None);
    }
  }
}
