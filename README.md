# Wiki content store, in Dafny

This project models the content store of the single-file wiki in
`projects/sfa/wiki/Program.cs`: the `Wiki` class that keeps pages, their file
attachments and the registered users in a LiteDB database and serves a
cached listing of all pages, together with the records it stores and the
FluentValidation validators that the web layer runs before calling it.

The model has six modules:

- `Records` (`records.dfy`): the `Page`, `Attachment`, `User` records, the
  `PageInput`, `LoginInput`, `RegisterInput` inputs, and the file storage's entries.
- `Text` (`text.dfy`): `char.IsWhiteSpace`, `string.IsNullOrWhiteSpace`, `Trim`,
  `Replace(' ', '-')`, `ToLower`, ordinal case-insensitive comparison, and the
  page-name normalisation `SavePage` applies.
- `Validators` (`validators.dfy`): `PageInputValidator`, `LoginInputValidator`
  and `RegisterInputValidator` as functions from an input to its error messages.
- `Store` (`store.dfy`): the database and the cache as one `State` value, and
  each operation as a step function from the old state to the new state and
  the result. It also holds the invariant `Inv`:
  - page ids are positive and ascending;
  - user ids are positive and ascending, and user names are unique;
  - a cached listing agrees with the stored pages except in attachment lists.

  For each state-changing operation, a lemma proves that the operation keeps `Inv`.
- `ContentStore` (`wiki.dfy`): the `Wiki` class. Its fields are the pages, the
  file storage, the users and the cache slot. Each method is imperative:
  - `DeletePage` deletes the attachment files in a loop;
  - `SavePage` uploads first, then inserts or updates.

  Each operation method (`ListAllPages`, `SavePage`, `DeleteAttachment`,
  `DeletePage`, `RegisterUser`) is proved to have exactly the effect of its
  step function and to keep `Inv`. The helper methods `DeleteFile`,
  `UploadAttachment` and `StorePage` are proved equal to the `Store`
  functions they stand for.
- `StoreProperties` (`properties.dfy`): what callers can rely on, proved
  about the step functions. It covers:
  - where a saved page is found, and what saving, deleting and registering
    change and leave alone;
  - what the cache returns, and the round trips upload → delete and
    register → log in;
  - how a valid home-page edit keeps the home page's name.

Pages are held in `_id` order, the order LiteDB's `Query()` returns them in.
The source opens a new `LiteDatabase` on every call, so LiteDB numbers an
inserted document one past the largest `_id` in its collection, or 1 in an
empty one. The model assigns ids the same way.

The clock, `Guid.NewGuid()` and `HtmlSanitizer.Sanitize` are parameters of
the operations that use them (`now`, `fileId`, `sanitize`).

The model follows what the code does. Some of that behaviour may surprise a
reader of the web pages alone:

- `DeleteAttachment` does not evict the cached listing. A listing served from
  the cache can still show a deleted attachment until the entry expires (see
  `StoreProperties.StaleAttachmentInListing`). A successful `SavePage` or
  `DeletePage` evicts it.
- Page names are not unique. Saving a new page whose name matches an older
  page stores it, but `GetPage` keeps returning the older one (see
  `StoreProperties.NewPageShadowedByOlder`).
- `DeleteAttachment` does not check that the file belongs to the page. It
  deletes any stored file id and succeeds (see
  `StoreProperties.DeleteForeignAttachment`).
- `SavePage` itself does not protect the home page's name. Saving page
  "home-page" under another name renames it (see
  `StoreProperties.UnvalidatedSaveRenamesHomePage`). `PageInputValidator`,
  which the web layer runs first, refuses that input only when it is posted
  to the home page's route (see `StoreProperties.ValidatorRefusesHomeRename`
  and `StoreProperties.ValidatedHomeSaveKeepsName`). The validator looks at
  the route, while `SavePage` picks the page by the form's `Id`. So the same
  rename posted to another route passes the validator and renames the home
  page (see `StoreProperties.ForeignRouteAcceptsHomeRename`).
- `Replace(' ', '-')` replaces U+0020 only. A tab or other white space
  inside a name stays in the stored name (see `Text.TabInsideNameKept`).

## Model

| member | source | states |
|---|---|---|
| ContentStore.Wiki.constructor | projects/sfa/wiki/Program.cs:909-914 | a new wiki sees an empty database and an empty cache, and satisfies the invariant |
| ContentStore.Wiki.ListAllPages | projects/sfa/wiki/Program.cs:920-933 | the listing and the new state are those of `ListAllPagesStep`: a live cache entry is returned as is, otherwise the stored pages are returned and cached for 30 minutes; the invariant is kept |
| ContentStore.Wiki.GetPage | projects/sfa/wiki/Program.cs:936-945 | the result is the first page in `_id` order whose name equals the path ignoring case, and none exactly when no page's name matches |
| ContentStore.Wiki.UploadAttachment | projects/sfa/wiki/Program.cs:961-974 | an attachment is created, and the file stored under the fresh id with its name and bytes, exactly when an upload with a non-blank file name is present; pages, users and cache are untouched |
| ContentStore.Wiki.StorePage | projects/sfa/wiki/Program.cs:976-1010 | without a target a new page with the next id is appended, otherwise the target gets the new name, content and time with the attachment appended; the cache is evicted, files and users are untouched |
| ContentStore.Wiki.SavePage | projects/sfa/wiki/Program.cs:948-1016 | the saved page and the new state are those of `SavePageStep` (upload, then insert or update by id, then cache eviction); the invariant is kept |
| ContentStore.Wiki.DeleteFile | projects/sfa/wiki/Program.cs:1031 | `FileStorage.Delete` reports true exactly when the file existed, and removes exactly that file |
| ContentStore.Wiki.DeleteAttachment | projects/sfa/wiki/Program.cs:1018-1053 | the result and the new state are those of `DeleteAttachmentStep`; the invariant is kept |
| ContentStore.Wiki.DeletePage | projects/sfa/wiki/Program.cs:1055-1095 | the loop deletes the file of every attachment (invariant: the files so far are gone), then the page goes and the cache is evicted, as `DeletePageStep` says; the invariant is kept |
| ContentStore.Wiki.GetFile | projects/sfa/wiki/Program.cs:1098-1109 | the stored file (metadata and bytes) is returned exactly when the file storage holds that id |
| ContentStore.Wiki.CanLogin | projects/sfa/wiki/Program.cs:1111-1135 | success returns a stored user with that name and password; failure returns no user; "No user exists with this name" exactly when no user has the name; an error exactly when it fails |
| ContentStore.Wiki.RegisterUser | projects/sfa/wiki/Program.cs:1137-1163 | the result and the new state are those of `RegisterUserStep`; the invariant is kept |
| Store.IndexOfId | projects/sfa/wiki/Program.cs:1024 | `FindById`: the first index holding that id, and none exactly when no page has it |
| Store.PageNamed | projects/sfa/wiki/Program.cs:942-944 | the first page whose name equals the path ignoring case; none exactly when none matches |
| Store.UserNamed | projects/sfa/wiki/Program.cs:1119 | a stored user with exactly that name; none exactly when no user has it |
| Store.FindFile | projects/sfa/wiki/Program.cs:1102-1108 | the stored file exactly when the id is present |
| Store.FirstIndex | projects/sfa/wiki/Program.cs:1024 | the index of the first element satisfying the predicate, or none when no element does (`FindById`, `FindOne`, `FirstOrDefault`) |
| Store.SaveTarget | projects/sfa/wiki/Program.cs:956 | the page to update has the input's id; none when there is no id or no stored page has it |
| Store.RemoveAll | projects/sfa/wiki/Program.cs:1037 | an element stays exactly when it was there and does not match; the list never grows |
| Store.NewAttachment | projects/sfa/wiki/Program.cs:961-970 | an attachment exactly when a file was uploaded whose name is not blank; it carries the fresh file id, the file name, the content type and the time |
| Store.UploadedFiles | projects/sfa/wiki/Program.cs:972-973 | `FileStorage.Upload`: with an attachment, the fresh id holds the file's name and bytes; otherwise the storage is unchanged; no other key appears or disappears, and every other file keeps its metadata and bytes |
| Store.SavedPage | projects/sfa/wiki/Program.cs:978-1003 | the stored page gets the new name, content and time; a new page gets the next id and only the upload as attachments; an updated page keeps its id and earlier attachments with the upload appended |
| Store.PlacePage | projects/sfa/wiki/Program.cs:988-1005 | `Insert` appends the page at the end; `Update` replaces the target in place; every other page stays where it was |
| Store.RemoveAttachment | projects/sfa/wiki/Program.cs:1037 | an attachment stays exactly when its file id differs from the id ignoring case; the list never grows |
| Store.RemoveAt | projects/sfa/wiki/Program.cs:1082 | `coll.Delete`: one element fewer, the ones before the index unchanged and the ones after it shifted down by one |
| Store.FileIdsSnoc | projects/sfa/wiki/Program.cs:1077-1080 | each loop turn deletes one more attachment's file id |
| Store.NextPageId | projects/sfa/wiki/Program.cs:988 | LiteDB's auto id for an inserted page: 1 in an empty collection, and positive and larger than every stored id when ids ascend |
| Store.NextUserId | projects/sfa/wiki/Program.cs:1156 | the same auto id for an inserted user: 1 in an empty collection, and positive and larger than every stored id when ids ascend |
| Store.ListAllPagesStep | projects/sfa/wiki/Program.cs:920-933 | listing changes only the cache slot; with a live entry it returns the cached pages, otherwise the stored ones (the listing lemmas give the rest) |
| Store.SavePageStep | projects/sfa/wiki/Program.cs:948-1016 | the saved page has the sanitised normalised name; users stay and the cache is evicted (the save lemmas give where the page goes and what the files become) |
| Store.DeleteAttachmentStep | projects/sfa/wiki/Program.cs:1018-1053 | users, cache and the number of pages stay; success removes exactly that stored file id; failure changes nothing |
| Store.DeletePageStep | projects/sfa/wiki/Program.cs:1055-1095 | users stay and no file is added; success removes one page and evicts the cache; failure changes nothing |
| Store.CheckLogin | projects/sfa/wiki/Program.cs:1111-1135 | success exactly when a user is returned and exactly when there is no error; the user returned is stored with that name and password |
| Store.RegisterUserStep | projects/sfa/wiki/Program.cs:1137-1163 | pages, files and cache stay; success exactly when there is no error, and then one user is appended after the existing ones; failure changes nothing |
| Store.ListAllPagesKeepsInv | projects/sfa/wiki/Program.cs:920-933 | listing keeps the invariant |
| Store.SavePageKeepsInv | projects/sfa/wiki/Program.cs:948-1016 | saving keeps the invariant |
| Store.DeleteAttachmentKeepsInv | projects/sfa/wiki/Program.cs:1018-1053 | deleting an attachment keeps the invariant although it leaves the cache alone |
| Store.RemoveAtKeepsIdsAscending | projects/sfa/wiki/Program.cs:1082 | deleting one page keeps the ids ascending |
| Store.DeletePageKeepsInv | projects/sfa/wiki/Program.cs:1055-1095 | deleting a page keeps the invariant |
| Store.RegisterUserKeepsInv | projects/sfa/wiki/Program.cs:1137-1163 | registering keeps user ids ascending and names unique |
| Text.IsWhiteSpace | projects/sfa/wiki/Program.cs:959 | `char.IsWhiteSpace`: space, tab, line feed and carriage return are white space; no printable ASCII character is |
| Text.SkipLeadingWhiteSpace | projects/sfa/wiki/Program.cs:959 | the front scan of `Trim` stops at the first character that is not white space, and everything it skips is white space |
| Text.SkipTrailingWhiteSpace | projects/sfa/wiki/Program.cs:959 | the back scan of `Trim` stops after the last character that is not white space, never before the front scan's stop, and everything it skips is white space |
| Text.IsBlank | projects/sfa/wiki/Program.cs:962 | `string.IsNullOrWhiteSpace` and a failed `NotEmpty`: the empty string is blank, and a string is blank exactly when each of its characters is white space |
| Text.Trim | projects/sfa/wiki/Program.cs:959 | the result neither starts nor ends with white space, is no longer than the input, and is empty exactly when the input is blank |
| Text.TrimIsSlice | projects/sfa/wiki/Program.cs:959 | the trimmed string is a slice of the input with only white space cut off on either side |
| Text.SpacesToHyphens | projects/sfa/wiki/Program.cs:959 | every space and only spaces become hyphens; the length is kept |
| Text.LowerChar | projects/sfa/wiki/Program.cs:959 | the result is never an upper-case letter, is a space exactly when the input is, and changes no other character |
| Text.LowerCharKeepsWhiteSpace | projects/sfa/wiki/Program.cs:959 | lower-casing does not change whether a character is white space |
| Text.ToLower | projects/sfa/wiki/Program.cs:959 | lower-cases each character in place |
| Text.EqualsIgnoreCase | projects/sfa/wiki/Program.cs:943 | `StringComparison.OrdinalIgnoreCase`: equal strings match; two strings match exactly when they have the same length and agree character by character after case mapping |
| Text.NormalizeName | projects/sfa/wiki/Program.cs:959 | the normalised name is empty exactly when the input is blank, and never longer than it |
| Text.NormalizedShape | projects/sfa/wiki/Program.cs:959 | a normalised name has no space, no upper-case letter and no white space at its ends |
| Text.NormalizedIsFixed | projects/sfa/wiki/Program.cs:959 | a name of that shape is its own normalisation |
| Text.NormalizeIdempotent | projects/sfa/wiki/Program.cs:959 | normalising twice is normalising once |
| Text.TrimOfTrimmed | projects/sfa/wiki/Program.cs:959 | `Trim` leaves a string without white space at its ends unchanged |
| Text.TrimPadded | projects/sfa/wiki/Program.cs:959 | `Trim` removes a single blank on each side of such a string |
| Text.NormalizeExample | projects/sfa/wiki/Program.cs:959 | " Getting Started " is stored under "getting-started" |
| Text.TabInsideNameKept | projects/sfa/wiki/Program.cs:959 | a tab is white space, yet a tab inside a name is not turned into a hyphen |
| Text.NormalizeOther | projects/sfa/wiki/Program.cs:959 | "Other" is stored under "other" |
| Validators.PageInputErrors | projects/sfa/wiki/Program.cs:1235-1245 | no errors exactly when name and content are not blank and, when the home page is being edited, the name is exactly the home page name; each message appears exactly when its rule fails |
| Validators.LoginInputErrors | projects/sfa/wiki/Program.cs:1247-1259 | no errors exactly when the name and password are not blank and the password has at least 8 characters; both password rules run |
| Validators.RegisterInputErrors | projects/sfa/wiki/Program.cs:1261-1282 | no errors exactly when name, password and confirmation are not blank, the password has at least 8 characters and equals the confirmation; the length rule only runs on a non-blank password; the mismatch rule only runs when both passwords are non-empty |
| StoreProperties.PageNamedAfterAppend | projects/sfa/wiki/Program.cs:942-944 | appending a page does not change what `GetPage` finds when an earlier page already matches |
| StoreProperties.OnlyMatchIsFound | projects/sfa/wiki/Program.cs:942-944 | the only page whose name matches is the one found |
| StoreProperties.SaveInsertsNewPage | projects/sfa/wiki/Program.cs:976-991 | a save without a stored id appends one page with a fresh, larger id, the normalised sanitised name, the content verbatim, the time and the upload as its attachments; users unchanged, cache evicted |
| StoreProperties.SaveUpdatesExistingPage | projects/sfa/wiki/Program.cs:993-1008 | a save with a stored id updates that page in place, keeping its id and earlier attachments and appending the upload; every other page unchanged; cache evicted |
| StoreProperties.SaveStoresUpload | projects/sfa/wiki/Program.cs:962-974 | the upload is stored, with its name and bytes, exactly when its file name is not blank; no other file changes |
| StoreProperties.SavedPageAt | projects/sfa/wiki/Program.cs:976-1008 | the saved page is at the end after an insert and in place after an update |
| StoreProperties.SavedPageFoundByName | projects/sfa/wiki/Program.cs:936-1016 | after a save, `GetPage` with any casing of the stored name returns the saved page when no other page matches |
| StoreProperties.NewPageShadowedByOlder | projects/sfa/wiki/Program.cs:936-1016 | a new page whose name an older page already matches is stored, but `GetPage` keeps returning the older page |
| StoreProperties.ListingFromLiveCache | projects/sfa/wiki/Program.cs:922-925 | with a live entry the listing is the cached one and nothing changes |
| StoreProperties.ListingFromStore | projects/sfa/wiki/Program.cs:927-932 | otherwise the listing is the stored pages and is cached until 30 minutes later; nothing else changes |
| StoreProperties.ListingMatchesStore | projects/sfa/wiki/Program.cs:920-933 | under the invariant every listing matches the stored pages one to one on id, name, content and time |
| StoreProperties.ListingAfterSaveIsFresh | projects/sfa/wiki/Program.cs:976-1010 | the next listing after a save is read from the store and contains the saved page |
| StoreProperties.ListingAfterDeleteIsFresh | projects/sfa/wiki/Program.cs:1082-1086 | the next listing after a successful page delete is read from the store and lacks the page |
| StoreProperties.IndexOfStoredId | projects/sfa/wiki/Program.cs:1062 | under the invariant `FindById` on a stored page's id finds that page |
| StoreProperties.DeleteUnknownPageRefused | projects/sfa/wiki/Program.cs:1064-1068 | deleting an unknown id fails and changes nothing |
| StoreProperties.DeleteHomePageRefused | projects/sfa/wiki/Program.cs:1070-1074 | deleting a page named like the home page, in any casing, fails and changes nothing |
| StoreProperties.DeletePageSucceeds | projects/sfa/wiki/Program.cs:1076-1086 | otherwise the page is removed with the others kept in order; the file storage loses exactly the files of its attachments, and every other file keeps its metadata and bytes; users stay; cache evicted |
| StoreProperties.HomePageSurvivesDelete | projects/sfa/wiki/Program.cs:1070-1074 | under the invariant, a page named like the home page is still stored after any page delete |
| StoreProperties.RemoveAllAppend | projects/sfa/wiki/Program.cs:1037 | `RemoveAll` works element by element and keeps the order of the rest |
| StoreProperties.RemoveAllNoMatch | projects/sfa/wiki/Program.cs:1037 | `RemoveAll` with no matching element leaves the list as it is |
| StoreProperties.DeleteAttachmentUnknownPage | projects/sfa/wiki/Program.cs:1024-1029 | an unknown page id fails without a page and changes nothing |
| StoreProperties.DeleteAttachmentMissingFile | projects/sfa/wiki/Program.cs:1031-1035 | a file id not in storage fails with the page as stored and changes nothing |
| StoreProperties.DeleteAttachmentSucceeds | projects/sfa/wiki/Program.cs:1031-1047 | otherwise the file is deleted, the page keeps exactly the attachments whose file id differs ignoring case, and other pages, users and the cache stay |
| StoreProperties.DeleteForeignAttachment | projects/sfa/wiki/Program.cs:1031-1047 | a stored file no attachment of the page refers to is deleted all the same, and the page is unchanged |
| StoreProperties.StaleAttachmentInListing | projects/sfa/wiki/Program.cs:1018-1053 | after deleting an attachment, a listing served from the cache still shows it |
| StoreProperties.UploadThenDeleteAttachment | projects/sfa/wiki/Program.cs:948-1053 | uploading with a save and then deleting that attachment restores the file storage and leaves no attachment for the file |
| StoreProperties.UploadedFileRemovable | projects/sfa/wiki/Program.cs:962-974 | a file uploaded under a fresh id is stored, and removing it gives back the file storage from before the save |
| StoreProperties.LoginOutcomes | projects/sfa/wiki/Program.cs:1119-1130 | with unique names, login succeeds exactly when a user has that name and password; the error tells an unknown name from a wrong password |
| StoreProperties.RegisterOutcomes | projects/sfa/wiki/Program.cs:1145-1157 | registering succeeds exactly when the name is free and then appends one user with a fresh larger id; a taken name fails with "Username is Taken" and changes nothing |
| StoreProperties.RegisterTwiceRefused | projects/sfa/wiki/Program.cs:1145-1148 | registering a name a second time is refused |
| StoreProperties.RegisterThenLogin | projects/sfa/wiki/Program.cs:1111-1163 | after registering, logging in with the same password succeeds and with another fails as a wrong password |
| StoreProperties.HomePageNameIsNormal | projects/sfa/wiki/Program.cs:22 | "home-page" is its own normalised name |
| StoreProperties.ValidatedHomeSaveKeepsName | projects/sfa/wiki/Program.cs:1237-1243 | a save posted to the home page's route that passes the validator is stored under the sanitised home page name |
| StoreProperties.UnvalidatedSaveRenamesHomePage | projects/sfa/wiki/Program.cs:993-1008 | without the validator, saving page 1 "home-page" under the name "Other" stores it as "other" |
| StoreProperties.ValidatorRefusesHomeRename | projects/sfa/wiki/Program.cs:1240-1241 | posted to the home page's route, that input fails `PageInputValidator` with the home page message only |
| StoreProperties.ForeignRouteAcceptsHomeRename | projects/sfa/wiki/Program.cs:1237-1243 | posted to the route "other", the same input passes `PageInputValidator`, and the save then stores page 1 as "other" |

## Left out

- Exceptions: the `catch` blocks and the exception values returned in the
  result tuples are not modelled. `ContentStore.Wiki.SavePage` returns the
  saved page, the success case of its `(isOk, page, ex)` result.
- The logger calls are not modelled; they have no effect on the store.
- `DeleteAttachment`'s branch for a failed `coll.Update`
  (Program.cs:1041-1045) is not modelled. Nor is `DeletePage`'s branch for a
  failed `coll.Delete` (Program.cs:1088-1089). In a sequential model the
  page was found just before, so neither can happen.
- `EnsureIndex` is not modelled, because it does not change any result.
- Concurrency is not modelled: several requests running at once, the
  thread-safety of the memory cache, and eviction of the cache entry under
  memory pressure.
- `Store.UserNamed`: LiteDB compares strings with its database collation, which
  may ignore case. The model uses exact equality for user names
  (`FindOne(x => x.Name == ...)`, `Exists`) and for file ids.
- `Records.StoredFile`: of LiteDB's `LiteFileInfo`, only the id and the file
  name are kept. The MIME type LiteDB infers from the extension, the upload
  date and the length are not.
- `ContentStore.Wiki.SavePage`: the source reads `Timestamp()` up to twice per
  call (attachment and page). The model uses one clock reading, `now`.
- `Text.ToLower`, `Text.EqualsIgnoreCase`: only the ASCII letters A-Z are case
  mapped. Culture-sensitive and non-ASCII case mapping is not modelled.
- `Validators.LoginInputErrors`, `Validators.RegisterInputErrors`: .NET
  counts a string's length in UTF-16 code units, while the model counts
  Unicode scalar values.
- Null strings and null inputs are not modelled: every string is present.
- `ContentStore.Wiki.constructor`: the source constructor receives the
  hosting environment, the memory cache and the logger. The model starts
  from an empty database and an empty cache instead.
- The 32-bit range of page and user ids is not modelled: ids are unbounded
  integers.
- The form parsing in `PageInput.From`, `LoginInput.From` and
  `RegisterInput.From` (Program.cs:1202-1233) and the web endpoints that call
  the store are not part of this model.
- `GetDbPath` and the database file are not modelled; the store's state is
  held in memory.
