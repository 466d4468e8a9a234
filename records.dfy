/**
 * The records the wiki stores and the inputs its operations take
 * (projects/sfa/wiki/Program.cs, records Page, User, Attachment and the
 * three *Input records).
 */
module Records {

  datatype Option<+T> = None | Some(value: T)

  /** A `DateTime` in UTC, as a count of ticks. */
  type Time = int

  newtype byte = x: int | 0 <= x < 256

  /** One uploaded file of a page; `fileId` is also the file's key in the file storage. */
  datatype Attachment = Attachment(fileId: string, fileName: string, mimeType: string, lastModifiedUtc: Time)

  /** A wiki page. `id` is assigned by the database when the page is inserted. */
  datatype Page = Page(id: int, name: string, content: string, lastModifiedUtc: Time, attachments: seq<Attachment>)

  /** A registered user; the password is kept as given. */
  datatype User = User(id: int, name: string, password: string)

  /** The uploaded form file (`IFormFile`): its name, its content type and its bytes. */
  datatype Upload = Upload(fileName: string, contentType: string, data: seq<byte>)

  /** The page editor's form: `id` is absent for a page that does not exist yet. */
  datatype PageInput = PageInput(id: Option<int>, name: string, content: string, attachment: Option<Upload>)

  datatype LoginInput = LoginInput(name: string, password: string)

  datatype RegisterInput = RegisterInput(name: string, password: string, confirmPassword: string)

  /** What the file storage keeps about a file besides its bytes. */
  datatype FileMeta = FileMeta(id: string, fileName: string)

  datatype StoredFile = StoredFile(meta: FileMeta, data: seq<byte>)
}
