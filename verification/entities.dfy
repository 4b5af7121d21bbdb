/**
  The records the server keeps in memory: users, notes and folders, with the
  insert and partial-update shapes that the request layer hands to the store.
  Identifiers are strings (the source's random UUIDs); timestamps are integers
  (the source's `Date` values, compared by their millisecond time).
 */
module Entities {
  import opened Basics

  datatype User = User(id: string, username: string, password: string)

  /** `folderId` is `None` for the source's `null`: the note sits in no folder. */
  datatype Note = Note(
    id: string,
    userId: string,
    title: string,
    content: string,
    folderId: Option<string>,
    createdAt: int,
    updatedAt: Option<int>)

  datatype Folder = Folder(id: string, userId: string, name: string, createdAt: int)

  /** The validated body of a user creation. */
  datatype NewUser = NewUser(username: string, password: string)

  /** The validated body of a note creation; `None` stands for an absent or `null` folder. */
  datatype NewNote = NewNote(userId: string, title: string, content: string, folderId: Option<string>)

  /**
    The validated body of a note update: every field may be absent (`None`).
    A present `folderId` may itself be `null` (`Some(None)`).
   */
  datatype NotePatch = NotePatch(
    userId: Option<string>,
    title: Option<string>,
    content: Option<string>,
    folderId: Option<Option<string>>)

  datatype NewFolder = NewFolder(userId: string, name: string)

  datatype FolderPatch = FolderPatch(userId: Option<string>, name: Option<string>)

  /** The time a note was last touched: its update time, else its creation time. */
  function LastActivity(n: Note): int
  {
    n.updatedAt.GetOr(n.createdAt)
  }
}
