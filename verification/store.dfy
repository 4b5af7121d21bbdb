/**
  The in-memory entity store (`MemStorage`): three JavaScript maps of users,
  notes and folders. Every note and folder operation is scoped to the calling
  user: a record that is missing and a record owned by someone else are both
  reported as absent. Each operation is a function from the old store to its
  answer and the new store; `randomUUID()` and `new Date()` are its `id` and
  `now` parameters.
 */
module Store {
  import opened Basics
  import opened Seqs
  import opened JsMaps
  import opened Entities
  import opened Sorting

  datatype Store = Store(users: JsMap<User>, notes: JsMap<Note>, folders: JsMap<Folder>)

  /** Each map is well formed and stores every record under its own id. */
  predicate Valid(s: Store)
  {
    && s.users.Valid() && s.notes.Valid() && s.folders.Valid()
    && (forall k :: k in s.users.entries ==> s.users.entries[k].id == k)
    && (forall k :: k in s.notes.entries ==> s.notes.entries[k].id == k)
    && (forall k :: k in s.folders.entries ==> s.folders.entries[k].id == k)
  }

  /** The store the server starts with. */
  function EmptyStore(): (s: Store)
    ensures Valid(s)
    ensures s.users.entries == map[] && s.notes.entries == map[] && s.folders.entries == map[]
  {
    Store(Empty(), Empty(), Empty())
  }

  // ---------------------------------------------------------------- users

  /** `getUser`: the stored user with that id, if any. */
  function GetUser(s: Store, id: string): (r: Option<User>)
    ensures r.Some? <==> id in s.users.entries
    ensures r.Some? ==> r.value == s.users.entries[id]
  {
    s.users.Get(id)
  }

  /** The first user in `us` with that username (`Array.prototype.find`). */
  function FindByUsername(us: seq<User>, username: string): (r: Option<User>)
    ensures r.None? <==> forall i :: 0 <= i < |us| ==> us[i].username != username
    ensures r.Some? ==> r.value in us && r.value.username == username
    ensures r.Some? ==> exists i :: 0 <= i < |us| && us[i] == r.value && forall j :: 0 <= j < i ==> us[j].username != username
  {
    if |us| == 0 then None
    else if us[0].username == username then Some(us[0])
    else FindByUsername(us[1..], username)
  }

  /** `getUserByUsername`: the earliest-created user with that username, if any. */
  function GetUserByUsername(s: Store, username: string): (r: Option<User>)
    ensures r.None? <==> forall u :: u in s.users.Values() ==> u.username != username
    ensures r.Some? ==> r.value.username == username && r.value in s.users.Values()
  {
    FindByUsername(s.users.Values(), username)
  }

  /** A user with the username is found exactly when one is stored, and what is found is stored. */
  lemma GetUserByUsernameSpec(s: Store, username: string)
    requires Valid(s)
    ensures GetUserByUsername(s, username).Some?
        <==> exists k :: k in s.users.entries && s.users.entries[k].username == username
    ensures GetUserByUsername(s, username).Some? ==>
              var u := GetUserByUsername(s, username).value;
              u.username == username && u.id in s.users.entries && s.users.entries[u.id] == u
  {
    ValuesMembers(s.users);
    var vs := s.users.Values();
    var r := GetUserByUsername(s, username);
    if exists k :: k in s.users.entries && s.users.entries[k].username == username {
      var k :| k in s.users.entries && s.users.entries[k].username == username;
      assert s.users.entries[k] in vs;
    }
    if r.Some? {
      assert r.value in vs;
    }
  }

  /** Of several users with the username, the one found was inserted first. */
  lemma GetUserByUsernameFirst(s: Store, username: string)
    requires Valid(s)
    ensures GetUserByUsername(s, username).Some? ==>
      exists i :: 0 <= i < |s.users.keys| && s.users.keys[i] == GetUserByUsername(s, username).value.id
                  && forall j :: 0 <= j < i ==> s.users.entries[s.users.keys[j]].username != username
  {
    if GetUserByUsername(s, username).None? {
      return;
    }
    var vs := s.users.Values();
    var u := GetUserByUsername(s, username).value;
    var i :| 0 <= i < |vs| && vs[i] == u && forall j :: 0 <= j < i ==> vs[j].username != username;
    assert s.users.keys[i] == u.id;
    forall j | 0 <= j < i
      ensures s.users.entries[s.users.keys[j]].username != username
    {
      assert vs[j] == s.users.entries[s.users.keys[j]];
    }
  }

  /** `createUser`: stores `{...input, id}` under the given id, with no username check. */
  function CreateUser(s: Store, input: NewUser, id: string): (r: (User, Store))
    ensures r.0 == User(id, input.username, input.password)
    ensures r.1.users.entries == s.users.entries[id := r.0]
    ensures r.1.notes == s.notes && r.1.folders == s.folders
    ensures Valid(s) ==> Valid(r.1)
  {
    var user := User(id, input.username, input.password);
    (user, s.(users := s.users.Set(id, user)))
  }

  /** A second user may take a username that is already in use: both are then stored. */
  lemma CreateUserAllowsDuplicateUsername(s: Store, input: NewUser, id: string, existing: string)
    requires Valid(s) && id !in s.users.entries
    requires existing in s.users.entries && s.users.entries[existing].username == input.username
    ensures var s' := CreateUser(s, input, id).1;
      && existing in s'.users.entries && s'.users.entries[existing].username == input.username
      && id in s'.users.entries && id != existing
      && s'.users.entries[id].username == input.username
      && GetUserByUsername(s', input.username).Some?
  {
    var s' := CreateUser(s, input, id).1;
    GetUserByUsernameSpec(s', input.username);
  }

  // ---------------------------------------------------------------- notes

  /** Selects the records owned by `userId`. */
  function OwnedBy(userId: string): Note -> bool
  {
    (n: Note) => n.userId == userId
  }

  /** `getNotesByUserId`: the caller's notes, most recently active first. */
  function NotesOf(s: Store, userId: string): (r: seq<Note>)
    ensures MostRecentFirst(r)
    ensures multiset(r) == multiset(Filter(s.notes.Values(), OwnedBy(userId)))
  {
    var mine := Filter(s.notes.Values(), OwnedBy(userId));
    SortByActivitySpec(mine);
    SortByActivity(mine)
  }

  /** The listing holds exactly the stored notes of the caller. */
  lemma NotesOfExactly(s: Store, userId: string)
    requires Valid(s)
    ensures forall n :: (n in NotesOf(s, userId)
        <==> n.userId == userId && n.id in s.notes.entries && s.notes.entries[n.id] == n)
  {
    var mine := Filter(s.notes.Values(), OwnedBy(userId));
    var r := NotesOf(s, userId);
    ValuesMembers(s.notes);
    FilterMembers(s.notes.Values(), OwnedBy(userId));
    forall n: Note
      ensures n in r <==> n.userId == userId && n.id in s.notes.entries && s.notes.entries[n.id] == n
    {
      assert n in r <==> n in multiset(r);
      assert n in mine <==> n in multiset(mine);
      if n in mine {
        var k :| k in s.notes.entries && s.notes.entries[k] == n;
        assert k == n.id;
      }
    }
  }

  /** `getNote`: the note, only if it exists and the caller owns it. */
  function GetNote(s: Store, id: string, userId: string): (r: Option<Note>)
    ensures r.Some? <==> id in s.notes.entries && s.notes.entries[id].userId == userId
    ensures r.Some? ==> r.value == s.notes.entries[id]
  {
    match s.notes.Get(id)
    case Some(n) => if n.userId == userId then Some(n) else None
    case None => None
  }

  /** `createNote`: a new note stamped `now`, with a falsy folder reference turned into `null`. */
  function CreateNote(s: Store, input: NewNote, id: string, now: int): (r: (Note, Store))
    ensures r.0.id == id && r.0.userId == input.userId
    ensures r.0.title == input.title && r.0.content == input.content
    ensures r.0.createdAt == now && r.0.updatedAt == Some(now)
    ensures r.0.folderId.None? <==> Falsy(input.folderId)
    ensures r.0.folderId.Some? ==> r.0.folderId == input.folderId
    ensures r.1.notes.entries == s.notes.entries[id := r.0]
    ensures r.1.users == s.users && r.1.folders == s.folders
    ensures Valid(s) ==> Valid(r.1)
  {
    var note := Note(id, input.userId, input.title, input.content, OrNull(input.folderId), now, Some(now));
    (note, s.(notes := s.notes.Set(id, note)))
  }

  /**
    `{...existing, ...patch, updatedAt: now}` as the source writes it: every
    field the patch carries, the owner included, overwrites the stored one.
   */
  function PatchNote(n: Note, patch: NotePatch, now: int): Note
  {
    n.(userId := patch.userId.GetOr(n.userId),
       title := patch.title.GetOr(n.title),
       content := patch.content.GetOr(n.content),
       folderId := patch.folderId.GetOr(n.folderId),
       updatedAt := Some(now))
  }

  /**
    `updateNote` exactly as written. A patch that carries a `userId` moves the
    note to that user (see the Findings section of README.md).
   */
  function UpdateNoteAsWritten(s: Store, id: string, patch: NotePatch, userId: string, now: int): (r: (Option<Note>, Store))
    ensures r.0.Some? <==> GetNote(s, id, userId).Some?
    ensures r.0.None? ==> r.1 == s
    ensures r.0.Some? ==>
      var was := s.notes.entries[id];
      var n := r.0.value;
      && n.userId == patch.userId.GetOr(userId)
      && n.id == was.id && n.createdAt == was.createdAt && n.updatedAt == Some(now)
      && n.title == patch.title.GetOr(was.title)
      && n.content == patch.content.GetOr(was.content)
      && n.folderId == patch.folderId.GetOr(was.folderId)
      && r.1 == s.(notes := s.notes.Set(id, n))
  {
    match GetNote(s, id, userId)
    case None => (None, s)
    case Some(existing) =>
      var n := PatchNote(existing, patch, now);
      (Some(n), s.(notes := s.notes.Set(id, n)))
  }

  /**
    The owner's update with a foreign `userId` in the patch takes the note away
    from its owner and hands it to the other user.
   */
  lemma UpdateNoteAsWrittenTransfersOwnership(s: Store, id: string, patch: NotePatch, owner: string, other: string, now: int)
    requires GetNote(s, id, owner).Some?
    requires patch.userId == Some(other) && other != owner
    ensures var s' := UpdateNoteAsWritten(s, id, patch, owner, now).1;
      && GetNote(s', id, owner).None?
      && GetNote(s', id, other).Some?
  {
  }

  /** The source's `updateNote` as evidently intended: the owner never changes. */
  function UpdateNote(s: Store, id: string, patch: NotePatch, userId: string, now: int): (r: (Option<Note>, Store))
    ensures r.0.Some? <==> GetNote(s, id, userId).Some?
    ensures r.0.None? ==> r.1 == s
    ensures r.0.Some? ==>
      var was := s.notes.entries[id];
      var n := r.0.value;
      && n.userId == userId
      && n.id == was.id && n.createdAt == was.createdAt && n.updatedAt == Some(now)
      && n.title == patch.title.GetOr(was.title)
      && n.content == patch.content.GetOr(was.content)
      && n.folderId == patch.folderId.GetOr(was.folderId)
      && r.1 == s.(notes := s.notes.Set(id, n))
    ensures forall k :: k in r.1.notes.entries <==> k in s.notes.entries
    ensures forall k :: k in r.1.notes.entries ==> r.1.notes.entries[k].userId == s.notes.entries[k].userId
    ensures Valid(s) ==> Valid(r.1)
  {
    UpdateNoteAsWritten(s, id, patch.(userId := None), userId, now)
  }

  /** `deleteNote`: removes the note only when the caller owns it, and says whether it did. */
  function DeleteNote(s: Store, id: string, userId: string): (r: (bool, Store))
    ensures r.0 <==> GetNote(s, id, userId).Some?
    ensures !r.0 ==> r.1 == s
    ensures r.0 ==> r.1.notes.entries == s.notes.entries - {id}
    ensures r.1.users == s.users && r.1.folders == s.folders
    ensures Valid(s) ==> Valid(r.1)
  {
    if GetNote(s, id, userId).None? then (false, s)
    else (true, s.(notes := s.notes.Delete(id)))
  }

  /** A note created under a fresh id is readable by its owner and shows up in the owner's listing. */
  lemma CreateNoteListed(s: Store, input: NewNote, id: string, now: int)
    requires Valid(s) && id !in s.notes.entries
    ensures var r := CreateNote(s, input, id, now);
      && GetNote(r.1, id, input.userId) == Some(r.0)
      && r.0 in NotesOf(r.1, input.userId)
  {
    var r := CreateNote(s, input, id, now);
    NotesOfExactly(r.1, input.userId);
  }

  /** After a successful delete the note can be neither read nor listed by its owner. */
  lemma DeleteNoteGone(s: Store, id: string, userId: string)
    requires Valid(s)
    ensures var r := DeleteNote(s, id, userId);
      && GetNote(r.1, id, userId).None?
      && forall n :: n in NotesOf(r.1, userId) ==> n.id != id
  {
    var r := DeleteNote(s, id, userId);
    NotesOfExactly(r.1, userId);
  }

  // ------------------------------------------------- isolation between users

  /** Creating a note under a fresh id leaves every other user's listing as it was. */
  lemma CreateNoteInvisibleToOthers(s: Store, input: NewNote, id: string, now: int, other: string)
    requires Valid(s) && id !in s.notes.entries && input.userId != other
    ensures NotesOf(CreateNote(s, input, id, now).1, other) == NotesOf(s, other)
    ensures GetNote(CreateNote(s, input, id, now).1, id, other).None?
  {
    var r := CreateNote(s, input, id, now);
    ValuesSetNew(s.notes, id, r.0);
    FilterAppend(s.notes.Values(), [r.0], OwnedBy(other));
    assert Filter([r.0], OwnedBy(other)) == [];
    assert Filter(r.1.notes.Values(), OwnedBy(other)) == Filter(s.notes.Values(), OwnedBy(other));
  }

  /** An owner's update leaves every other user's listing as it was. */
  lemma UpdateNoteInvisibleToOthers(s: Store, id: string, patch: NotePatch, userId: string, now: int, other: string)
    requires Valid(s) && userId != other
    ensures NotesOf(UpdateNote(s, id, patch, userId, now).1, other) == NotesOf(s, other)
  {
    var r := UpdateNote(s, id, patch, userId, now);
    if r.0.Some? {
      var i := ValuesSetExisting(s.notes, id, r.0.value);
      FilterReplaceDropped(s.notes.Values(), i, r.0.value, OwnedBy(other));
    }
  }

  /** An owner's delete leaves every other user's listing as it was. */
  lemma DeleteNoteInvisibleToOthers(s: Store, id: string, userId: string, other: string)
    requires Valid(s) && userId != other
    ensures NotesOf(DeleteNote(s, id, userId).1, other) == NotesOf(s, other)
  {
    var r := DeleteNote(s, id, userId);
    if r.0 {
      var i := ValuesDelete(s.notes, id);
      FilterRemoveDropped(s.notes.Values(), i, OwnedBy(other));
    }
  }

  // -------------------------------------------------------------- folders

  function FolderOwnedBy(userId: string): Folder -> bool
  {
    (f: Folder) => f.userId == userId
  }

  /** `getFoldersByUserId`: the caller's folders in name order. */
  function FoldersOf(s: Store, userId: string): (r: seq<Folder>)
    ensures ByName(r)
    ensures multiset(r) == multiset(Filter(s.folders.Values(), FolderOwnedBy(userId)))
  {
    var mine := Filter(s.folders.Values(), FolderOwnedBy(userId));
    SortByNameSpec(mine);
    SortByName(mine)
  }

  /** The folder listing holds exactly the stored folders of the caller. */
  lemma FoldersOfExactly(s: Store, userId: string)
    requires Valid(s)
    ensures forall f :: (f in FoldersOf(s, userId)
        <==> f.userId == userId && f.id in s.folders.entries && s.folders.entries[f.id] == f)
  {
    var mine := Filter(s.folders.Values(), FolderOwnedBy(userId));
    var r := FoldersOf(s, userId);
    ValuesMembers(s.folders);
    FilterMembers(s.folders.Values(), FolderOwnedBy(userId));
    forall f: Folder
      ensures f in r <==> f.userId == userId && f.id in s.folders.entries && s.folders.entries[f.id] == f
    {
      assert f in r <==> f in multiset(r);
      assert f in mine <==> f in multiset(mine);
      if f in mine {
        var k :| k in s.folders.entries && s.folders.entries[k] == f;
        assert k == f.id;
      }
    }
  }

  /** `getFolder`: the folder, only if it exists and the caller owns it. */
  function GetFolder(s: Store, id: string, userId: string): (r: Option<Folder>)
    ensures r.Some? <==> id in s.folders.entries && s.folders.entries[id].userId == userId
    ensures r.Some? ==> r.value == s.folders.entries[id]
  {
    match s.folders.Get(id)
    case Some(f) => if f.userId == userId then Some(f) else None
    case None => None
  }

  /** `createFolder`: a new folder stamped `now`; nothing else changes. */
  function CreateFolder(s: Store, input: NewFolder, id: string, now: int): (r: (Folder, Store))
    ensures r.0 == Folder(id, input.userId, input.name, now)
    ensures r.1.folders.entries == s.folders.entries[id := r.0]
    ensures r.1.users == s.users && r.1.notes == s.notes
    ensures Valid(s) ==> Valid(r.1)
  {
    var folder := Folder(id, input.userId, input.name, now);
    (folder, s.(folders := s.folders.Set(id, folder)))
  }

  /**
    `updateFolder`: owner-scoped; overwrites the fields the patch carries
    (the owner included), keeps the creation time and never touches notes.
   */
  function UpdateFolder(s: Store, id: string, patch: FolderPatch, userId: string): (r: (Option<Folder>, Store))
    ensures r.0.Some? <==> GetFolder(s, id, userId).Some?
    ensures r.0.None? ==> r.1 == s
    ensures r.0.Some? ==>
      var was := s.folders.entries[id];
      var f := r.0.value;
      && f.id == was.id && f.createdAt == was.createdAt
      && f.name == patch.name.GetOr(was.name)
      && f.userId == patch.userId.GetOr(userId)
      && r.1.folders.entries == s.folders.entries[id := f]
    ensures r.1.users == s.users && r.1.notes == s.notes
    ensures Valid(s) ==> Valid(r.1)
  {
    match GetFolder(s, id, userId)
    case None => (None, s)
    case Some(existing) =>
      var f := existing.(userId := patch.userId.GetOr(existing.userId), name := patch.name.GetOr(existing.name));
      (Some(f), s.(folders := s.folders.Set(id, f)))
  }

  /** The notes a folder deletion by `userId` takes with it. */
  predicate InFolderOf(n: Note, folderId: string, userId: string)
  {
    n.folderId == Some(folderId) && n.userId == userId
  }

  function Cascaded(folderId: string, userId: string): Note -> bool
  {
    (n: Note) => InFolderOf(n, folderId, userId)
  }

  /** Deletes, one after the other, the notes stored under the ids of `doomed`. */
  function DeleteEach(m: JsMap<Note>, doomed: seq<Note>): (r: JsMap<Note>)
    ensures r.entries == m.entries - (set n | n in doomed :: n.id)
    ensures m.Valid() ==> r.Valid()
    decreases |doomed|
  {
    if |doomed| == 0 then m
    else
      var r := DeleteEach(m.Delete(doomed[0].id), doomed[1..]);
      assert (set n | n in doomed :: n.id) == {doomed[0].id} + (set n | n in doomed[1..] :: n.id);
      r
  }

  /**
    `deleteFolder`: owner-scoped; removes the caller's notes filed in the
    folder, then the folder itself, and says whether it did.
   */
  function DeleteFolder(s: Store, id: string, userId: string): (r: (bool, Store))
    ensures r.0 <==> GetFolder(s, id, userId).Some?
    ensures !r.0 ==> r.1 == s
    ensures r.0 ==> r.1.folders.entries == s.folders.entries - {id}
    ensures r.1.users == s.users
    ensures forall k :: k in r.1.notes.entries ==> k in s.notes.entries && r.1.notes.entries[k] == s.notes.entries[k]
    ensures Valid(s) ==> Valid(r.1)
  {
    if GetFolder(s, id, userId).None? then (false, s)
    else
      var doomed := Filter(s.notes.Values(), Cascaded(id, userId));
      (true, Store(s.users, DeleteEach(s.notes, doomed), s.folders.Delete(id)))
  }

  /**
    The cascade is exact: a successful folder deletion removes precisely the
    caller's notes filed in that folder. Other users' notes and notes in other
    folders stay.
   */
  lemma DeleteFolderCascade(s: Store, id: string, userId: string)
    requires Valid(s)
    ensures var r := DeleteFolder(s, id, userId);
      r.0 ==> forall k :: k in r.1.notes.entries
                <==> k in s.notes.entries && !InFolderOf(s.notes.entries[k], id, userId)
  {
    var r := DeleteFolder(s, id, userId);
    if r.0 {
      var doomed := Filter(s.notes.Values(), Cascaded(id, userId));
      FilterMembers(s.notes.Values(), Cascaded(id, userId));
      ValuesMembers(s.notes);
      forall k | k in s.notes.entries
        ensures k in (set n | n in doomed :: n.id) <==> InFolderOf(s.notes.entries[k], id, userId)
      {
        var n := s.notes.entries[k];
        if InFolderOf(n, id, userId) {
          assert n in s.notes.Values();
          assert n in doomed;
        }
        if k in (set n | n in doomed :: n.id) {
          var d :| d in doomed && d.id == k;
          assert d in s.notes.Values();
          var k' :| k' in s.notes.entries && s.notes.entries[k'] == d;
          assert k' == k;
        }
      }
    }
  }
}
