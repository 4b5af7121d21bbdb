/**
  The HTTP handlers, as functions from what a request carries to the response
  and the store after it. The identity is the `x-user-id` header, trusted as
  is. Schema validation of request bodies happens in code that is not part of
  this model, so its verdict is the `accepted` parameter; what it returns on
  acceptance is the body with its known fields. No store operation fails, so
  the handlers' 500 branches are never taken.
 */
module Routes {
  import opened Basics
  import opened Entities
  import opened Store
  import AiServices

  /** The JSON body of a response. */
  datatype Body =
    | NoteBody(note: Note)
    | NoteListBody(notes: seq<Note>)
    | FolderBody(folder: Folder)
    | FolderListBody(folders: seq<Folder>)
    | SuccessBody
    | AnalysisBody(result: AiServices.AnalysisResult)
    | ErrorBody(error: string)

  /**
    A response a handler sends, or `Forwarded`: the upload middleware handed
    an error on to the application's error handler, which is not part of this
    model.
   */
  datatype Response = Reply(status: int, body: Body) | Forwarded

  /** `requireAuth`: the header's value, when it is present and not empty. */
  function Authenticate(header: Option<string>): (r: Option<string>)
    ensures r.None? <==> header.None? || header.value == ""
    ensures r.Some? ==> r == header && r.value != ""
  {
    OrNull(header)
  }

  const Unauthorized: Response := Reply(401, ErrorBody("Authentication required"))

  /** The body of a note creation as the client sent it; it may name an owner of its own. */
  datatype NoteDraft = NoteDraft(userId: Option<string>, title: string, content: string, folderId: Option<string>)

  /** The body of a folder creation as the client sent it. */
  datatype FolderDraft = FolderDraft(userId: Option<string>, name: string)

  // ----------------------------------------------------------------- notes

  /** `GET /api/notes`. */
  function ListNotes(header: Option<string>, s: Store): (r: Response)
    ensures Authenticate(header).None? ==> r == Unauthorized
    ensures Authenticate(header).Some? ==> r == Reply(200, NoteListBody(NotesOf(s, header.value)))
  {
    match Authenticate(header)
    case None => Unauthorized
    case Some(u) => Reply(200, NoteListBody(NotesOf(s, u)))
  }

  /** `GET /api/notes/:id`. */
  function GetNoteRoute(header: Option<string>, id: string, s: Store): (r: Response)
    ensures Authenticate(header).None? ==> r == Unauthorized
    ensures Authenticate(header).Some? ==>
      r.Reply? && (r.status == 404 <==> GetNote(s, id, header.value).None?)
    ensures Authenticate(header).Some? && GetNote(s, id, header.value).Some? ==>
      r == Reply(200, NoteBody(s.notes.entries[id]))
  {
    match Authenticate(header)
    case None => Unauthorized
    case Some(u) =>
      match GetNote(s, id, u)
      case None => Reply(404, ErrorBody("Note not found"))
      case Some(n) => Reply(200, NoteBody(n))
  }

  /**
    `POST /api/notes`: the body is validated with the header's identity spread
    over it last, so the note always belongs to the caller.
   */
  function CreateNoteRoute(header: Option<string>, body: NoteDraft, accepted: bool, s: Store, id: string, now: int): (r: (Response, Store))
    ensures Authenticate(header).None? ==> r == (Unauthorized, s)
    ensures Authenticate(header).Some? && !accepted ==> r == (Reply(400, ErrorBody("Invalid note data")), s)
    ensures Authenticate(header).Some? && accepted ==>
      var created := CreateNote(s, NewNote(header.value, body.title, body.content, body.folderId), id, now);
      && r == (Reply(200, NoteBody(created.0)), created.1)
      && r.0.body.note.userId == header.value
      && r.0.body.note.title == body.title && r.0.body.note.content == body.content
      && r.0.body.note.createdAt == now
      && GetNote(r.1, id, header.value) == Some(r.0.body.note)
  {
    match Authenticate(header)
    case None => (Unauthorized, s)
    case Some(u) =>
      if !accepted then (Reply(400, ErrorBody("Invalid note data")), s)
      else
        var created := CreateNote(s, NewNote(u, body.title, body.content, body.folderId), id, now);
        (Reply(200, NoteBody(created.0)), created.1)
  }

  /**
    `PUT /api/notes/:id` as written: the partial note schema lets a `userId`
    through, and the store's update spreads it over the note (see the Findings
    section of README.md).
   */
  function UpdateNoteRoute(header: Option<string>, id: string, patch: NotePatch, accepted: bool, s: Store, now: int): (r: (Response, Store))
    ensures Authenticate(header).None? ==> r == (Unauthorized, s)
    ensures Authenticate(header).Some? && !accepted ==> r == (Reply(400, ErrorBody("Invalid note data")), s)
    ensures Authenticate(header).Some? && accepted ==>
      && r.0.Reply? && (r.0.status == 404 <==> GetNote(s, id, header.value).None?)
      && (r.0.status == 404 ==> r.1 == s)
      && (r.0.status != 404 ==>
            var updated := UpdateNoteAsWritten(s, id, patch, header.value, now);
            && r == (Reply(200, NoteBody(updated.0.value)), updated.1)
            && r.0.body.note.userId == patch.userId.GetOr(header.value)
            && r.0.body.note.title == patch.title.GetOr(s.notes.entries[id].title)
            && r.0.body.note.content == patch.content.GetOr(s.notes.entries[id].content)
            && r.0.body.note.updatedAt == Some(now)
            && GetNote(r.1, id, r.0.body.note.userId) == Some(r.0.body.note))
  {
    match Authenticate(header)
    case None => (Unauthorized, s)
    case Some(u) =>
      if !accepted then (Reply(400, ErrorBody("Invalid note data")), s)
      else
        var updated := UpdateNoteAsWritten(s, id, patch, u, now);
        match updated.0
        case None => (Reply(404, ErrorBody("Note not found")), s)
        case Some(n) => (Reply(200, NoteBody(n)), updated.1)
  }

  /**
    `PUT /api/notes/:id` as evidently intended: the same handler over the
    owner-preserving update, so the note stays the caller's.
   */
  function OwnerPreservingUpdateNoteRoute(header: Option<string>, id: string, patch: NotePatch, accepted: bool, s: Store, now: int): (r: (Response, Store))
    ensures Authenticate(header).None? ==> r == (Unauthorized, s)
    ensures Authenticate(header).Some? && !accepted ==> r == (Reply(400, ErrorBody("Invalid note data")), s)
    ensures Authenticate(header).Some? && accepted ==>
      && r.0.Reply? && (r.0.status == 404 <==> GetNote(s, id, header.value).None?)
      && (r.0.status == 404 ==> r.1 == s)
      && (r.0.status != 404 ==>
            var updated := UpdateNote(s, id, patch, header.value, now);
            && r == (Reply(200, NoteBody(updated.0.value)), updated.1)
            && r.0.body.note.userId == header.value
            && r.0.body.note.title == patch.title.GetOr(s.notes.entries[id].title)
            && r.0.body.note.content == patch.content.GetOr(s.notes.entries[id].content)
            && GetNote(r.1, id, header.value) == Some(r.0.body.note))
  {
    match Authenticate(header)
    case None => (Unauthorized, s)
    case Some(u) =>
      if !accepted then (Reply(400, ErrorBody("Invalid note data")), s)
      else
        var updated := UpdateNote(s, id, patch, u, now);
        match updated.0
        case None => (Reply(404, ErrorBody("Note not found")), s)
        case Some(n) => (Reply(200, NoteBody(n)), updated.1)
  }

  /**
    The owner of a note sends `PUT` with another user's id in the body: the
    handler answers 200, and the note leaves the owner's reach for the other
    user's.
   */
  lemma UpdateNoteRouteHandsNoteAway(owner: string, other: string, id: string, patch: NotePatch, s: Store, now: int)
    requires owner != "" && other != owner
    requires GetNote(s, id, owner).Some? && patch.userId == Some(other)
    ensures var r := UpdateNoteRoute(Some(owner), id, patch, true, s, now);
      && r.0.Reply? && r.0.status == 200
      && GetNote(r.1, id, owner).None?
      && GetNote(r.1, id, other).Some?
  {
    UpdateNoteAsWrittenTransfersOwnership(s, id, patch, owner, other, now);
  }

  /** `DELETE /api/notes/:id`. */
  function DeleteNoteRoute(header: Option<string>, id: string, s: Store): (r: (Response, Store))
    ensures Authenticate(header).None? ==> r == (Unauthorized, s)
    ensures Authenticate(header).Some? ==>
      && r.0.Reply? && (r.0.status == 404 <==> GetNote(s, id, header.value).None?)
      && (r.0.status == 404 ==> r.1 == s)
      && (r.0.status != 404 ==>
            && r.0 == Reply(200, SuccessBody)
            && r.1 == DeleteNote(s, id, header.value).1
            && r.1.notes.entries == s.notes.entries - {id}
            && r.1.users == s.users && r.1.folders == s.folders)
  {
    match Authenticate(header)
    case None => (Unauthorized, s)
    case Some(u) =>
      var deleted := DeleteNote(s, id, u);
      if !deleted.0 then (Reply(404, ErrorBody("Note not found")), s)
      else (Reply(200, SuccessBody), deleted.1)
  }

  // --------------------------------------------------------------- folders

  /** `GET /api/folders`. */
  function ListFolders(header: Option<string>, s: Store): (r: Response)
    ensures Authenticate(header).None? ==> r == Unauthorized
    ensures Authenticate(header).Some? ==> r == Reply(200, FolderListBody(FoldersOf(s, header.value)))
  {
    match Authenticate(header)
    case None => Unauthorized
    case Some(u) => Reply(200, FolderListBody(FoldersOf(s, u)))
  }

  /** `POST /api/folders`: like note creation, the caller always owns the new folder. */
  function CreateFolderRoute(header: Option<string>, body: FolderDraft, accepted: bool, s: Store, id: string, now: int): (r: (Response, Store))
    ensures Authenticate(header).None? ==> r == (Unauthorized, s)
    ensures Authenticate(header).Some? && !accepted ==> r == (Reply(400, ErrorBody("Invalid folder data")), s)
    ensures Authenticate(header).Some? && accepted ==>
      var created := CreateFolder(s, NewFolder(header.value, body.name), id, now);
      && r == (Reply(200, FolderBody(created.0)), created.1)
      && r.0.body.folder == Folder(id, header.value, body.name, now)
      && r.1.notes == s.notes && r.1.users == s.users
      && GetFolder(r.1, id, header.value) == Some(r.0.body.folder)
  {
    match Authenticate(header)
    case None => (Unauthorized, s)
    case Some(u) =>
      if !accepted then (Reply(400, ErrorBody("Invalid folder data")), s)
      else
        var created := CreateFolder(s, NewFolder(u, body.name), id, now);
        (Reply(200, FolderBody(created.0)), created.1)
  }

  /** `DELETE /api/folders/:id`. */
  function DeleteFolderRoute(header: Option<string>, id: string, s: Store): (r: (Response, Store))
    ensures Authenticate(header).None? ==> r == (Unauthorized, s)
    ensures Authenticate(header).Some? ==>
      && r.0.Reply? && (r.0.status == 404 <==> GetFolder(s, id, header.value).None?)
      && (r.0.status == 404 ==> r.1 == s)
      && (r.0.status != 404 ==> r.0 == Reply(200, SuccessBody) && r.1 == DeleteFolder(s, id, header.value).1)
  {
    match Authenticate(header)
    case None => (Unauthorized, s)
    case Some(u) =>
      var deleted := DeleteFolder(s, id, u);
      if !deleted.0 then (Reply(404, ErrorBody("Folder not found")), s)
      else (Reply(200, SuccessBody), deleted.1)
  }

  // ----------------------------------------------------------- AI analysis

  /** The MIME types the upload filter lets through. */
  const AllowedMimes: seq<string> := [
    "image/jpeg", "image/png", "image/gif", "image/webp",
    "application/pdf",
    "audio/wav", "audio/mp3", "audio/mpeg", "audio/ogg"]

  /** The upload filter: `allowedMimes.includes(file.mimetype)`. */
  predicate AllowedMime(mime: string)
  {
    mime in AllowedMimes
  }

  /** The filter admits only the listed subtypes: other images, audio and video are refused. */
  lemma OtherMediaRefused()
    ensures !AllowedMime("image/svg+xml") && !AllowedMime("image/bmp")
    ensures !AllowedMime("audio/mp4") && !AllowedMime("audio/webm")
    ensures !AllowedMime("video/mp4") && !AllowedMime("text/plain")
    ensures AllowedMime("audio/mp3") && AllowedMime("audio/mpeg")
  {
  }

  /** What the upload middleware found in a multipart request. */
  datatype Upload = NoFile | File(mimetype: string)

  /** The three file kinds, and the message for a request that carries no file. */
  datatype FileKind = ImageUpload | PdfUpload | AudioUpload

  function FileRequest(k: FileKind): AiServices.Request
  {
    match k
    case ImageUpload => AiServices.ImageFile
    case PdfUpload => AiServices.PdfFile
    case AudioUpload => AiServices.AudioFile
  }

  function MissingFileMessage(k: FileKind): string
  {
    match k
    case ImageUpload => "No image file provided"
    case PdfUpload => "No PDF file provided"
    case AudioUpload => "No audio file provided"
  }

  /**
    `POST /api/ai/analyze-image`, `-pdf` and `-audio`: identity first, then the
    upload filter, then the check that a file arrived, then the analysis.
   */
  function AnalyzeUploadRoute(header: Option<string>, k: FileKind, upload: Upload, hasKey: bool, reply: AiServices.ProviderReply): (r: Response)
    ensures Authenticate(header).None? ==> r == Unauthorized
    ensures Authenticate(header).Some? && upload.NoFile? ==> r == Reply(400, ErrorBody(MissingFileMessage(k)))
    ensures Authenticate(header).Some? && upload.File? ==>
      (r.Forwarded? <==> !AllowedMime(upload.mimetype))
    ensures r.Reply? && r.status != 401 && r.status != 400 ==>
      r == Reply(200, AnalysisBody(AiServices.Analyze(FileRequest(k), hasKey, reply)))
  {
    match Authenticate(header)
    case None => Unauthorized
    case Some(_) =>
      match upload
      case File(mime) =>
        if !AllowedMime(mime) then Forwarded
        else Reply(200, AnalysisBody(AiServices.Analyze(FileRequest(k), hasKey, reply)))
      case NoFile => Reply(400, ErrorBody(MissingFileMessage(k)))
  }

  /** `POST /api/ai/analyze-youtube`: a missing or empty `url` is rejected before any analysis. */
  function AnalyzeYouTubeRoute(header: Option<string>, url: Option<string>, hasKey: bool, reply: AiServices.ProviderReply): (r: Response)
    ensures Authenticate(header).None? ==> r == Unauthorized
    ensures Authenticate(header).Some? && Falsy(url) ==> r == Reply(400, ErrorBody("No YouTube URL provided"))
    ensures Authenticate(header).Some? && !Falsy(url) ==>
      r == Reply(200, AnalysisBody(AiServices.Analyze(AiServices.YouTubeLink(url.value), hasKey, reply)))
  {
    match Authenticate(header)
    case None => Unauthorized
    case Some(_) =>
      if Falsy(url) then Reply(400, ErrorBody("No YouTube URL provided"))
      else Reply(200, AnalysisBody(AiServices.Analyze(AiServices.YouTubeLink(url.value), hasKey, reply)))
  }

  /** `POST /api/ai/summarize-note`: a missing or empty `content` is rejected before any analysis. */
  function SummarizeNoteRoute(header: Option<string>, content: Option<string>, hasKey: bool, reply: AiServices.ProviderReply): (r: Response)
    ensures Authenticate(header).None? ==> r == Unauthorized
    ensures Authenticate(header).Some? && Falsy(content) ==> r == Reply(400, ErrorBody("No content provided"))
    ensures Authenticate(header).Some? && !Falsy(content) ==>
      r == Reply(200, AnalysisBody(AiServices.Analyze(AiServices.NoteText(content.value), hasKey, reply)))
  {
    match Authenticate(header)
    case None => Unauthorized
    case Some(_) =>
      if Falsy(content) then Reply(400, ErrorBody("No content provided"))
      else Reply(200, AnalysisBody(AiServices.Analyze(AiServices.NoteText(content.value), hasKey, reply)))
  }

  // ------------------------------------------------------------ properties

  /**
    A request without an identity gets 401 from every route, and nothing else
    it carries (body, store, key, provider reply) makes any difference.
   */
  lemma NoIdentityNoEffect(header: Option<string>, s: Store, id: string, now: int, hasKey: bool, reply: AiServices.ProviderReply,
                           draft: NoteDraft, patch: NotePatch, fdraft: FolderDraft, accepted: bool, k: FileKind, upload: Upload, field: Option<string>)
    requires Falsy(header)
    ensures ListNotes(header, s) == Unauthorized
    ensures GetNoteRoute(header, id, s) == Unauthorized
    ensures CreateNoteRoute(header, draft, accepted, s, id, now) == (Unauthorized, s)
    ensures UpdateNoteRoute(header, id, patch, accepted, s, now) == (Unauthorized, s)
    ensures OwnerPreservingUpdateNoteRoute(header, id, patch, accepted, s, now) == (Unauthorized, s)
    ensures DeleteNoteRoute(header, id, s) == (Unauthorized, s)
    ensures ListFolders(header, s) == Unauthorized
    ensures CreateFolderRoute(header, fdraft, accepted, s, id, now) == (Unauthorized, s)
    ensures DeleteFolderRoute(header, id, s) == (Unauthorized, s)
    ensures AnalyzeUploadRoute(header, k, upload, hasKey, reply) == Unauthorized
    ensures AnalyzeYouTubeRoute(header, field, hasKey, reply) == Unauthorized
    ensures SummarizeNoteRoute(header, field, hasKey, reply) == Unauthorized
  {
  }

  /** The owner named in a creation body is ignored: two bodies differing only there create the same note. */
  lemma BodyOwnerIgnored(header: Option<string>, draft: NoteDraft, claimed: Option<string>, accepted: bool, s: Store, id: string, now: int)
    ensures CreateNoteRoute(header, draft, accepted, s, id, now)
         == CreateNoteRoute(header, draft.(userId := claimed), accepted, s, id, now)
  {
  }

  /**
    An AI route that is missing its input answers 400 whatever the key and the
    provider would have done: no analysis takes place.
   */
  lemma MissingInputNoAnalysis(header: Option<string>, k: FileKind, field: Option<string>,
                               hasKey1: bool, reply1: AiServices.ProviderReply, hasKey2: bool, reply2: AiServices.ProviderReply)
    requires Authenticate(header).Some? && Falsy(field)
    ensures AnalyzeUploadRoute(header, k, NoFile, hasKey1, reply1).status == 400
    ensures AnalyzeUploadRoute(header, k, NoFile, hasKey1, reply1) == AnalyzeUploadRoute(header, k, NoFile, hasKey2, reply2)
    ensures AnalyzeYouTubeRoute(header, field, hasKey1, reply1).status == 400
    ensures AnalyzeYouTubeRoute(header, field, hasKey1, reply1) == AnalyzeYouTubeRoute(header, field, hasKey2, reply2)
    ensures SummarizeNoteRoute(header, field, hasKey1, reply1).status == 400
    ensures SummarizeNoteRoute(header, field, hasKey1, reply1) == SummarizeNoteRoute(header, field, hasKey2, reply2)
  {
  }

  /** Every allowed upload is an image, a PDF or an audio file, by its MIME type's prefix. */
  lemma AllowedMimesAreMedia(mime: string)
    requires AllowedMime(mime)
    ensures (|mime| > 6 && mime[..6] == "image/") || mime == "application/pdf" || (|mime| > 6 && mime[..6] == "audio/")
  {
  }
}
