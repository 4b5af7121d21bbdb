# ArcherKiwi notes server, modelled in Dafny

ArcherKiwi is a note-taking application. Its server keeps users, notes and
folders in memory (`MemStorage`), exposes them over an owner-scoped HTTP API,
and offers AI analysis of uploaded images, PDFs, audio, YouTube links and note
text, falling back to canned Italian results when no Gemini API key is
configured. Its sidebar filters the notes by a search query and groups them by
folder.

This project models that core as pure Dafny functions over immutable data:

- `basics.dfy`: the `Option` type, standing for JavaScript's `undefined`/`null`.
- `seqs.dfy`: the order-preserving filter behind `Array.prototype.filter`.
- `text.dfy`: `toLowerCase`, `includes`, `trim` and the ordinal string order that stands in for `localeCompare`.
- `jsmaps.dfy`: a JavaScript `Map` with its insertion order, which `values()` follows.
- `entities.dfy`: users, notes, folders and the insert and patch shapes.
- `sorting.dfy`: the two listing orders as stable insertion sorts.
- `store.dfy`: `MemStorage`. This covers owner-scoped reads, the writes, the isolation between users and the folder cascade.
- `ai_services.dfy`: video-id extraction, guest mode, the normalisation of provider replies with `||` defaults, and the error shape.
- `routes.dfy`: the HTTP handlers. This covers the `x-user-id` identity, 401/400/404 mapping, the upload MIME filter and the AI input guards.
- `sidebar.dfy`: the search filter, the folder groups and the "new folder" guard.

Things the program takes from its environment are parameters:

- Random UUIDs become `id: string`.
- The clock becomes `now: int`, in milliseconds.
- The schema validator's verdict becomes `accepted: bool`.
- Whether a key is configured becomes `hasKey: bool`.
- The provider round trip becomes `reply: ProviderReply`, which is either `Failed` or the parsed fields.

The listing comparator `(a, b) => time(b) - time(a)` sorts the most recently
active note first, and the model follows that code.

## Model

| member | source | states |
|---|---|---|
| Store.EmptyStore | server/storage.ts:33-37 | the three maps start empty and the store invariant holds |
| Store.GetUser | server/storage.ts:40-42 | a user is found exactly when stored under that id, and it is that entry |
| Store.FindByUsername | server/storage.ts:44-48 | no result exactly when no listed user has the name; a result is the first listed user with that name |
| Store.GetUserByUsername | server/storage.ts:44-48 | no user exactly when no value of the users map has the username; a found user has that username and is one of the map's values |
| Store.GetUserByUsernameSpec | server/storage.ts:44-48 | over a valid store, a user is found exactly when some stored user has the username, and the result is a stored user with that name |
| Store.GetUserByUsernameFirst | server/storage.ts:44-48 | of several users sharing the username, the one found was inserted before all the others |
| Store.CreateUser | server/storage.ts:50-55 | the new user carries the given id and credentials, is stored under the id, and nothing else changes |
| Store.CreateUserAllowsDuplicateUsername | server/storage.ts:50-55 | creation does not check usernames: a second user with a taken username is stored beside the first |
| Store.NotesOf | server/storage.ts:58-66 | the listing is most-recent-first and is a permutation of the caller's stored notes |
| Store.NotesOfExactly | server/storage.ts:58-66 | a note is listed exactly when the caller owns it and it is the entry stored under its id |
| Store.GetNote | server/storage.ts:68-71 | a note is returned exactly when it exists and the caller owns it |
| Store.CreateNote | server/storage.ts:73-85 | the new note keeps the input fields, is stamped `now` twice, and gets folder `null` for an absent or empty folder id; it is stored under the id and nothing else changes |
| Store.CreateNoteListed | server/storage.ts:68-85 | a note created under a fresh id can be read back by its owner and shows up in the owner's listing |
| Store.UpdateNoteAsWritten | server/storage.ts:87-98 | as written: the patch, `userId` included, overwrites the owned note and the update time becomes `now`; an unowned or missing note gives no result and no change |
| Store.UpdateNoteAsWrittenTransfersOwnership | server/storage.ts:87-98 | a patch naming another user moves the note out of its owner's reach and into the other user's |
| Store.UpdateNote | server/storage.ts:87-98 | the corrected update: same as written except that no note ever changes owner, and the key set is unchanged |
| Store.DeleteNote | server/storage.ts:100-105 | deletion succeeds exactly when the caller owns the note, and then removes just that key |
| Store.DeleteNoteGone | server/storage.ts:100-105 | after a delete the note can be neither read nor listed by the caller |
| Store.CreateNoteInvisibleToOthers | server/storage.ts:58-85 | creating a note under a fresh id leaves every other user's listing identical and the note unreadable to them |
| Store.UpdateNoteInvisibleToOthers | server/storage.ts:58-98 | with the corrected update (not the source's, see Findings), an owner's update leaves every other user's listing identical |
| Store.DeleteNoteInvisibleToOthers | server/storage.ts:58-105 | an owner's delete leaves every other user's listing identical |
| Store.FoldersOf | server/storage.ts:108-112 | the folder listing is in name order and is a permutation of the caller's stored folders |
| Store.FoldersOfExactly | server/storage.ts:108-112 | a folder is listed exactly when the caller owns it and it is the entry stored under its id |
| Store.GetFolder | server/storage.ts:114-117 | a folder is returned exactly when it exists and the caller owns it |
| Store.CreateFolder | server/storage.ts:119-128 | the new folder has the given id, owner and name and is stamped `now`; nothing else changes |
| Store.UpdateFolder | server/storage.ts:130-140 | an owned folder takes the patch's fields and keeps its id and creation time; notes are untouched; otherwise nothing changes |
| Store.DeleteEach | server/storage.ts:151-153 | deleting a list of notes removes exactly their ids |
| Store.DeleteFolder | server/storage.ts:142-156 | deletion succeeds exactly when the caller owns the folder; it removes that folder, and surviving notes are unchanged |
| Store.DeleteFolderCascade | server/storage.ts:146-153 | a note survives a folder deletion exactly when it is not one of the caller's notes filed in that folder |
| Basics.OrNull | server/storage.ts:81 | `value … or null` turns exactly the falsy strings (absent, `null`, empty) into `null` and passes every other value |
| Sorting.SortByActivitySpec | server/storage.ts:61-65 | the activity sort yields most-recent-first order and a permutation of its input |
| Sorting.SortByActivityStable | server/storage.ts:61-65 | notes with equal activity times keep their relative order |
| Sorting.SortByNameSpec | server/storage.ts:111 | the name sort yields name order and a permutation of its input |
| Sorting.SortByNameStable | server/storage.ts:111 | folders with equal names keep their relative order |
| JsMaps.ValuesSetNew | server/storage.ts:53 | setting a new key appends its value to `values()` |
| JsMaps.ValuesSetExisting | server/storage.ts:96 | setting an existing key replaces its value in place in `values()` |
| JsMaps.ValuesDelete | server/storage.ts:104 | deleting a key removes exactly its value from `values()`, keeping the order of the rest |
| JsMaps.ValuesMembers | server/storage.ts:45 | `values()` lists exactly the stored values |
| Text.TrimSpec | client/src/components/app-sidebar.tsx:72 | `trim` cuts a slice whose cut-off sides are all whitespace, and the result neither starts nor ends with whitespace |
| Text.TrimEmptyIffAllSpace | client/src/components/app-sidebar.tsx:72 | the trimmed string is empty exactly when the input is all whitespace |
| Text.TrimIdempotent | client/src/components/app-sidebar.tsx:73 | trimming a trimmed string changes nothing |
| Text.IncludesSpec | client/src/components/app-sidebar.tsx:80-81 | `includes` holds exactly when the needle occurs at some position |
| Text.Lower | client/src/components/app-sidebar.tsx:80-81 | lower-casing keeps the length, maps each character, and leaves no upper-case letter |
| Text.NoLaterTotal | server/storage.ts:111 | any two names are comparable |
| Text.NoLaterTransitive | server/storage.ts:111 | the name order is transitive |
| Text.NoLaterAntisymmetric | server/storage.ts:111 | names that each sort no later than the other are equal |
| AiServices.FirstHit | server/lib/ai-services.ts:304-305 | the unanchored search returns the leftmost position where some alternative of the pattern matches |
| AiServices.ExtractVideoIdSpec | server/lib/ai-services.ts:303-307 | of `ExtractVideoId` (`extractYouTubeVideoId`): no id exactly when no marker is followed by an id character; an id is non-empty, made of id characters, occurs in the URL, and follows the leftmost matching marker |
| AiServices.ExtractAfterMarker | server/lib/ai-services.ts:303-307 | a URL that is a marker, an id and then a separator or nothing yields exactly that id |
| AiServices.MarkersExclusive | server/lib/ai-services.ts:304 | no two markers match at one position, so the alternation order never changes the result |
| AiServices.ShortLinkExample | server/lib/ai-services.ts:304 | `youtu.be/abc123` yields `abc123` |
| AiServices.WatchLinkExample | server/lib/ai-services.ts:304 | `youtube.com/watch?v=abc&t=1` yields `abc` |
| AiServices.Analyze | server/lib/ai-services.ts:25-300 | the result is tagged with the request's kind or as an error; it is an error exactly for an unusable link or a failed provider call with a key, and every error has the one fixed error shape |
| AiServices.Outcome | server/lib/ai-services.ts:25-300 | for an acceptable request, the error shape appears exactly when a key is set and the provider call failed |
| AiServices.GuestResult | server/lib/ai-services.ts:25-300 | the canned result of the guest branch carries the request kind's `type` tag |
| AiServices.ErrorResult | server/lib/ai-services.ts:25-300 | the `catch` result: tag `"error"`, no key points, confidence zero and a non-empty summary |
| AiServices.Normalize | server/lib/ai-services.ts:25-300 | the `||`-normalised reply carries the request kind's `type` tag; its field defaults are stated by `ParsedReplyNormalized` |
| AiServices.GuestModeResult | server/lib/ai-services.ts:25-300 | without a key, an acceptable request gets its kind's canned result, with two key points and a confidence in (0, 1], whatever the provider would say |
| AiServices.GuestYouTubeNamesVideo | server/lib/ai-services.ts:203-210 | the guest summary of a YouTube link contains the extracted video id |
| AiServices.ParsedReplyNormalized | server/lib/ai-services.ts:25-300 | each parsed field is kept unless falsy and replaced by the kind's default otherwise; an empty key-point list is kept; the tag is the request's kind |
| AiServices.ResultDistinguishesErrors | server/lib/ai-services.ts:25-300 | every result has a non-empty summary, and its confidence is zero exactly when it is the error shape |
| AiServices.InvalidLinkIsError | server/lib/ai-services.ts:196-201 | a link without a video id gives the error shape, with or without a key |
| AiServices.TypeNameInjective | server/lib/ai-services.ts:17-22 | distinct result types have distinct `type` strings |
| Routes.Authenticate | server/routes.ts:44-51 | `requireAuth`: no identity exactly when the `x-user-id` header is absent or empty; otherwise the identity is the header's value |
| Routes.NoIdentityNoEffect | server/routes.ts:44-51 | when the `x-user-id` header is absent or empty, every route answers 401 and leaves the store unchanged, whatever else the request carries |
| Routes.ListNotes | server/routes.ts:54-62 | an identified caller gets exactly their own listing |
| Routes.GetNoteRoute | server/routes.ts:64-75 | 404 exactly when the store does not return the note to this caller; otherwise 200 with the stored note |
| Routes.CreateNoteRoute | server/routes.ts:77-86 | a rejected body gives 400 and no change; an accepted one answers 200 with the note `createNote` stores for the header's user, carrying the body's title and content and stamped `now`, and the store becomes `createNote`'s result, so the note is readable by its owner afterwards |
| Routes.BodyOwnerIgnored | server/routes.ts:79 | the owner named in a creation body makes no difference to the outcome |
| Routes.UpdateNoteRoute | server/routes.ts:88-100 | as written: a rejected body gives 400 and no change; otherwise 404 and no change exactly when the caller does not own the note, else 200 with the result of the as-written update, whose owner is the patch's `userId` when it carries one and the caller otherwise, with the patched title and content, and the store becomes that update's result |
| Routes.UpdateNoteRouteHandsNoteAway | server/routes.ts:88-100 | an owner's `PUT` whose body names another user answers 200, and the note is then out of the owner's reach and readable by the other user |
| Routes.OwnerPreservingUpdateNoteRoute | server/routes.ts:88-100 | the corrected handler (not the source's, see Findings): the same status mapping, and on 200 the note stays the caller's with the patched title and content, and the store becomes the corrected update's result |
| Routes.DeleteNoteRoute | server/routes.ts:102-113 | 404 and no change exactly when the caller does not own the note; otherwise `{success: true}`, and the store becomes `deleteNote`'s result: exactly that note is removed and users and folders are untouched |
| Routes.ListFolders | server/routes.ts:116-124 | an identified caller gets exactly their own folder listing |
| Routes.CreateFolderRoute | server/routes.ts:126-135 | a rejected body gives 400 and no change; an accepted one answers 200 with the folder `createFolder` stores: the given id, the header's user as owner, the body's name and `now`; the store becomes `createFolder`'s result, with notes and users untouched |
| Routes.DeleteFolderRoute | server/routes.ts:137-148 | 404 and no change exactly when the caller does not own the folder; otherwise success and the cascading delete |
| Routes.AnalyzeUploadRoute | server/routes.ts:151-203 | a request without a file gets its route's 400 message; a file of a disallowed type is handed to the error handler; otherwise 200 with the analysis |
| Routes.AnalyzeYouTubeRoute | server/routes.ts:205-218 | a missing or empty `url` gets 400; otherwise 200 with the link's analysis |
| Routes.SummarizeNoteRoute | server/routes.ts:220-233 | a missing or empty `content` gets 400; otherwise 200 with the note's analysis |
| Routes.MissingInputNoAnalysis | server/routes.ts:153-154 | a missing AI input gets 400 whatever the key and the provider would do |
| Routes.AllowedMimesAreMedia | server/routes.ts:25-31 | of the upload filter `AllowedMime`: every allowed upload type is an image type, `application/pdf` or an audio type |
| Routes.OtherMediaRefused | server/routes.ts:25-35 | the filter `AllowedMime` admits only the listed subtypes: `image/svg+xml`, `audio/mp4` and `video/mp4` are refused, while both `audio/mp3` and `audio/mpeg` pass |
| Sidebar.MatchesSpec | client/src/components/app-sidebar.tsx:79-82 | a note matches exactly when the lower-cased query occurs in its lower-cased title or content |
| Sidebar.FilterNotesSpec | client/src/components/app-sidebar.tsx:79-82 | of `FilterNotes` (`filteredNotes`): the filter keeps exactly the matching notes, as an order-preserving subsequence |
| Sidebar.EmptyQueryKeepsAll | client/src/components/app-sidebar.tsx:79-82 | an empty query keeps every note, in order |
| Sidebar.NotesInFolderSpec | client/src/components/app-sidebar.tsx:84-85 | of `NotesInFolder` (`notesInFolder`): a folder group holds exactly the matching notes of that folder, in filtered order, and equals searching within the folder's notes |
| Sidebar.AllNotesGroupIsUnfiled | client/src/components/app-sidebar.tsx:150 | the "All Notes" group shows only the matching notes that are in no folder |
| Sidebar.GroupsDisjoint | client/src/components/app-sidebar.tsx:180-188 | groups of different folders share no note |
| Sidebar.HandleCreateFolder | client/src/components/app-sidebar.tsx:71-77 | a name is emitted exactly when it is not all whitespace; the dialog is then cleared and closed, and otherwise left as it was |
| Sidebar.EmittedNameIsTrimmed | client/src/components/app-sidebar.tsx:71-77 | an emitted name is non-empty, neither starts nor ends with whitespace, and is the typed name with whitespace cut from its ends |

## Left out

- I/O is not modelled: reading uploaded files, deleting them after analysis (`fs.unlink`), and writing multer's upload directory.
- The Gemini calls, prompts and `JSON.parse` are not modelled either. Their outcome is the `reply` parameter.
- Express itself is not modelled: routing, JSON body parsing and its 10 MB limit, and multer's 50 MB size limit.
- The schema validator is not modelled. Its verdict is the `accepted` parameter, and an accepted body is taken as the fields the model names.
- The handlers' 500 branches are not modelled. The in-memory store never throws, so they cannot be reached.
- A provider reply whose fields have the wrong JSON type (a string `keyPoints`, say) is not modelled. Only absent, `null` and well-typed fields are.
- A numeric `NaN` confidence is not modelled, because confidences are reals.
- A non-string `url` or `content` in the AI request bodies is not modelled. Those fields are optional strings here.
- `localeCompare` is modelled as ordinal order on characters, because locale collation is not modelled.
- `toLowerCase` is modelled for ASCII letters only.

- Routes.AnalyzeUploadRoute: the error handler that receives a disallowed upload is not part of this model, so the response for it is only `Forwarded`.
- The sidebar's server-supplied `folderId: null` is not modelled. The sidebar's own type allows only a string or `undefined` (`None`).
- `updateFolder` has no HTTP route. `Store.UpdateFolder` models it as written, and it can reassign the folder's owner just like the note update.
- Firebase, the React UI beyond the sidebar's logic, and the client's API calls are not part of this model.

## Findings

| source | as written | input that shows it | evidently intended | confidence | as-written member | corrected member |
|---|---|---|---|---|---|---|
| server/storage.ts:87-98 | `PUT /api/notes/:id` validates the body with the partial note schema, which still admits `userId`. `updateNote` then spreads the patch over the stored note, so the note can be handed to another user. | `PUT /api/notes/n1` with `x-user-id: alice` on alice's note and body `{"userId":"bob"}`: the note leaves alice's listing and appears in bob's | a note keeps its owner; ownership comes only from the header | medium, not executed | Routes.UpdateNoteRouteHandsNoteAway | Routes.OwnerPreservingUpdateNoteRoute |
