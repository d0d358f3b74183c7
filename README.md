# Notes lifecycle

A model of the note handlers of an account-based web backend (`src/endpoints/notes.rs`).
A note is a row of `tblNotes` (key, owning account, public url, title) plus a
Markdown file holding its content. The handlers keep the two in step:

- `fetch_protocols` lists every emergency protocol;
- `fetch_notes` lists an account's notes;
- `add_note` writes the upload to `<static_file_directory>/<uuid>.md`, then
  inserts a row whose url is `static/<uuid>.md`;
- `update_note_content` and `update_note_title` remove the file at
  `./<url>` and write the new content to the same path (the title variant
  then updates the title);
- `remove_note` removes the file at `./<url>`, then deletes the row.

Each step that can fail returns at once with `NotFound` or `InternalError`.
Nothing is rolled back, so a failure part-way leaves an orphan file (a file
no row leads to) or a dangling row (a row whose url leads to no file).

The stores are one value, `NoteStore.Db`: the set of account ids, the map
from note key to row, the AUTO_INCREMENT counter of `tblNotes`, and a map
from each file to its bytes. A file is keyed by the path that names it,
resolved (`NotePaths.Resolve`): whether it is absolute, and its steps with
empty and `.` steps dropped. So `static/x.md`, `./static/x.md` and
`static//x.md` are one file. Every query or file operation that can fail takes
a flag that makes it fail. The generated UUID name and the
`static_file_directory` setting (absent or present) are parameters.

- `Notes` gives each handler as a function from the stores before the
  request to the answer and the stores after it. The contracts state every
  early return and what each one leaves behind.
- `NotesEndpoints.NoteService` is a class holding the stores. Its handler
  methods run the steps one at a time against that state. Each is proved
  to end in exactly the answer and state the matching `Notes` function gives.
- `NoteLifecycle` relates requests to each other. It covers what a later
  `fetch_notes` lists, the create-then-retitle round trip, and the
  consequences of the path mismatch.

The path mismatch works like this. `add_note` writes under the configured
directory, while update and delete act on `./` followed by the stored url,
that is on `./static/<uuid>.md`. The two paths name the same file exactly
when the configured directory names `./static`
(`NotePaths.PathsAgreeIffServedDirectory`). `static`, `./static` and
`./static/` all do (`NotePaths.ServedDirectorySpellings`). An absolute path
such as `/static` does not, and neither does a subdirectory such as
`./static/notes` (`NotePaths.OtherDirectories`). With such a directory the
new note's url leads to no file, so its update and its removal fail with an
internal error (`NoteLifecycle.UploadOutsideServedDirectory`).

The code returns an empty list, successfully, for an existing account that
has no notes. Only a failing query is answered with not-found. The model
follows the code here (`Notes.FetchNotes`, `NoteLifecycle.ShiftLogScenario`).

## Model

| member | source | states |
|---|---|---|
| `NotePaths.IsSimpleUuid` | src/endpoints/notes.rs:112-114 | a generated name is 32 lower-case hex digits, so it is a single path step other than empty or `.` |
| `NotePaths.NoteFilePath` | src/endpoints/notes.rs:125 | the upload path is the configured directory, a slash, then the name with `.md` |
| `NotePaths.NoteFileUrl` | src/endpoints/notes.rs:126 | the stored url is `static/` plus the name plus `.md`, ten characters longer than the name |
| `NotePaths.NameOfUrl` | src/endpoints/notes.rs:126 | any url it accepts is exactly the url built from the name it returns |
| `NotePaths.NameOfUrlRoundTrip` | src/endpoints/notes.rs:126 | every stored url parses back to the name it was built from |
| `NotePaths.UrlToPath` | src/endpoints/notes.rs:173 | the path update and delete use is `./` followed by the stored url |
| `NotePaths.NoteFileUrlInjective` | src/endpoints/notes.rs:112-126 | two urls are equal if and only if their names are, so two notes never share a url |
| `NotePaths.ResolveNoteFilePath` | src/endpoints/notes.rs:125 | the upload file is the configured directory's steps followed by `<name>.md`, absolute iff the directory is |
| `NotePaths.ResolveUrlPath` | src/endpoints/notes.rs:173 | the file a stored url leads to is `static/<name>.md`, relative to the working directory |
| `NotePaths.PathsAgreeIffServedDirectory` | src/endpoints/notes.rs:173-177 | the file add writes is the file update and delete touch if and only if the configured directory names `./static` |
| `NotePaths.NoteFileNamesAgree` | src/endpoints/notes.rs:125-126 | an upload file is the file of a stored url only when both come from the same name |
| `NotePaths.ResolveDotPrefix` | src/endpoints/notes.rs:173 | a leading `./` leaves the named file unchanged, relative |
| `NotePaths.ResolveTrailingSlash` | src/endpoints/notes.rs:125 | a trailing slash on a non-empty directory leaves the named directory unchanged |
| `NotePaths.ServedDirectorySpellings` | src/endpoints/notes.rs:118-125 | `static` names the served directory, and a leading `./` or trailing `/` keeps it so |
| `NotePaths.OtherDirectories` | src/endpoints/notes.rs:118-125 | an absolute directory, or a subdirectory of the served one, is not the served directory |
| `NoteStore.Valid` | src/endpoints/notes.rs:133-141 | the AUTO_INCREMENT rule: every key lies below the counter, which starts at 1, so the next key is free |
| `NoteStore.SelectByAccountSelects` | src/endpoints/notes.rs:74-78 | the scan of a key range lists only the account's notes, each as stored, in ascending key order, none missing |
| `NoteStore.AccountNotes` | src/endpoints/notes.rs:74-81 | the account query returns every note of the account exactly once, as stored, in key order |
| `Notes.FetchProtocols` | src/endpoints/notes.rs:34-48 | a failing query is an internal error, an empty table is not-found, otherwise the rows unchanged |
| `Notes.FetchNotes` | src/endpoints/notes.rs:63-86 | account looked up first; every failure is not-found; success gives one projected entry per owned note; no notes gives an empty list |
| `Notes.AddNote` | src/endpoints/notes.rs:102-144 | unknown account or missing setting: nothing written; a failed write writes nothing; a failed insert leaves the file; success adds one fresh row carrying the url from the same name; keeps the AUTO_INCREMENT rule and keeps every stored url of the `static/<uuid>.md` shape |
| `Notes.UpdateNoteContent` | src/endpoints/notes.rs:161-190 | unknown note or missing file: nothing changes; a failed write after the removal leaves the file gone; success rewrites the same path; rows never change |
| `Notes.UpdateNoteTitle` | src/endpoints/notes.rs:207-243 | as the content update, then the title: a failed title update keeps the new content with the old title; no url or owner ever changes |
| `Notes.RemoveNote` | src/endpoints/notes.rs:258-287 | unknown note: nothing changes; failed removal keeps the row; failed delete leaves the row without its file; success removes that row and that file only |
| `NotesEndpoints.NoteService.AccountExists` | src/endpoints/notes.rs:104-110 | the account is found iff the query does not fail and the account exists |
| `NotesEndpoints.NoteService.FetchNote` | src/endpoints/notes.rs:164-171 | the row is returned iff the query does not fail and the key exists |
| `NotesEndpoints.NoteService.PersistTo` | src/endpoints/notes.rs:128-131 | on success the path holds the upload and no other file changes; on failure nothing changes |
| `NotesEndpoints.NoteService.RemoveFile` | src/endpoints/notes.rs:178-181 | removal succeeds only for an existing file and removes just that one |
| `NotesEndpoints.NoteService.InsertNote` | src/endpoints/notes.rs:133-141 | on success one row is added under the next counter value and the counter advances |
| `NotesEndpoints.NoteService.SetTitle` | src/endpoints/notes.rs:235-240 | on success only that row's title changes |
| `NotesEndpoints.NoteService.DeleteNote` | src/endpoints/notes.rs:278-284 | on success only that row is gone |
| `NotesEndpoints.NoteService.AddNote` | src/endpoints/notes.rs:102-144 | the step-by-step handler ends in exactly the answer and stores of `Notes.AddNote` |
| `NotesEndpoints.NoteService.UpdateNoteContent` | src/endpoints/notes.rs:161-190 | the step-by-step handler ends in exactly the answer and stores of `Notes.UpdateNoteContent` |
| `NotesEndpoints.NoteService.UpdateNoteTitle` | src/endpoints/notes.rs:207-243 | the step-by-step handler ends in exactly the answer and stores of `Notes.UpdateNoteTitle` |
| `NotesEndpoints.NoteService.RemoveNote` | src/endpoints/notes.rs:258-287 | the step-by-step handler ends in exactly the answer and stores of `Notes.RemoveNote` |
| `NoteLifecycle.AddNoteAppendsToList` | src/endpoints/notes.rs:133-141 | after a successful add the owner's list is the old list plus the new note at the end; other lists are unchanged |
| `NoteLifecycle.RemoveNoteDropsFromList` | src/endpoints/notes.rs:278-284 | after a successful removal each list is the old list without that note, order kept |
| `NoteLifecycle.AddedNoteReadableAtUrl` | src/endpoints/notes.rs:125-128 | with a directory naming `./static` the new note's url leads to the uploaded bytes |
| `NoteLifecycle.UploadOutsideServedDirectory` | src/endpoints/notes.rs:173-181 | with a directory naming anything else the new row dangles and its update and removal fail with nothing changed |
| `NoteLifecycle.CreateRetitleRoundTrip` | src/endpoints/notes.rs:207-243 | create then retitle: same key, owner and url, the new content at that url, the new title listed |
| `NoteLifecycle.RemoveIsFinal` | src/endpoints/notes.rs:261-268 | a removed note is not found by a second removal, which changes nothing |
| `NoteLifecycle.FailedInsertLeavesOrphanFile` | src/endpoints/notes.rs:128-141 | when every stored url has the `static/<uuid>.md` shape, a failed insert after a successful write leaves a file no row leads to |
| `NoteLifecycle.PartialFailuresLeaveDanglingRow` | src/endpoints/notes.rs:178-187 | a failed rewrite in an update, or a failed row delete in a removal, leaves a row whose file is gone |
| `NoteLifecycle.ShiftLogScenario` | src/endpoints/notes.rs:74-85 | empty list for a new account, one listed note whose url holds its content after an add, empty again after removal |

## Left out

- HTTP routing, the `format` and `data` attributes, the status codes behind `ApiResult`, and `TempFile` streaming are left out. A handler's answer is `Ok` or one of the two error kinds with its message.
- SQL text, the connection pool and async execution are left out. Each query is one step on the abstract tables that may fail by flag.
- `Uuid::new_v4` randomness and the global `SETTINGS` lock are parameters. The name is any 32-digit lower-case hex string and the directory an optional string. Freshness of the name is a hypothesis where a lemma needs it.
- `note_files::NoteFile` and its conversion from a row are not part of this model. `Notes.FetchNotes` takes the conversion as a function parameter.
- `tblProtocol` is a parameter of `Notes.FetchProtocols`, not part of the state, since no handler here changes it.
- `NoteStore.AccountNotes`: the query has no ORDER BY; the model returns rows in ascending key order.
- Path resolution is lexical: empty and `.` steps are dropped. `..` steps, symbolic links, and an absolute path that happens to name the working directory's `static` are not resolved. `/srv/app/static` is therefore treated as a directory other than `./static`.
- `persist_to` either succeeds or changes nothing; a partially written file is not modelled.
- Keys and account ids are unbounded integers. The `i32` width and an exhausted AUTO_INCREMENT counter are not modelled. A failed insert does not advance the counter.
- Concurrent requests on the same note are not modelled; each handler runs alone from start to finish.
- `src/main.rs` only sets up logging and mounts the routes. The route `endpoints::notes::update_note` it mounts has no counterpart in the notes module.
- `src/endpoints/security/tests.rs` exercises an endpoint outside the notes module.
