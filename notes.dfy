/** The handlers of `src/endpoints/notes.rs` as functions from the stores
    before the request to the answer and the stores after it. Every query
    or file operation that can fail is a flag among the inputs; a flag set
    to true makes that step fail. */
module Notes {
  import opened Options
  import opened ApiErrors
  import opened NotePaths
  import opened NoteStore

  /** The answer a handler gives and the stores it leaves behind. */
  datatype Outcome = Outcome(result: ApiResult<()>, db: Db)

  /** Steps of `add_note` that can fail: the account query, writing the file, inserting the row. */
  datatype AddFaults = AddFaults(accountQuery: bool, persist: bool, insert: bool)

  /** Steps of the two update handlers that can fail: the note query,
      removing the old file, writing the new one (and, for
      `update_note_title`, the title update, passed separately). */
  datatype UpdateFaults = UpdateFaults(noteQuery: bool, remove: bool, persist: bool)

  /** Steps of `remove_note` that can fail: the note query, removing the file, deleting the row. */
  datatype RemoveFaults = RemoveFaults(noteQuery: bool, remove: bool, delete: bool)

  /** `fetch_one` on `tblAccount`: it fails when no row matches as well as on a query error. */
  predicate AccountFound(db: Db, account: AccountId, queryFails: bool) {
    !queryFails && account in db.accounts
  }

  /** `fetch_one` on `tblNotes` by key. */
  predicate NoteFound(db: Db, noteId: NoteId, queryFails: bool) {
    !queryFails && noteId in db.notes
  }

  /** `tokio::fs::remove_file` succeeds only on a file that exists. */
  predicate FileRemovable(db: Db, file: FileKey, removeFails: bool) {
    !removeFails && file in db.files
  }

  /** The file a stored note's url points update and delete at. */
  function NotePath(db: Db, noteId: NoteId): FileKey
    requires noteId in db.notes
  {
    Resolve(UrlToPath(db.notes[noteId].url))
  }

  /** The file `add_note` writes for `name` under `staticDir`. */
  function UploadFile(staticDir: string, name: string): FileKey {
    Resolve(NoteFilePath(staticDir, name))
  }

  /** `fetch_protocols`: every protocol row, an error when the query fails,
      and not-found when the table is empty. */
  function FetchProtocols(table: seq<Protocol>, queryFails: bool): (r: ApiResult<seq<Protocol>>)
    ensures queryFails ==> r == Err(InternalError(ProtocolsQueryFailed))
    ensures !queryFails && table == [] ==> r == Err(NotFound(NoProtocols))
    ensures r.Ok? <==> !queryFails && table != []
    ensures r.Ok? ==> r.value == table
  {
    if queryFails then Err(InternalError(ProtocolsQueryFailed))
    else if |table| == 0 then Err(NotFound(NoProtocols))
    else Ok(table)
  }

  /** `fetch_notes`: the account is looked up before its notes; every
      failure is not-found; on success one projected entry per note the
      account owns, in the order the query returns them. `project` is the
      conversion of a row into the public `NoteFile` shape. */
  function FetchNotes<V>(db: Db, account: AccountId, accountQueryFails: bool, notesQueryFails: bool,
                         project: Note -> V): (r: ApiResult<seq<V>>)
    requires Valid(db)
    ensures !AccountFound(db, account, accountQueryFails) ==> r == Err(NotFound(AccountNotFound))
    ensures AccountFound(db, account, accountQueryFails) && notesQueryFails ==> r == Err(NotFound(NotesQueryFailed))
    ensures r.Err? ==> r.error.NotFound?
    ensures r.Ok? <==> AccountFound(db, account, accountQueryFails) && !notesQueryFails
    ensures r.Ok? ==> (|r.value| == |AccountNotes(db, account)|
      && forall i :: 0 <= i < |r.value| ==> r.value[i] == project(AccountNotes(db, account)[i]))
    // an account without notes gets an empty list, not an error
    ensures r.Ok? && (forall id :: id in db.notes ==> db.notes[id].accountId != account) ==> r.value == []
  {
    if !AccountFound(db, account, accountQueryFails) then Err(NotFound(AccountNotFound))
    else if notesQueryFails then Err(NotFound(NotesQueryFailed))
    else
      var rows := AccountNotes(db, account);
      assert |rows| > 0 ==> OwnedBy(db.notes, account, rows[0].noteId);
      Ok(seq(|rows|, i requires 0 <= i < |rows| => project(rows[i])))
  }

  /** `add_note`: check the account, build the path and url from one name,
      write the file, then insert the row. */
  function AddNote(db: Db, account: AccountId, title: string, content: Bytes,
                   name: string, staticDir: Option<string>, f: AddFaults): (o: Outcome)
    requires Valid(db) && IsSimpleUuid(name)
    ensures Valid(o.db)
    ensures StoredUrls(db) ==> StoredUrls(o.db)
    ensures o.db.accounts == db.accounts
    // nothing is written for an unknown account or a missing setting
    ensures !AccountFound(db, account, f.accountQuery) ==> o == Outcome(Err(NotFound(AccountNotFound)), db)
    ensures AccountFound(db, account, f.accountQuery) && staticDir.None? ==>
      o == Outcome(Err(InternalError(NoStaticDirectory)), db)
    ensures o.result.Err? ==> o.result.error.NotFound? == !AccountFound(db, account, f.accountQuery)
    // the file is written first: a failed write leaves both stores as they were
    ensures f.persist ==> o.db == db
    // the row is inserted last: every failure leaves the table as it was
    ensures o.result.Err? ==> o.db.notes == db.notes && o.db.nextNoteId == db.nextNoteId
    ensures o.result.Ok? <==> AccountFound(db, account, f.accountQuery) && staticDir.Some? && !f.persist && !f.insert
    // the only file that may change is the one named after the new note
    ensures o.db.files == db.files
      || (staticDir.Some? && o.db.files == db.files[UploadFile(staticDir.value, name) := content])
    // a failed insert leaves the written file behind with no row naming it
    ensures f.insert && AccountFound(db, account, f.accountQuery) && staticDir.Some? && !f.persist ==>
      o.result == Err(InternalError(InsertFailed))
      && o.db.files == db.files[UploadFile(staticDir.value, name) := content]
    // success: exactly one new row, under a fresh key, carrying the url built from the same name
    ensures o.result.Ok? ==>
      o.db.notes == db.notes[db.nextNoteId := NoteRow(account, NoteFileUrl(name), title)]
      && o.db.nextNoteId == db.nextNoteId + 1
      && o.db.files == db.files[UploadFile(staticDir.value, name) := content]
  {
    if !AccountFound(db, account, f.accountQuery) then Outcome(Err(NotFound(AccountNotFound)), db)
    else if staticDir.None? then Outcome(Err(InternalError(NoStaticDirectory)), db)
    else
      var path := UploadFile(staticDir.value, name);
      var url := NoteFileUrl(name);
      if f.persist then Outcome(Err(InternalError(SaveFileFailed)), db)
      else
        var written := db.(files := db.files[path := content]);
        if f.insert then Outcome(Err(InternalError(InsertFailed)), written)
        else
          NameOfUrlRoundTrip(name);
          Outcome(Ok(()), written.(notes := db.notes[db.nextNoteId := NoteRow(account, url, title)],
                                   nextNoteId := db.nextNoteId + 1))
  }

  /** `update_note_content`: look the note up, remove the file at `./<url>`,
      then write the new content to that same path. The row is never touched. */
  function UpdateNoteContent(db: Db, noteId: NoteId, content: Bytes, f: UpdateFaults): (o: Outcome)
    requires Valid(db)
    ensures Valid(o.db)
    ensures StoredUrls(db) ==> StoredUrls(o.db)
    ensures o.db.accounts == db.accounts && o.db.notes == db.notes && o.db.nextNoteId == db.nextNoteId
    ensures !NoteFound(db, noteId, f.noteQuery) ==> o == Outcome(Err(NotFound(NoteNotFound)), db)
    ensures o.result.Err? ==> o.result.error.NotFound? == !NoteFound(db, noteId, f.noteQuery)
    // a missing file or a failed removal: nothing changes
    ensures NoteFound(db, noteId, f.noteQuery) && !FileRemovable(db, NotePath(db, noteId), f.remove) ==>
      o == Outcome(Err(InternalError(UpdateFileFailed)), db)
    // removed but not rewritten: the note's file is gone
    ensures NoteFound(db, noteId, f.noteQuery) && FileRemovable(db, NotePath(db, noteId), f.remove) && f.persist ==>
      o.result == Err(InternalError(UpdateFileFailed)) && o.db.files == db.files - {NotePath(db, noteId)}
    ensures o.result.Ok? <==>
      NoteFound(db, noteId, f.noteQuery) && FileRemovable(db, NotePath(db, noteId), f.remove) && !f.persist
    // success: the same path now holds the new content, no other file changes
    ensures o.result.Ok? ==> o.db.files == db.files[NotePath(db, noteId) := content]
  {
    if !NoteFound(db, noteId, f.noteQuery) then Outcome(Err(NotFound(NoteNotFound)), db)
    else
      var path := NotePath(db, noteId);
      if !FileRemovable(db, path, f.remove) then Outcome(Err(InternalError(UpdateFileFailed)), db)
      else
        var removed := db.(files := db.files - {path});
        if f.persist then Outcome(Err(InternalError(UpdateFileFailed)), removed)
        else Outcome(Ok(()), removed.(files := removed.files[path := content]))
  }

  /** `update_note_title`: the steps of `update_note_content`, then the title
      update; the title changes only once the file has been replaced. */
  function UpdateNoteTitle(db: Db, noteId: NoteId, title: string, content: Bytes,
                           f: UpdateFaults, titleUpdateFails: bool): (o: Outcome)
    requires Valid(db)
    ensures Valid(o.db)
    ensures StoredUrls(db) ==> StoredUrls(o.db)
    ensures o.db.accounts == db.accounts && o.db.nextNoteId == db.nextNoteId
    ensures !NoteFound(db, noteId, f.noteQuery) ==> o == Outcome(Err(NotFound(NoteNotFound)), db)
    ensures o.result.Err? ==> o.result.error.NotFound? == !NoteFound(db, noteId, f.noteQuery)
    ensures NoteFound(db, noteId, f.noteQuery) && !FileRemovable(db, NotePath(db, noteId), f.remove) ==>
      o == Outcome(Err(InternalError(UpdateFileFailed)), db)
    ensures NoteFound(db, noteId, f.noteQuery) && FileRemovable(db, NotePath(db, noteId), f.remove) && f.persist ==>
      o.result == Err(InternalError(UpdateFileFailed))
      && o.db.files == db.files - {NotePath(db, noteId)} && o.db.notes == db.notes
    // the file was replaced but the title update failed: new content, old title
    ensures (NoteFound(db, noteId, f.noteQuery) && FileRemovable(db, NotePath(db, noteId), f.remove) && !f.persist
             && titleUpdateFails) ==>
      o.result == Err(InternalError(UpdateTitleFailed))
      && o.db.files == db.files[NotePath(db, noteId) := content] && o.db.notes == db.notes
    ensures o.result.Ok? <==>
      NoteFound(db, noteId, f.noteQuery) && FileRemovable(db, NotePath(db, noteId), f.remove) && !f.persist
      && !titleUpdateFails
    // success: same path, new content, new title; owner and url kept
    ensures o.result.Ok? ==>
      o.db.files == db.files[NotePath(db, noteId) := content]
      && o.db.notes == db.notes[noteId := db.notes[noteId].(title := title)]
    // whatever happens, no row appears or disappears and no url or owner changes
    ensures o.db.notes.Keys == db.notes.Keys
    ensures forall id :: id in db.notes ==>
      o.db.notes[id].url == db.notes[id].url && o.db.notes[id].accountId == db.notes[id].accountId
  {
    var replaced := UpdateNoteContent(db, noteId, content, f);
    if replaced.result.Err? then replaced
    else if titleUpdateFails then Outcome(Err(InternalError(UpdateTitleFailed)), replaced.db)
    else
      var after := replaced.db;
      Outcome(Ok(()), after.(notes := after.notes[noteId := after.notes[noteId].(title := title)]))
  }

  /** `remove_note`: look the note up, remove its file, then delete its row. */
  function RemoveNote(db: Db, noteId: NoteId, f: RemoveFaults): (o: Outcome)
    requires Valid(db)
    ensures Valid(o.db)
    ensures StoredUrls(db) ==> StoredUrls(o.db)
    ensures o.db.accounts == db.accounts && o.db.nextNoteId == db.nextNoteId
    ensures !NoteFound(db, noteId, f.noteQuery) ==> o == Outcome(Err(NotFound(NoteNotFound)), db)
    ensures o.result.Err? ==> o.result.error.NotFound? == !NoteFound(db, noteId, f.noteQuery)
    // the file could not be removed: the row stays, pointing at it
    ensures NoteFound(db, noteId, f.noteQuery) && !FileRemovable(db, NotePath(db, noteId), f.remove) ==>
      o == Outcome(Err(InternalError(DeleteFileFailed)), db)
    // the file is gone but the row could not be deleted: a row whose url names no file
    ensures NoteFound(db, noteId, f.noteQuery) && FileRemovable(db, NotePath(db, noteId), f.remove) && f.delete ==>
      o.result == Err(InternalError(DeleteRowFailed))
      && o.db.files == db.files - {NotePath(db, noteId)} && o.db.notes == db.notes
    ensures o.result.Ok? <==>
      NoteFound(db, noteId, f.noteQuery) && FileRemovable(db, NotePath(db, noteId), f.remove) && !f.delete
    // success: that row and that file are gone, every other row and file is kept
    ensures o.result.Ok? ==>
      o.db.notes == db.notes - {noteId} && o.db.files == db.files - {NotePath(db, noteId)}
  {
    if !NoteFound(db, noteId, f.noteQuery) then Outcome(Err(NotFound(NoteNotFound)), db)
    else
      var path := NotePath(db, noteId);
      if !FileRemovable(db, path, f.remove) then Outcome(Err(InternalError(DeleteFileFailed)), db)
      else
        var removed := db.(files := db.files - {path});
        if f.delete then Outcome(Err(InternalError(DeleteRowFailed)), removed)
        else Outcome(Ok(()), removed.(notes := db.notes - {noteId}))
  }
}
