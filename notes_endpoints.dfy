/** The note handlers as they run: one object holds the account table, the
    notes table with its AUTO_INCREMENT counter, and the directory of note
    files, and each handler changes them one step at a time, returning at
    the first step that fails. Each handler is proved to leave exactly the
    answer and stores that the matching function in `Notes` describes. */
module NotesEndpoints {
  import opened Options
  import opened ApiErrors
  import opened NotePaths
  import opened NoteStore
  import Notes

  class NoteService {
    var accounts: set<AccountId>
    var notes: map<NoteId, NoteRow>
    var nextNoteId: NoteId
    var files: map<FileKey, Bytes>

    function State(): Db
      reads this
    {
      Db(accounts, notes, nextNoteId, files)
    }

    ghost predicate Valid()
      reads this
    {
      NoteStore.Valid(State())
    }

    /** Known accounts and files, an empty notes table. */
    constructor (accounts: set<AccountId>, files: map<FileKey, Bytes>)
      ensures Valid() && State() == Empty(accounts, files)
    {
      this.accounts := accounts;
      this.notes := map[];
      this.nextNoteId := 1;
      this.files := files;
    }

    /** `SELECT account_id FROM tblAccount WHERE account_id = ?` with `fetch_one`. */
    method AccountExists(account: AccountId, queryFails: bool) returns (found: bool)
      ensures found <==> !queryFails && account in accounts
    {
      found := !queryFails && account in accounts;
    }

    /** `SELECT * FROM tblNotes WHERE note_id = ?` with `fetch_one`. */
    method FetchNote(noteId: NoteId, queryFails: bool) returns (row: Option<NoteRow>)
      ensures row.Some? <==> !queryFails && noteId in notes
      ensures row.Some? ==> row.value == notes[noteId]
    {
      if queryFails || noteId !in notes {
        row := None;
      } else {
        row := Some(notes[noteId]);
      }
    }

    /** `persist_to`: move the upload to the file `path` names, replacing whatever is there. */
    method PersistTo(path: Path, content: Bytes, fails: bool) returns (ok: bool)
      modifies this`files
      ensures ok == !fails
      ensures files == if ok then old(files)[Resolve(path) := content] else old(files)
    {
      ok := !fails;
      if ok {
        files := files[Resolve(path) := content];
      }
    }

    /** `tokio::fs::remove_file`: an error when the file `path` names does not exist. */
    method RemoveFile(path: Path, fails: bool) returns (ok: bool)
      modifies this`files
      ensures ok == (!fails && Resolve(path) in old(files))
      ensures files == if ok then old(files) - {Resolve(path)} else old(files)
    {
      var file := Resolve(path);
      ok := !fails && file in files;
      if ok {
        files := files - {file};
      }
    }

    /** `INSERT INTO tblNotes (account_id, url, title) VALUES (?, ?, ?)`. */
    method InsertNote(row: NoteRow, fails: bool) returns (ok: bool)
      modifies this`notes, this`nextNoteId
      ensures ok == !fails
      ensures notes == if ok then old(notes)[old(nextNoteId) := row] else old(notes)
      ensures nextNoteId == if ok then old(nextNoteId) + 1 else old(nextNoteId)
    {
      ok := !fails;
      if ok {
        notes := notes[nextNoteId := row];
        nextNoteId := nextNoteId + 1;
      }
    }

    /** `UPDATE tblNotes SET title = ? WHERE note_id = ?`: matching no row is not an error. */
    method SetTitle(noteId: NoteId, title: string, fails: bool) returns (ok: bool)
      modifies this`notes
      ensures ok == !fails
      ensures notes == if ok && noteId in old(notes) then old(notes)[noteId := old(notes)[noteId].(title := title)]
                       else old(notes)
    {
      ok := !fails;
      if ok && noteId in notes {
        notes := notes[noteId := notes[noteId].(title := title)];
      }
    }

    /** `DELETE FROM tblNotes WHERE note_id = ?`. */
    method DeleteNote(noteId: NoteId, fails: bool) returns (ok: bool)
      modifies this`notes
      ensures ok == !fails
      ensures notes == if ok then old(notes) - {noteId} else old(notes)
    {
      ok := !fails;
      if ok {
        notes := notes - {noteId};
      }
    }

    /** `add_note`. */
    method AddNote(account: AccountId, title: string, content: Bytes,
                   name: string, staticDir: Option<string>, f: Notes.AddFaults) returns (r: ApiResult<()>)
      requires Valid() && IsSimpleUuid(name)
      modifies this
      ensures Valid()
      ensures Notes.Outcome(r, State()) == Notes.AddNote(old(State()), account, title, content, name, staticDir, f)
    {
      var found := AccountExists(account, f.accountQuery);
      if !found {
        return Err(NotFound(AccountNotFound));
      }
      if staticDir.None? {
        return Err(InternalError(NoStaticDirectory));
      }
      var path := NoteFilePath(staticDir.value, name);
      var url := NoteFileUrl(name);
      var saved := PersistTo(path, content, f.persist);
      if !saved {
        return Err(InternalError(SaveFileFailed));
      }
      var inserted := InsertNote(NoteRow(account, url, title), f.insert);
      if !inserted {
        return Err(InternalError(InsertFailed));
      }
      r := Ok(());
    }

    /** `update_note_content`. */
    method UpdateNoteContent(noteId: NoteId, content: Bytes, f: Notes.UpdateFaults) returns (r: ApiResult<()>)
      requires Valid()
      modifies this
      ensures Valid()
      ensures Notes.Outcome(r, State()) == Notes.UpdateNoteContent(old(State()), noteId, content, f)
    {
      var row := FetchNote(noteId, f.noteQuery);
      if row.None? {
        return Err(NotFound(NoteNotFound));
      }
      var path := UrlToPath(row.value.url);
      var removed := RemoveFile(path, f.remove);
      if !removed {
        return Err(InternalError(UpdateFileFailed));
      }
      var saved := PersistTo(path, content, f.persist);
      if !saved {
        return Err(InternalError(UpdateFileFailed));
      }
      r := Ok(());
    }

    /** `update_note_title`. */
    method UpdateNoteTitle(noteId: NoteId, title: string, content: Bytes,
                           f: Notes.UpdateFaults, titleUpdateFails: bool) returns (r: ApiResult<()>)
      requires Valid()
      modifies this
      ensures Valid()
      ensures Notes.Outcome(r, State()) == Notes.UpdateNoteTitle(old(State()), noteId, title, content, f, titleUpdateFails)
    {
      var row := FetchNote(noteId, f.noteQuery);
      if row.None? {
        return Err(NotFound(NoteNotFound));
      }
      var path := UrlToPath(row.value.url);
      var removed := RemoveFile(path, f.remove);
      if !removed {
        return Err(InternalError(UpdateFileFailed));
      }
      var saved := PersistTo(path, content, f.persist);
      if !saved {
        return Err(InternalError(UpdateFileFailed));
      }
      var retitled := SetTitle(noteId, title, titleUpdateFails);
      if !retitled {
        return Err(InternalError(UpdateTitleFailed));
      }
      r := Ok(());
    }

    /** `remove_note`. */
    method RemoveNote(noteId: NoteId, f: Notes.RemoveFaults) returns (r: ApiResult<()>)
      requires Valid()
      modifies this
      ensures Valid()
      ensures Notes.Outcome(r, State()) == Notes.RemoveNote(old(State()), noteId, f)
    {
      var row := FetchNote(noteId, f.noteQuery);
      if row.None? {
        return Err(NotFound(NoteNotFound));
      }
      var removed := RemoveFile(UrlToPath(row.value.url), f.remove);
      if !removed {
        return Err(InternalError(DeleteFileFailed));
      }
      var deleted := DeleteNote(noteId, f.delete);
      if !deleted {
        return Err(InternalError(DeleteRowFailed));
      }
      r := Ok(());
    }
  }
}
