/** What a sequence of requests does to the two stores: what a later
    `fetch_notes` lists after an add, a title update or a removal, the
    round trip from creation to a retitled note, the consequence of the
    upload directory naming another directory than `./static`, and the orphan files and
    dangling rows the partial failures leave. */
module NoteLifecycle {
  import opened Options
  import opened ApiErrors
  import opened NotePaths
  import opened NoteStore
  import opened Notes

  /** The rows of `rows` other than the one keyed `id`. */
  function Without(rows: seq<Note>, id: NoteId): seq<Note> {
    if rows == [] then []
    else (if rows[0].noteId == id then [] else [rows[0]]) + Without(rows[1..], id)
  }

  /** A file that no row's url leads to. */
  ghost predicate OrphanFile(db: Db, file: FileKey) {
    file in db.files && forall id :: id in db.notes ==> NotePath(db, id) != file
  }

  /** A row whose url leads to no file. */
  predicate DanglingRow(db: Db, id: NoteId) {
    id in db.notes && NotePath(db, id) !in db.files
  }

  /** The query only looks at the rows in its key range. */
  lemma {:induction false} SelectLocal(n1: map<NoteId, NoteRow>, n2: map<NoteId, NoteRow>,
                                       account: AccountId, lo: int, hi: int)
    requires forall id :: lo <= id < hi ==> (id in n1 <==> id in n2) && (id in n1 ==> n1[id] == n2[id])
    ensures SelectByAccount(n1, account, lo, hi) == SelectByAccount(n2, account, lo, hi)
    decreases hi - lo
  {
    if lo < hi {
      SelectLocal(n1, n2, account, lo + 1, hi);
    }
  }

  /** Scanning [lo, hi) is scanning [lo, mid) and then [mid, hi). */
  lemma {:induction false} SelectSplit(notes: map<NoteId, NoteRow>, account: AccountId, lo: int, mid: int, hi: int)
    requires lo <= mid <= hi
    ensures SelectByAccount(notes, account, lo, hi)
         == SelectByAccount(notes, account, lo, mid) + SelectByAccount(notes, account, mid, hi)
    decreases mid - lo
  {
    if lo < mid {
      SelectSplit(notes, account, lo + 1, mid, hi);
    }
  }

  /** Scanning a single key. */
  lemma SelectOne(notes: map<NoteId, NoteRow>, account: AccountId, k: NoteId)
    ensures SelectByAccount(notes, account, k, k + 1)
         == if OwnedBy(notes, account, k)
            then [Note(k, notes[k].accountId, notes[k].url, notes[k].title)] else []
  {
    assert SelectByAccount(notes, account, k + 1, k + 1) == [];
  }

  /** A row stored under a key above every existing key comes last in the query. */
  lemma SelectAppend(notes: map<NoteId, NoteRow>, k: NoteId, row: NoteRow, account: AccountId)
    requires 1 <= k && forall id :: id in notes ==> id < k
    ensures SelectByAccount(notes[k := row], account, 1, k + 1)
         == SelectByAccount(notes, account, 1, k)
            + (if row.accountId == account then [Note(k, row.accountId, row.url, row.title)] else [])
  {
    var grown := notes[k := row];
    SelectSplit(grown, account, 1, k, k + 1);
    assert forall id :: 1 <= id < k ==> (id in grown <==> id in notes) && (id in grown ==> grown[id] == notes[id]);
    SelectLocal(grown, notes, account, 1, k);
    SelectOne(grown, account, k);
  }

  /** Deleting a row removes exactly that row from the query. */
  lemma {:induction false} SelectRemove(notes: map<NoteId, NoteRow>, k: NoteId, account: AccountId, lo: int, hi: int)
    ensures SelectByAccount(notes - {k}, account, lo, hi) == Without(SelectByAccount(notes, account, lo, hi), k)
    decreases hi - lo
  {
    if lo < hi {
      SelectRemove(notes, k, account, lo + 1, hi);
      var rest := SelectByAccount(notes, account, lo + 1, hi);
      var restLeft := SelectByAccount(notes - {k}, account, lo + 1, hi);
      if OwnedBy(notes, account, lo) {
        var rows := SelectByAccount(notes, account, lo, hi);
        assert rows == [Note(lo, notes[lo].accountId, notes[lo].url, notes[lo].title)] + rest;
        assert rows[1..] == rest;
        assert Without(rows, k) == (if lo == k then [] else [rows[0]]) + Without(rest, k);
        if lo != k {
          assert SelectByAccount(notes - {k}, account, lo, hi)
              == [Note(lo, notes[lo].accountId, notes[lo].url, notes[lo].title)] + restLeft;
        } else {
          assert SelectByAccount(notes - {k}, account, lo, hi) == [] + restLeft;
        }
      } else {
        assert !OwnedBy(notes - {k}, account, lo);
        assert SelectByAccount(notes, account, lo, hi) == [] + rest == rest;
        assert SelectByAccount(notes - {k}, account, lo, hi) == [] + restLeft == restLeft;
      }
    }
  }

  /** After a successful `add_note`, the owner's list is the old list
      followed by the new note; every other account's list is unchanged. */
  lemma AddNoteAppendsToList(db: Db, account: AccountId, title: string, content: Bytes,
                             name: string, staticDir: Option<string>, f: AddFaults, other: AccountId)
    requires Valid(db) && IsSimpleUuid(name)
    requires AddNote(db, account, title, content, name, staticDir, f).result.Ok?
    ensures var after := AddNote(db, account, title, content, name, staticDir, f).db;
      && AccountNotes(after, account)
         == AccountNotes(db, account) + [Note(db.nextNoteId, account, NoteFileUrl(name), title)]
      && (other != account ==> AccountNotes(after, other) == AccountNotes(db, other))
  {
    var row := NoteRow(account, NoteFileUrl(name), title);
    SelectAppend(db.notes, db.nextNoteId, row, account);
    SelectAppend(db.notes, db.nextNoteId, row, other);
  }

  /** After a successful `remove_note`, no account's list shows the note,
      and every other entry is still there, in the same order. */
  lemma RemoveNoteDropsFromList(db: Db, noteId: NoteId, f: RemoveFaults, account: AccountId)
    requires Valid(db)
    requires RemoveNote(db, noteId, f).result.Ok?
    ensures var after := RemoveNote(db, noteId, f).db;
      && AccountNotes(after, account) == Without(AccountNotes(db, account), noteId)
      && forall i :: 0 <= i < |AccountNotes(after, account)| ==> AccountNotes(after, account)[i].noteId != noteId
  {
    SelectRemove(db.notes, noteId, account, 1, db.nextNoteId);
  }

  /** With the upload directory naming `./static` (spelled `static`,
      `./static/` or any other way), the url `add_note` stores leads to the
      uploaded content. */
  lemma AddedNoteReadableAtUrl(db: Db, account: AccountId, title: string, content: Bytes,
                               name: string, staticDir: string, f: AddFaults)
    requires Valid(db) && IsSimpleUuid(name) && NamesServedDirectory(staticDir)
    requires AddNote(db, account, title, content, name, Some(staticDir), f).result.Ok?
    ensures var after := AddNote(db, account, title, content, name, Some(staticDir), f).db;
      && db.nextNoteId in after.notes && after.notes[db.nextNoteId].url == NoteFileUrl(name)
      && NotePath(after, db.nextNoteId) in after.files && after.files[NotePath(after, db.nextNoteId)] == content
  {
    PathsAgreeIffServedDirectory(staticDir, name);
  }

  /** With an upload directory naming any other directory (`/static`,
      `./static/notes`, ...), the url `add_note` stores leads to no file
      (unless one was already there), so a later update or removal of that
      note fails with an internal error and changes nothing. */
  lemma UploadOutsideServedDirectory(db: Db, account: AccountId, title: string, content: Bytes,
                                     name: string, staticDir: string, f: AddFaults,
                                     newContent: Bytes, newTitle: string)
    requires Valid(db) && IsSimpleUuid(name) && !NamesServedDirectory(staticDir)
    requires Resolve(UrlToPath(NoteFileUrl(name))) !in db.files
    requires AddNote(db, account, title, content, name, Some(staticDir), f).result.Ok?
    ensures var after := AddNote(db, account, title, content, name, Some(staticDir), f).db;
      var id := db.nextNoteId;
      && DanglingRow(after, id)
      && UpdateNoteContent(after, id, newContent, UpdateFaults(false, false, false))
         == Outcome(Err(InternalError(UpdateFileFailed)), after)
      && UpdateNoteTitle(after, id, newTitle, newContent, UpdateFaults(false, false, false), false)
         == Outcome(Err(InternalError(UpdateFileFailed)), after)
      && RemoveNote(after, id, RemoveFaults(false, false, false))
         == Outcome(Err(InternalError(DeleteFileFailed)), after)
  {
    PathsAgreeIffServedDirectory(staticDir, name);
  }

  /** Create a note, then replace its content and title: the note keeps its
      key, owner and url, the file that url leads to holds the new content,
      and the owner's list ends with the note under its new title. */
  lemma CreateRetitleRoundTrip(db: Db, account: AccountId, title: string, content: Bytes, name: string,
                               staticDir: string, newTitle: string, newContent: Bytes)
    requires Valid(db) && IsSimpleUuid(name) && account in db.accounts && NamesServedDirectory(staticDir)
    ensures var created := AddNote(db, account, title, content, name, Some(staticDir), AddFaults(false, false, false));
      var id := db.nextNoteId;
      var updated := UpdateNoteTitle(created.db, id, newTitle, newContent, UpdateFaults(false, false, false), false);
      && created.result == Ok(()) && updated.result == Ok(())
      && updated.db.notes[id] == NoteRow(account, NoteFileUrl(name), newTitle)
      && updated.db.files[Resolve(UrlToPath(NoteFileUrl(name)))] == newContent
      && AccountNotes(updated.db, account)
         == AccountNotes(db, account) + [Note(id, account, NoteFileUrl(name), newTitle)]
  {
    var id, url := db.nextNoteId, NoteFileUrl(name);
    var f := AddFaults(false, false, false);
    var created := AddNote(db, account, title, content, name, Some(staticDir), f);
    AddedNoteReadableAtUrl(db, account, title, content, name, staticDir, f);
    assert created.db.notes == db.notes[id := NoteRow(account, url, title)];
    assert NotePath(created.db, id) == Resolve(UrlToPath(url));
    var g := UpdateFaults(false, false, false);
    var replaced := UpdateNoteContent(created.db, id, newContent, g);
    assert replaced.result == Ok(()) && replaced.db.files == created.db.files[Resolve(UrlToPath(url)) := newContent];
    var updated := UpdateNoteTitle(created.db, id, newTitle, newContent, g, false);
    assert updated.db.notes == db.notes[id := NoteRow(account, url, newTitle)];
    assert updated.db.nextNoteId == id + 1;
    SelectAppend(db.notes, id, NoteRow(account, url, newTitle), account);
  }

  /** A removed note is gone: asking to remove it again is not-found and changes nothing. */
  lemma RemoveIsFinal(db: Db, noteId: NoteId, f: RemoveFaults, g: RemoveFaults)
    requires Valid(db)
    requires RemoveNote(db, noteId, f).result.Ok?
    ensures var after := RemoveNote(db, noteId, f).db;
      RemoveNote(after, noteId, g) == Outcome(Err(NotFound(NoteNotFound)), after)
  {
  }

  /** A failed insert leaves the freshly written file with no row leading to
      it, provided every stored url was built by `add_note` and the name was
      never used before. */
  lemma FailedInsertLeavesOrphanFile(db: Db, account: AccountId, title: string, content: Bytes,
                                     name: string, staticDir: string)
    requires Valid(db) && StoredUrls(db) && IsSimpleUuid(name) && account in db.accounts
    requires forall id :: id in db.notes ==> db.notes[id].url != NoteFileUrl(name)
    ensures var o := AddNote(db, account, title, content, name, Some(staticDir), AddFaults(false, false, true));
      o.result == Err(InternalError(InsertFailed)) && OrphanFile(o.db, UploadFile(staticDir, name))
  {
    var o := AddNote(db, account, title, content, name, Some(staticDir), AddFaults(false, false, true));
    var file := UploadFile(staticDir, name);
    forall id | id in o.db.notes
      ensures NotePath(o.db, id) != file
    {
      var n := NameOfUrl(db.notes[id].url).value;
      NameOfUrlRoundTrip(n);
      NoteFileNamesAgree(staticDir, name, n);
    }
  }

  /** The two partial failures that leave a row whose url leads nowhere:
      an update that removed the file but could not write the new one, and
      a removal that deleted the file but not the row. */
  lemma PartialFailuresLeaveDanglingRow(db: Db, noteId: NoteId, content: Bytes)
    requires Valid(db) && noteId in db.notes && NotePath(db, noteId) in db.files
    ensures DanglingRow(UpdateNoteContent(db, noteId, content, UpdateFaults(false, false, true)).db, noteId)
    ensures DanglingRow(RemoveNote(db, noteId, RemoveFaults(false, false, true)).db, noteId)
  {
  }

  /** The public shape of a listed note, as the scenario below reads it. */
  datatype NoteView = NoteView(noteId: NoteId, title: string, url: string)

  function View(n: Note): NoteView {
    NoteView(n.noteId, n.title, n.url)
  }

  /** One account, no notes, uploads going to a directory naming `./static`
      (`static` is one, by `ServedDirectorySpellings`): the list is empty;
      after creating "Shift Log" under the UUID `name` the list holds exactly
      that note, whose url leads to its content; after removing it the list
      is empty again. */
  lemma ShiftLogScenario(files: map<FileKey, Bytes>, hello: Bytes, name: string, dir: string)
    requires IsSimpleUuid(name) && NamesServedDirectory(dir)
    ensures var db := Empty({1}, files);
      var url := NoteFileUrl(name);
      var created := AddNote(db, 1, "Shift Log", hello, name, Some(dir), AddFaults(false, false, false));
      var removed := RemoveNote(created.db, 1, RemoveFaults(false, false, false));
      && FetchNotes(db, 1, false, false, View) == Ok([])
      && created.result == Ok(())
      && FetchNotes(created.db, 1, false, false, View) == Ok([NoteView(1, "Shift Log", url)])
      && Resolve(UrlToPath(url)) in created.db.files && created.db.files[Resolve(UrlToPath(url))] == hello
      && removed.result == Ok(())
      && FetchNotes(removed.db, 1, false, false, View) == Ok([])
  {
    var db := Empty({1}, files);
    var f := AddFaults(false, false, false);
    AddNoteAppendsToList(db, 1, "Shift Log", hello, name, Some(dir), f, 1);
    AddedNoteReadableAtUrl(db, 1, "Shift Log", hello, name, dir, f);
    var created := AddNote(db, 1, "Shift Log", hello, name, Some(dir), f);
    var note := Note(1, 1, NoteFileUrl(name), "Shift Log");
    assert AccountNotes(created.db, 1) == [note];
    var listed := FetchNotes(created.db, 1, false, false, View);
    assert listed.Ok? && |listed.value| == 1;
    assert listed.value[0] == View(note);
    assert listed.value == [View(note)];
    RemoveNoteDropsFromList(created.db, 1, RemoveFaults(false, false, false), 1);
    var removed := RemoveNote(created.db, 1, RemoveFaults(false, false, false));
    assert AccountNotes(removed.db, 1) == Without([note], 1) == [];
  }
}
