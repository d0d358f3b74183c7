/** The two stores the notes handlers coordinate: the relational tables
    (`tblAccount`, `tblNotes`, `tblProtocol`) and the directory of note
    files, with the one query whose result is a list of notes. */
module NoteStore {
  import opened NotePaths

  type AccountId = int
  type NoteId = int
  type Bytes = seq<bv8>

  /** A `tblNotes` row without its key. */
  datatype NoteRow = NoteRow(accountId: AccountId, url: string, title: string)

  /** `db::Note`: a `tblNotes` row with its key, as a query returns it. */
  datatype Note = Note(noteId: NoteId, accountId: AccountId, url: string, title: string)

  /** `db::Protocol`: a `tblProtocol` row. */
  datatype Protocol = Protocol(protocolId: int, title: string, content: string)

  /** Everything the note handlers read or change. `nextNoteId` is the
      AUTO_INCREMENT counter of `tblNotes`; `files` maps each file, as a
      resolved path, to the bytes stored there. */
  datatype Db = Db(
    accounts: set<AccountId>,
    notes: map<NoteId, NoteRow>,
    nextNoteId: NoteId,
    files: map<FileKey, Bytes>)

  /** A url of the shape `add_note` stores, built from a simple UUID. */
  predicate IsStoredUrl(url: string) {
    NameOfUrl(url).Some? && IsSimpleUuid(NameOfUrl(url).value)
  }

  /** The AUTO_INCREMENT rule every reachable state satisfies: keys were
      issued by the counter, which starts at 1, so the next key is free. */
  predicate Valid(db: Db)
    ensures Valid(db) ==> db.nextNoteId !in db.notes && 1 <= db.nextNoteId
  {
    && 1 <= db.nextNoteId
    && forall id :: id in db.notes ==> 1 <= id < db.nextNoteId
  }

  /** Every url in the table was built by `add_note` from a UUID name. */
  predicate StoredUrls(db: Db) {
    forall id :: id in db.notes ==> IsStoredUrl(db.notes[id].url)
  }

  /** The state before any note is added. */
  function Empty(accounts: set<AccountId>, files: map<FileKey, Bytes>): (db: Db)
    ensures Valid(db) && StoredUrls(db)
  {
    Db(accounts, map[], 1, files)
  }

  predicate OwnedBy(notes: map<NoteId, NoteRow>, account: AccountId, id: NoteId) {
    id in notes && notes[id].accountId == account
  }

  function RowOf(n: Note): NoteRow {
    NoteRow(n.accountId, n.url, n.title)
  }

  /** Ids strictly ascending, hence each note at most once. */
  predicate Ascending(rows: seq<Note>) {
    forall i, j :: 0 <= i < j < |rows| ==> rows[i].noteId < rows[j].noteId
  }

  /** `rows` lists every row with a key in [lo, hi) that `account` owns,
      each with its stored fields, nothing else, in key order. */
  predicate Selects(notes: map<NoteId, NoteRow>, account: AccountId, lo: int, hi: int, rows: seq<Note>) {
    && (forall i :: 0 <= i < |rows| ==>
          lo <= rows[i].noteId < hi && OwnedBy(notes, account, rows[i].noteId)
          && notes[rows[i].noteId] == RowOf(rows[i]))
    && Ascending(rows)
    && (forall id :: lo <= id < hi && OwnedBy(notes, account, id) ==>
          exists i :: 0 <= i < |rows| && rows[i].noteId == id)
  }

  /** The rows with a key in [lo, hi) that `account` owns, in key order:
      the scan `SELECT * FROM tblNotes WHERE account_id = ?` makes. */
  function SelectByAccount(notes: map<NoteId, NoteRow>, account: AccountId, lo: int, hi: int): seq<Note>
    decreases hi - lo
  {
    if lo >= hi then []
    else
      (if OwnedBy(notes, account, lo)
       then [Note(lo, notes[lo].accountId, notes[lo].url, notes[lo].title)] else [])
      + SelectByAccount(notes, account, lo + 1, hi)
  }

  /** The scan lists exactly the owned rows of its range, in key order. */
  lemma {:induction false} SelectByAccountSelects(notes: map<NoteId, NoteRow>, account: AccountId, lo: int, hi: int)
    ensures Selects(notes, account, lo, hi, SelectByAccount(notes, account, lo, hi))
    decreases hi - lo
  {
    if lo < hi {
      var rest := SelectByAccount(notes, account, lo + 1, hi);
      SelectByAccountSelects(notes, account, lo + 1, hi);
      if OwnedBy(notes, account, lo) {
        SelectsPrepend(notes, account, lo, hi, rest);
        assert SelectByAccount(notes, account, lo, hi)
            == [Note(lo, notes[lo].accountId, notes[lo].url, notes[lo].title)] + rest;
      } else {
        SelectsSkip(notes, account, lo, hi, rest);
        assert SelectByAccount(notes, account, lo, hi) == [] + rest == rest;
      }
    }
  }

  /** An owned row at `lo` followed by the selection of [lo + 1, hi) is the
      selection of [lo, hi). */
  lemma SelectsPrepend(notes: map<NoteId, NoteRow>, account: AccountId, lo: int, hi: int, rest: seq<Note>)
    requires lo < hi && OwnedBy(notes, account, lo) && Selects(notes, account, lo + 1, hi, rest)
    ensures Selects(notes, account, lo, hi, [Note(lo, notes[lo].accountId, notes[lo].url, notes[lo].title)] + rest)
  {
    var rows := [Note(lo, notes[lo].accountId, notes[lo].url, notes[lo].title)] + rest;
    forall i | 0 < i < |rows|
      ensures rows[i] == rest[i - 1] && lo < rows[i].noteId
    {
    }
    forall id | lo < id < hi && OwnedBy(notes, account, id)
      ensures exists i :: 0 <= i < |rows| && rows[i].noteId == id
    {
      var k :| 0 <= k < |rest| && rest[k].noteId == id;
      assert rows[k + 1].noteId == id;
    }
    assert rows[0].noteId == lo;
  }

  /** A row at `lo` that `account` does not own adds nothing to the selection. */
  lemma SelectsSkip(notes: map<NoteId, NoteRow>, account: AccountId, lo: int, hi: int, rows: seq<Note>)
    requires lo < hi && !OwnedBy(notes, account, lo) && Selects(notes, account, lo + 1, hi, rows)
    ensures Selects(notes, account, lo, hi, rows)
  {
    forall id | lo <= id < hi && OwnedBy(notes, account, id)
      ensures exists i :: 0 <= i < |rows| && rows[i].noteId == id
    {
      assert lo + 1 <= id;
    }
  }

  /** `SELECT * FROM tblNotes WHERE account_id = ?`, rows in key order. */
  function AccountNotes(db: Db, account: AccountId): (rows: seq<Note>)
    requires Valid(db)
    ensures Ascending(rows)
    ensures forall i :: 0 <= i < |rows| ==>
      OwnedBy(db.notes, account, rows[i].noteId) && db.notes[rows[i].noteId] == RowOf(rows[i])
    ensures forall id :: OwnedBy(db.notes, account, id) ==>
      exists i :: 0 <= i < |rows| && rows[i].noteId == id
  {
    SelectByAccountSelects(db.notes, account, 1, db.nextNoteId);
    SelectByAccount(db.notes, account, 1, db.nextNoteId)
  }
}
