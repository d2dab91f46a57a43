/**
 * The services the controller calls (balthapp/service.py): the checks run on
 * an upload, the four record-store operations, and the existence check on
 * a file path.
 */
module Service {
  import opened Wrappers
  import opened Model
  import opened Storage

  // ------------------------------------------------------------------
  // Checks on an upload
  // ------------------------------------------------------------------

  /** `file_provided`: a file is provided unless its name is the empty string. */
  function FileProvided(filename: string): (r: bool)
    ensures r <==> |filename| > 0
  {
    filename != ""
  }

  /**
   * `valid_file_ext`: Python's `str.endswith`, which compares characters
   * exactly, so the test is case-sensitive.
   */
  function ValidFileExt(filename: string, ext: string): (r: bool)
    ensures r <==> exists stem :: stem + ext == filename
  {
    var k := |filename| - |ext|;
    if k < 0 then
      false
    else if filename[k..] == ext then
      assert filename[..k] + ext == filename;
      true
    else
      SuffixOfConcat(filename, ext);
      false
  }

  lemma SuffixOfConcat(filename: string, ext: string)
    ensures forall stem :: stem + ext == filename ==> filename[|filename| - |ext|..] == ext
  {
    forall stem | stem + ext == filename
      ensures filename[|filename| - |ext|..] == ext
    {
      assert filename[|stem|..] == ext;
    }
  }

  /** `valid_file_size`: rejects only a declared length above the bound. */
  function ValidFileSize(contentLength: int, maxSize: int): (r: bool)
    ensures r <==> contentLength <= maxSize
  {
    !(contentLength > maxSize)
  }

  /** `str.lower` on one character; only the ASCII letters are mapped. */
  function LowerChar(c: char): char
  {
    if 'A' <= c <= 'Z' then (c as int + 32) as char else c
  }

  function ToLower(s: string): (r: string)
    ensures |r| == |s|
    ensures forall i :: 0 <= i < |s| ==> r[i] == LowerChar(s[i])
  {
    if s == [] then [] else [LowerChar(s[0])] + ToLower(s[1..])
  }

  /** `needle` appears in `hay` starting at index `i`. */
  predicate OccursAt(hay: string, needle: string, i: nat)
  {
    i + |needle| <= |hay| && hay[i..i + |needle|] == needle
  }

  /** Python's `needle in hay` on strings: some occurrence exists (the empty needle occurs everywhere). */
  function Contains(hay: string, needle: string): (r: bool)
    ensures r <==> exists i: nat :: OccursAt(hay, needle, i)
    decreases |hay|
  {
    if |hay| < |needle| then
      false
    else if hay[..|needle|] == needle then
      assert OccursAt(hay, needle, 0);
      true
    else
      OccursAtShift(hay, needle);
      Contains(hay[1..], needle)
  }

  lemma OccursAtShift(hay: string, needle: string)
    requires |hay| >= |needle| && hay[..|needle|] != needle
    ensures (exists i: nat :: OccursAt(hay, needle, i)) <==> (exists i: nat :: OccursAt(hay[1..], needle, i))
  {
    if i: nat :| OccursAt(hay, needle, i) {
      assert i != 0;
      assert hay[1..][i - 1..i - 1 + |needle|] == hay[i..i + |needle|];
      assert OccursAt(hay[1..], needle, i - 1);
    }
    if i: nat :| OccursAt(hay[1..], needle, i) {
      assert hay[1..][i..i + |needle|] == hay[i + 1..i + 1 + |needle|];
      assert OccursAt(hay, needle, i + 1);
    }
  }

  /**
   * The comparison of `valid_file_mimetype`: the expected name, lower-cased,
   * is a substring of the identified file type, lower-cased.
   */
  function MimetypeMatches(expected: string, identified: string): (r: bool)
    ensures r ==> exists i: nat :: OccursAt(ToLower(identified), ToLower(expected), i)
    ensures (exists i: nat :: OccursAt(ToLower(identified), ToLower(expected), i)) ==> r
  {
    Contains(ToLower(identified), ToLower(expected))
  }

  lemma ToLowerIdempotent(s: string)
    ensures ToLower(ToLower(s)) == ToLower(s)
  {
  }

  /** Lower-casing either side first does not change the comparison. */
  lemma MimetypeMatchesIgnoresCase(expected: string, identified: string)
    ensures MimetypeMatches(ToLower(expected), identified) == MimetypeMatches(expected, identified)
    ensures MimetypeMatches(expected, ToLower(identified)) == MimetypeMatches(expected, identified)
  {
    ToLowerIdempotent(expected);
    ToLowerIdempotent(identified);
  }

  lemma LowerPdf()
    ensures ToLower("PDF") == "pdf"
  {
    var l := ToLower("PDF");
    assert l[0] == 'p' && l[1] == 'd' && l[2] == 'f';
  }

  /** A libmagic description that starts with `PDF` (as `PDF document, version 1.4` does) passes. */
  lemma MimetypeAcceptsPdfDescription(identified: string)
    requires |identified| >= 3 && identified[..3] == "PDF"
    ensures MimetypeMatches("PDF", identified)
  {
    LowerPdf();
    var l := ToLower(identified);
    assert l[0] == LowerChar(identified[0]) && identified[0] == 'P';
    assert l[1] == LowerChar(identified[1]) && identified[1] == 'D';
    assert l[2] == LowerChar(identified[2]) && identified[2] == 'F';
    assert l[0..3] == "pdf";
    assert OccursAt(l, "pdf", 0);
  }

  /** The `"JPEG"` description used by the tests does not pass. */
  lemma MimetypeRejectsJpeg()
    ensures !MimetypeMatches("PDF", "JPEG")
  {
    LowerPdf();
    var j := ToLower("JPEG");
    assert j[0] == 'j' && j[1] == 'p' && j[2] == 'e' && j[3] == 'g';
    forall i: nat
      ensures !OccursAt(j, "pdf", i)
    {
      if i + 3 <= 4 {
        assert j[i..i + 3][0] == j[i];
        assert j[i..i + 3][1] == j[i + 1];
      }
    }
  }

  /** `str.endswith` does not fold case: `X.PDF` is not a `.pdf` file name. */
  lemma ValidFileExtExamples()
    ensures ValidFileExt("report.pdf", ".pdf")
    ensures !ValidFileExt("X.PDF", ".pdf")
  {
    assert "report" + ".pdf" == "report.pdf";
  }

  /** The size bound is inclusive. */
  lemma ValidFileSizeBoundary(maxSize: int)
    ensures ValidFileSize(maxSize, maxSize)
    ensures !ValidFileSize(maxSize + 1, maxSize)
  {
  }

  /**
   * The uploaded file as the request hands it over: its client-side name,
   * the bytes of its stream, the length the request declared for it, and
   * the stream's read position.
   */
  class FileStorage {
    const filename: string
    const stream: seq<Byte>
    const contentLength: int
    var position: nat

    constructor (filename: string, stream: seq<Byte>, contentLength: int, position: nat)
      ensures this.filename == filename && this.stream == stream
      ensures this.contentLength == contentLength && this.position == position
    {
      this.filename := filename;
      this.stream := stream;
      this.contentLength := contentLength;
      this.position := position;
    }
  }

  /**
   * `valid_file_mimetype`: rewind, let `identify` (libmagic) read the whole
   * stream, rewind again so that a later save sees every byte, and compare.
   */
  method ValidFileMimetype(file: FileStorage, mimetype: string, identify: seq<Byte> -> string) returns (ok: bool)
    modifies file
    ensures file.position == 0
    ensures ok == MimetypeMatches(mimetype, identify(file.stream))
  {
    file.position := 0;
    var content := file.stream[file.position..];
    file.position := |file.stream|;
    var fileType := identify(content);
    file.position := 0;
    ok := MimetypeMatches(mimetype, fileType);
  }

  // ------------------------------------------------------------------
  // The record store
  // ------------------------------------------------------------------

  /** The outcome of a store operation: the boolean it returns and the table after it. */
  datatype Committed = Committed(ok: bool, records: map<string, PdfData>)

  /** `get_pdf_info_in_db`: point lookup by primary key. */
  function Get(records: map<string, PdfData>, id: string): (r: Option<PdfData>)
    ensures r.Some? <==> id in records
    ensures id in records ==> r.value == records[id]
    ensures WellKeyed(records) && r.Some? ==> r.value.id == id
  {
    if id in records then Some(records[id]) else None
  }

  /**
   * `insert_pdf_info_in_db`: the commit fails (and `False` comes back) when the
   * database raises (`dbFails`) or the primary key is taken; on success the
   * new row is visible under its id and no other row changes.
   */
  function Insert(records: map<string, PdfData>, fields: PdfFields, now: Timestamp, dbFails: bool): (r: Committed)
    ensures r.ok <==> !dbFails && fields.id !in records
    ensures r.ok ==> Get(r.records, fields.id) == Some(NewRecord(fields, now))
    ensures forall k :: k != fields.id ==> Get(r.records, k) == Get(records, k)
    ensures !r.ok ==> r.records == records
  {
    if dbFails || fields.id in records then Committed(false, records)
    else Committed(true, records[fields.id := NewRecord(fields, now)])
  }

  /**
   * `update_pdf_task_state_in_db` as it was evidently meant: an UPDATE of the
   * `state` column of the row with this id. It commits whether or not such a
   * row exists; it changes only that row, and only its state.
   */
  function UpdateState(records: map<string, PdfData>, id: string, state: string, dbFails: bool): (r: Committed)
    ensures r.ok <==> !dbFails
    ensures r.records.Keys == records.Keys
    ensures forall k :: k != id ==> Get(r.records, k) == Get(records, k)
    ensures r.ok && id in records ==> r.records[id] == records[id].(state := state)
    ensures !r.ok ==> r.records == records
  {
    if dbFails then Committed(false, records)
    else if id in records then Committed(true, records[id := records[id].(state := state)])
    else Committed(true, records)
  }

  /** The columns of the `metadata` table. */
  const ColumnNames: set<string> := {"id", "name", "data", "link", "state", "created_at"}
  /** The keyword `update_pdf_task_state_in_db` passes to `.values(...)`. */
  const TaskStateKeyword: string := "task_state"

  /**
   * `.values(<keyword>=value)` on the `metadata` table for the one column the
   * source updates: a keyword that names no column makes SQLAlchemy raise,
   * which the `except` turns into `False` with nothing written.
   */
  function UpdateByKeyword(records: map<string, PdfData>, id: string, keyword: string, value: string, dbFails: bool): (r: Committed)
    requires keyword == "state" || keyword !in ColumnNames
    ensures r.ok <==> keyword == "state" && !dbFails
    ensures r.records.Keys == records.Keys
    ensures forall k :: k != id ==> Get(r.records, k) == Get(records, k)
    ensures r.ok && id in records ==> r.records[id] == records[id].(state := value)
    ensures !r.ok ==> r.records == records
  {
    if keyword !in ColumnNames then Committed(false, records)
    else UpdateState(records, id, value, dbFails)
  }

  /**
   * `update_pdf_task_state_in_db` as written: it passes `task_state=state`.
   * `task_state` is not a column, so every call returns `False` and leaves
   * the table as it was, even for an existing row and a working database.
   */
  function UpdateTaskStateAsWritten(records: map<string, PdfData>, id: string, state: string, dbFails: bool): (r: Committed)
    ensures !r.ok && r.records == records
  {
    assert TaskStateKeyword !in ColumnNames by {
      assert TaskStateKeyword[0] == 't';
      assert |TaskStateKeyword| == 10;
    }
    UpdateByKeyword(records, id, TaskStateKeyword, state, dbFails)
  }

  /**
   * Where the two differ: for an existing row whose state is not already the
   * requested one, the update as written leaves the state, the corrected one
   * sets it.
   */
  lemma UpdateTaskStateAsWrittenDiffers(records: map<string, PdfData>, id: string, state: string)
    requires id in records && records[id].state != state
    ensures UpdateTaskStateAsWritten(records, id, state, false).records[id].state != state
    ensures UpdateByKeyword(records, id, "state", state, false).records[id].state == state
  {
  }

  /** The corrected update sets the state of an existing row when the database works. */
  lemma UpdateStateWrites(records: map<string, PdfData>, id: string, state: string)
    requires id in records
    ensures UpdateByKeyword(records, id, "state", state, false).ok
    ensures UpdateByKeyword(records, id, "state", state, false).records[id].state == state
  {
  }

  /**
   * `delete_pdf_in_db`: a DELETE of the row with this id. It commits (and
   * returns `True`) whether or not such a row exists; no other row changes.
   */
  function Delete(records: map<string, PdfData>, id: string, dbFails: bool): (r: Committed)
    ensures r.ok <==> !dbFails
    ensures r.ok ==> Get(r.records, id) == None
    ensures forall k :: k != id ==> Get(r.records, k) == Get(records, k)
    ensures !r.ok ==> r.records == records
  {
    if dbFails then Committed(false, records) else Committed(true, records - {id})
  }

  /** Deleting a row just inserted gives back the table as it was. */
  lemma DeleteUndoesInsert(records: map<string, PdfData>, fields: PdfFields, now: Timestamp)
    requires fields.id !in records
    ensures Delete(Insert(records, fields, now, false).records, fields.id, false).records == records
  {
    var after := Delete(Insert(records, fields, now, false).records, fields.id, false).records;
    assert after.Keys == records.Keys;
  }

  /** Every store operation keeps the primary-key invariant. */
  lemma StoreOperationsKeepKeys(records: map<string, PdfData>, fields: PdfFields, now: Timestamp, id: string, state: string, dbFails: bool)
    requires WellKeyed(records)
    ensures WellKeyed(Insert(records, fields, now, dbFails).records)
    ensures WellKeyed(UpdateState(records, id, state, dbFails).records)
    ensures WellKeyed(Delete(records, id, dbFails).records)
  {
  }

  /** The record store: the committed `metadata` table. */
  class Database {
    var records: map<string, PdfData>

    constructor (records: map<string, PdfData>)
      ensures this.records == records
    {
      this.records := records;
    }

    method InsertPdfInfo(fields: PdfFields, now: Timestamp, dbFails: bool) returns (ok: bool)
      modifies this
      ensures Committed(ok, records) == Insert(old(records), fields, now, dbFails)
    {
      if dbFails || fields.id in records {
        return false;
      }
      records := records[fields.id := NewRecord(fields, now)];
      ok := true;
    }

    function GetPdfInfo(id: string): Option<PdfData>
      reads this
    {
      Get(records, id)
    }

    /** The update as corrected: it writes the `state` column. */
    method UpdatePdfTaskState(id: string, state: string, dbFails: bool) returns (ok: bool)
      modifies this
      ensures Committed(ok, records) == UpdateState(old(records), id, state, dbFails)
    {
      if dbFails {
        return false;
      }
      if id in records {
        records := records[id := records[id].(state := state)];
      }
      ok := true;
    }

    method DeletePdf(id: string, dbFails: bool) returns (ok: bool)
      modifies this
      ensures Committed(ok, records) == Delete(old(records), id, dbFails)
    {
      if dbFails {
        return false;
      }
      records := records - {id};
      ok := true;
    }
  }

  // ------------------------------------------------------------------
  // Existence of a file
  // ------------------------------------------------------------------

  /**
   * `check_id`: `Some(b)` is the boolean it returns. Opening a missing path
   * gives `Some(false)`; any other failure to open (`openFails`) is not
   * caught and escapes, shown as `None`.
   */
  function CheckId(files: map<string, FileContent>, path: string, openFails: bool): (r: Option<bool>)
    ensures r == Some(true) <==> path in files && !openFails
    ensures r == Some(false) <==> path !in files
    ensures r.None? <==> path in files && openFails
  {
    if path !in files then Some(false)
    else if openFails then None
    else Some(true)
  }
}
