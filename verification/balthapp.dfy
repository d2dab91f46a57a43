/**
 * The controller (balthapp/balthapp.py): the upload endpoint with its check
 * cascade, its store sequence and its rollback, and the two read endpoints.
 *
 * Each endpoint is a method over the record store (`Database`) and the
 * filesystem (`FileSystem`), proved against a function that gives its
 * response and the stores afterwards.
 */
module BalthApp {
  import opened Wrappers
  import opened Model
  import opened Storage
  import opened Service

  const MaxFileSizeMb: nat := 10
  const MaxFileSize: nat := MaxFileSizeMb * 1024 * 1024
  const PdfFolderPath: string := "storage/temp"
  const TxtFolderPath: string := "storage/files"
  const PdfExt: string := ".pdf"
  const TxtExt: string := ".txt"
  /** The form key the upload must use. */
  const PdfFileKey: string := "pdf_file"
  /** The name the identified file type must contain. */
  const PdfMimetype: string := "PDF"
  /** The state an upload stores its record with. */
  const SuccessState: string := "SUCCESS"
  /** The state `get_info` writes once a record has been read. */
  const ReadState: string := "GET"

  const InvalidPayloadMessage: string := "Invalid payload, only POST on 'pdf_file' key."
  const NoFileMessage: string := "No pdf file provided."
  const InvalidExtMessage: string := "Invalid file EXT. Please upload a '" + PdfExt + "' file."
  const InvalidTypeMessage: string := "Invalid file type. Please upload a PDF file."
  /** `str(MAX_FILE_SIZE_MB)` is `10`. */
  const TooLargeMessage: string := "File size exceeded the maximum limit (" + "10" + " mb)."
  const PdfNotFoundMessage: string := "PDF not found. Thanks to verify the id."
  const NoTextMessage: string := "Invalid ID ; No text file corresponding."

  // ------------------------------------------------------------------
  // Responses
  // ------------------------------------------------------------------

  /** What `get_info` shows of a record: every column but `state`. */
  datatype PdfView = PdfView(id: string, name: string, link: string, data: string, createdAt: Timestamp)

  datatype Body =
    | ErrorBody(error: string)
    | IdBody(id: string)
    | InfoBody(view: PdfView)
    | FileBody(content: FileContent)
      /** Flask's own error page: an exception escaped, or a body could not be serialised. */
    | ServerError

  datatype Response = Response(status: int, body: Body)

  function ViewOf(pdf: PdfData): PdfView
  {
    PdfView(pdf.id, pdf.name, pdf.link, pdf.data, pdf.createdAt)
  }

  // ------------------------------------------------------------------
  // Ids and paths
  // ------------------------------------------------------------------

  /** The characters `markupsafe.escape` replaces. */
  predicate IsSpecial(c: char)
  {
    c == '&' || c == '<' || c == '>' || c == '\'' || c == '"'
  }

  function EscapeChar(c: char): string
  {
    if c == '&' then "&amp;"
    else if c == '<' then "&lt;"
    else if c == '>' then "&gt;"
    else if c == '\'' then "&#39;"
    else if c == '"' then "&#34;"
    else [c]
  }

  /** `markupsafe.escape`, applied to the id taken from a URL; text without special characters comes back as it was. */
  function Escape(s: string): (r: string)
    ensures (forall i :: 0 <= i < |s| ==> !IsSpecial(s[i])) ==> r == s
  {
    if s == [] then [] else EscapeChar(s[0]) + Escape(s[1..])
  }

  /** Where an upload's PDF waits for extraction. */
  function PdfPath(id: string): string
  {
    Join(PdfFolderPath, id + PdfExt)
  }

  /** Where an upload's extracted text is kept. */
  function TxtPath(id: string): string
  {
    Join(TxtFolderPath, id + TxtExt)
  }

  /** The public link of the text file: the request root joined with its path. */
  function TxtLink(urlRoot: string, id: string): string
  {
    Join(urlRoot, TxtPath(id))
  }

  /** A PDF path ends in `.pdf` and a text path in `.txt`, so the two never meet. */
  lemma PdfPathIsNotTxtPath(a: string, b: string)
    ensures PdfPath(a) != TxtPath(b)
  {
    var p, t := PdfPath(a), TxtPath(b);
    assert p[|p| - 1] == (a + PdfExt)[|a + PdfExt| - 1] == 'f';
    assert t[|t| - 1] == (b + TxtExt)[|b + TxtExt| - 1] == 't';
  }

  // ------------------------------------------------------------------
  // The upload: checks
  // ------------------------------------------------------------------

  /** The observable content of an uploaded file. */
  datatype UploadedFile = UploadedFile(filename: string, stream: seq<Byte>, contentLength: int)

  /** `request.files['pdf_file']`, or `None` when the key is missing. */
  function Requested(files: map<string, FileStorage>): Option<UploadedFile>
  {
    if PdfFileKey in files then
      var f := files[PdfFileKey];
      Some(UploadedFile(f.filename, f.stream, f.contentLength))
    else None
  }

  /** The check cascade of `upload_pdf`: the first check that fails gives the response; `None` lets the upload through. */
  function Rejection(upload: Option<UploadedFile>, identify: seq<Byte> -> string): Option<Response>
  {
    match upload
    case None => Some(Response(422, ErrorBody(InvalidPayloadMessage)))
    case Some(u) =>
      if !FileProvided(u.filename) then Some(Response(400, ErrorBody(NoFileMessage)))
      else if !ValidFileExt(u.filename, PdfExt) then Some(Response(415, ErrorBody(InvalidExtMessage)))
      else if !MimetypeMatches(PdfMimetype, identify(u.stream)) then Some(Response(415, ErrorBody(InvalidTypeMessage)))
      else if !ValidFileSize(u.contentLength, MaxFileSize) then Some(Response(413, ErrorBody(TooLargeMessage)))
      else None
  }

  // ------------------------------------------------------------------
  // The upload: storing, with failures as inputs
  // ------------------------------------------------------------------

  /** The steps of the `try` block that can raise, in the order they run. */
  datatype Step = SavePdf | ExtractData | OpenText | WriteText | RemovePdf

  function Rank(s: Step): nat
  {
    match s
    case SavePdf => 0
    case ExtractData => 1
    case OpenText => 2
    case WriteText => 3
    case RemovePdf => 4
  }

  /**
   * Which I/O fails during one upload: the step of the `try` block that raises
   * (if any); how many characters of the text reach the file when the write
   * raises; whether the insert's commit fails; whether the handler's own
   * `os.remove` raises; whether the handler's delete fails.
   */
  datatype Faults = Faults(
    raises: Option<Step>,
    written: nat,
    insertFails: bool,
    cleanupRemoveFails: bool,
    cleanupDeleteFails: bool)

  /** Step `s` ran to its end. */
  predicate Completed(raises: Option<Step>, s: Step)
  {
    raises.None? || Rank(s) < Rank(raises.value)
  }

  /** The metadata and text `extract_data` produces. */
  datatype Extraction = Extraction(metadata: string, text: string)

  /**
   * What the upload depends on besides the request: the fresh id (`uuid4`),
   * the request root, the store's clock, the file-name sanitiser
   * (`secure_filename`), the file-type identifier (libmagic), the extractor
   * (pdfminer and pdfrw, as a function of the saved bytes; `metadata` is
   * already `str(...)`), and the failures.
   */
  datatype Environment = Environment(
    id: string,
    urlRoot: string,
    now: Timestamp,
    sanitize: string -> string,
    identify: seq<Byte> -> string,
    extract: seq<Byte> -> Extraction,
    faults: Faults)

  /** The record store and the filesystem together. */
  datatype Stores = Stores(records: map<string, PdfData>, files: map<string, FileContent>)

  /** How the `try` block ended: whether it raised, and the stores it left. */
  datatype Attempt = Attempt(raised: bool, stores: Stores)

  function Prefix(text: string, n: nat): string
  {
    if n <= |text| then text[..n] else text
  }

  /** The record an upload asks the store to insert. */
  function UploadFields(u: UploadedFile, e: Environment): PdfFields
  {
    var extraction := e.extract(u.stream);
    PdfFields(e.id, Some(e.sanitize(u.filename)), Some(extraction.metadata), Some(TxtLink(e.urlRoot, e.id)), Some(SuccessState))
  }

  /**
   * The `try` block of `upload_pdf`, by how far it got: the PDF is there from
   * the save until the final remove; the insert is attempted once extraction
   * has succeeded; the text file holds the whole text once the write
   * completed, and what got written when the write itself raised.
   */
  function Treatment(st: Stores, u: UploadedFile, e: Environment): Attempt
  {
    var raises := e.faults.raises;
    var pdfPath := PdfPath(e.id);
    var txtPath := TxtPath(e.id);
    var text := e.extract(u.stream).text;
    var records :=
      if Completed(raises, ExtractData) then Insert(st.records, UploadFields(u, e), e.now, e.faults.insertFails).records
      else st.records;
    var withPdf :=
      if !Completed(raises, SavePdf) then st.files
      else if Completed(raises, RemovePdf) then st.files - {pdfPath}
      else st.files[pdfPath := Binary(u.stream)];
    var files :=
      if Completed(raises, WriteText) then withPdf[txtPath := Text(text)]
      else if raises == Some(WriteText) then withPdf[txtPath := Text(Prefix(text, e.faults.written))]
      else withPdf;
    Attempt(raises.Some?, Stores(records, files))
  }

  /**
   * The `except` handler: remove the PDF if it exists, then delete the record
   * if there is one. When its own `os.remove` raises, the exception escapes
   * and the record is left alone.
   */
  function Rollback(st: Stores, id: string, faults: Faults): Stores
  {
    var pdfPath := PdfPath(id);
    if pdfPath in st.files && faults.cleanupRemoveFails then st
    else
      var records := if id in st.records then Delete(st.records, id, faults.cleanupDeleteFails).records else st.records;
      Stores(records, st.files - {pdfPath})
  }

  datatype Outcome = Outcome(response: Response, stores: Stores)

  /** `upload_pdf`: the response and the stores afterwards. */
  function UploadOutcome(st: Stores, upload: Option<UploadedFile>, e: Environment): Outcome
  {
    match Rejection(upload, e.identify)
    case Some(response) => Outcome(response, st)
    case None =>
      var attempt := Treatment(st, upload.value, e);
      if attempt.raised then Outcome(Response(500, ServerError), Rollback(attempt.stores, e.id, e.faults))
      else Outcome(Response(200, IdBody(e.id)), attempt.stores)
  }

  /** Where the uploaded stream's read position ends up. */
  function PositionAfter(start: nat, u: UploadedFile, e: Environment): nat
  {
    if !FileProvided(u.filename) || !ValidFileExt(u.filename, PdfExt) then start
    else if Rejection(Some(u), e.identify).Some? || e.faults.raises == Some(SavePdf) then 0
    else |u.stream|
  }

  // ------------------------------------------------------------------
  // The read endpoints
  // ------------------------------------------------------------------

  /**
   * `get_info`: the response and the table afterwards. The lookup catches
   * nothing, so when it raises (`lookupFails`) the exception escapes as a 500.
   */
  function InfoOutcome(records: map<string, PdfData>, pdfId: string, lookupFails: bool, updateFails: bool): (Response, map<string, PdfData>)
  {
    var id := Escape(pdfId);
    if lookupFails then (Response(500, ServerError), records)
    else match Get(records, id)
    case None => (Response(204, ErrorBody(PdfNotFoundMessage)), records)
    case Some(pdf) => (Response(200, InfoBody(ViewOf(pdf))), UpdateState(records, id, ReadState, updateFails).records)
  }

  /** `get_text`: the response, which depends on the filesystem alone. */
  function TextOutcome(files: map<string, FileContent>, pdfId: string, openFails: bool): Response
  {
    var path := TxtPath(Escape(pdfId));
    match CheckId(files, path, openFails)
    case None => Response(500, ServerError)
    case Some(found) =>
      if found then Response(200, FileBody(files[path]))
      else Response(404, ErrorBody(NoTextMessage))
  }

  // ------------------------------------------------------------------
  // The endpoints
  // ------------------------------------------------------------------

  function StoresOf(db: Database, fs: FileSystem): Stores
    reads db, fs
  {
    Stores(db.records, fs.files)
  }

  /** The files after a successful save. */
  function Saved(st: Stores, u: UploadedFile, e: Environment): map<string, FileContent>
  {
    st.files[PdfPath(e.id) := Binary(u.stream)]
  }

  /** The table after the insert is attempted. */
  function Inserted(st: Stores, u: UploadedFile, e: Environment): map<string, PdfData>
  {
    Insert(st.records, UploadFields(u, e), e.now, e.faults.insertFails).records
  }

  /** `Treatment` step by step, in the order the `try` block runs: a step before the insert raises. */
  lemma TreatmentRaisesBeforeInsert(st: Stores, u: UploadedFile, e: Environment)
    ensures e.faults.raises == Some(SavePdf) ==> Treatment(st, u, e) == Attempt(true, st)
    ensures e.faults.raises == Some(ExtractData) ==> Treatment(st, u, e) == Attempt(true, Stores(st.records, Saved(st, u, e)))
  {
    var raises := e.faults.raises;
    if raises == Some(SavePdf) {
      assert !Completed(raises, SavePdf) && !Completed(raises, ExtractData) && !Completed(raises, WriteText);
    } else if raises == Some(ExtractData) {
      assert Completed(raises, SavePdf) && !Completed(raises, ExtractData) && !Completed(raises, WriteText) && !Completed(raises, RemovePdf);
    }
  }

  /** `Treatment` step by step: a step after the insert raises. */
  lemma TreatmentRaisesAfterInsert(st: Stores, u: UploadedFile, e: Environment)
    ensures var T, text := TxtPath(e.id), e.extract(u.stream).text;
      && (e.faults.raises == Some(OpenText) ==>
            Treatment(st, u, e) == Attempt(true, Stores(Inserted(st, u, e), Saved(st, u, e))))
      && (e.faults.raises == Some(WriteText) ==>
            Treatment(st, u, e) == Attempt(true, Stores(Inserted(st, u, e), Saved(st, u, e)[T := Text(Prefix(text, e.faults.written))])))
      && (e.faults.raises == Some(RemovePdf) ==>
            Treatment(st, u, e) == Attempt(true, Stores(Inserted(st, u, e), Saved(st, u, e)[T := Text(text)])))
  {
    var raises := e.faults.raises;
    if raises == Some(OpenText) || raises == Some(WriteText) {
      assert Completed(raises, SavePdf) && Completed(raises, ExtractData) && !Completed(raises, WriteText) && !Completed(raises, RemovePdf);
    } else if raises == Some(RemovePdf) {
      assert Completed(raises, SavePdf) && Completed(raises, ExtractData) && Completed(raises, WriteText) && !Completed(raises, RemovePdf);
    }
  }

  /** `Treatment` step by step: no step raises, and the PDF is removed after the text is written. */
  lemma TreatmentRunsThrough(st: Stores, u: UploadedFile, e: Environment)
    requires e.faults.raises.None?
    ensures !Treatment(st, u, e).raised
    ensures Treatment(st, u, e).stores.files
         == Saved(st, u, e)[TxtPath(e.id) := Text(e.extract(u.stream).text)] - {PdfPath(e.id)}
  {
    PdfPathIsNotTxtPath(e.id, e.id);
    RemoveThenUpdate(st.files, PdfPath(e.id), TxtPath(e.id), Binary(u.stream), Text(e.extract(u.stream).text));
  }

  /** Once extraction has succeeded the insert has been attempted, whatever happens later. */
  lemma TreatmentInsertsAfterExtraction(st: Stores, u: UploadedFile, e: Environment)
    requires Completed(e.faults.raises, ExtractData)
    ensures Treatment(st, u, e).stores.records == Inserted(st, u, e)
  {
  }

  /** Removing one key and writing another, in either order, when the keys differ. */
  lemma RemoveThenUpdate<K, V>(m: map<K, V>, removed: K, written: K, oldValue: V, newValue: V)
    requires removed != written
    ensures (m - {removed})[written := newValue] == m[removed := oldValue][written := newValue] - {removed}
  {
  }

  /** `POST /documents`. */
  method UploadPdf(db: Database, fs: FileSystem, files: map<string, FileStorage>, e: Environment) returns (response: Response)
    modifies db, fs, if PdfFileKey in files then {files[PdfFileKey]} else {}
    ensures Outcome(response, StoresOf(db, fs)) == UploadOutcome(old(StoresOf(db, fs)), Requested(files), e)
    ensures PdfFileKey in files ==>
      files[PdfFileKey].position == PositionAfter(old(files[PdfFileKey].position), Requested(files).value, e)
  {
    if PdfFileKey !in files {
      return Response(422, ErrorBody(InvalidPayloadMessage));
    }
    var pdfFile := files[PdfFileKey];
    if !FileProvided(pdfFile.filename) {
      return Response(400, ErrorBody(NoFileMessage));
    }
    if !ValidFileExt(pdfFile.filename, PdfExt) {
      return Response(415, ErrorBody(InvalidExtMessage));
    }
    var isPdf := ValidFileMimetype(pdfFile, PdfMimetype, e.identify);
    if !isPdf {
      return Response(415, ErrorBody(InvalidTypeMessage));
    }
    if !ValidFileSize(pdfFile.contentLength, MaxFileSize) {
      return Response(413, ErrorBody(TooLargeMessage));
    }
    var raised := StoreAndExtract(db, fs, pdfFile, e);
    if raised {
      RemoveUpload(db, fs, e.id, e.faults);
      return Response(500, ServerError);
    }
    response := Response(200, IdBody(e.id));
  }

  /** The `try` block of `upload_pdf`; `raised` tells whether a step raised. */
  method StoreAndExtract(db: Database, fs: FileSystem, pdfFile: FileStorage, e: Environment) returns (raised: bool)
    requires pdfFile.position == 0
    modifies db, fs, pdfFile
    ensures Attempt(raised, StoresOf(db, fs))
         == Treatment(old(StoresOf(db, fs)), UploadedFile(pdfFile.filename, pdfFile.stream, pdfFile.contentLength), e)
    ensures pdfFile.position == if e.faults.raises == Some(SavePdf) then 0 else |pdfFile.stream|
  {
    var pdfPath := PdfPath(e.id);
    var txtPath := TxtPath(e.id);
    var txtLink := TxtLink(e.urlRoot, e.id);
    ghost var st, u := old(StoresOf(db, fs)), UploadedFile(pdfFile.filename, pdfFile.stream, pdfFile.contentLength);
    var faults := e.faults;
    if faults.raises == Some(SavePdf) {
      TreatmentRaisesBeforeInsert(st, u, e);
      return true;
    }
    fs.files := fs.files[pdfPath := Binary(pdfFile.stream[pdfFile.position..])];
    pdfFile.position := |pdfFile.stream|;
    assert fs.files == Saved(st, u, e);
    if faults.raises == Some(ExtractData) {
      TreatmentRaisesBeforeInsert(st, u, e);
      return true;
    }
    var extraction := e.extract(fs.files[pdfPath].bytes);
    var dataToStore := PdfFields(e.id, Some(e.sanitize(pdfFile.filename)), Some(extraction.metadata), Some(txtLink), Some(SuccessState));
    assert dataToStore == UploadFields(u, e);
    var inserted := db.InsertPdfInfo(dataToStore, e.now, faults.insertFails);
    assert db.records == Inserted(st, u, e);
    if faults.raises == Some(OpenText) {
      TreatmentRaisesAfterInsert(st, u, e);
      return true;
    }
    if faults.raises == Some(WriteText) {
      fs.files := fs.files[txtPath := Text(Prefix(extraction.text, faults.written))];
      TreatmentRaisesAfterInsert(st, u, e);
      return true;
    }
    fs.files := fs.files[txtPath := Text(extraction.text)];
    if faults.raises == Some(RemovePdf) {
      TreatmentRaisesAfterInsert(st, u, e);
      return true;
    }
    fs.files := fs.files - {pdfPath};
    assert faults.raises.None? by {
      if faults.raises.Some? {
        match faults.raises.value
        case SavePdf =>
        case ExtractData =>
        case OpenText =>
        case WriteText =>
        case RemovePdf =>
      }
    }
    TreatmentRunsThrough(st, u, e);
    TreatmentInsertsAfterExtraction(st, u, e);
    raised := false;
  }

  /** The `except` handler of `upload_pdf`. */
  method RemoveUpload(db: Database, fs: FileSystem, id: string, faults: Faults)
    modifies db, fs
    ensures StoresOf(db, fs) == Rollback(old(StoresOf(db, fs)), id, faults)
  {
    var pdfPath := PdfPath(id);
    if pdfPath in fs.files {
      if faults.cleanupRemoveFails {
        return;
      }
      fs.files := fs.files - {pdfPath};
    }
    if db.GetPdfInfo(id).Some? {
      var deleted := db.DeletePdf(id, faults.cleanupDeleteFails);
    }
  }

  /** `GET /documents/<pdf_id>`. */
  method GetInfo(db: Database, pdfId: string, lookupFails: bool, updateFails: bool) returns (response: Response)
    modifies db
    ensures (response, db.records) == InfoOutcome(old(db.records), pdfId, lookupFails, updateFails)
  {
    var id := Escape(pdfId);
    if lookupFails {
      return Response(500, ServerError);
    }
    var pdf := db.GetPdfInfo(id);
    if pdf.Some? {
      var updated := db.UpdatePdfTaskState(id, ReadState, updateFails);
      var p := pdf.value;
      return Response(200, InfoBody(PdfView(p.id, p.name, p.link, p.data, p.createdAt)));
    }
    response := Response(204, ErrorBody(PdfNotFoundMessage));
  }

  /** `GET /text/<pdf_id>`: it reads the filesystem and nothing else, and changes nothing. */
  method GetText(fs: FileSystem, pdfId: string, openFails: bool) returns (response: Response)
    ensures response == TextOutcome(fs.files, pdfId, openFails)
    ensures response.status == 200 <==> TxtPath(Escape(pdfId)) in fs.files && !openFails
    ensures response.status == 404 <==> TxtPath(Escape(pdfId)) !in fs.files
    ensures response.status == 200 ==> response.body == FileBody(fs.files[TxtPath(Escape(pdfId))])
  {
    var txtPath := TxtPath(Escape(pdfId));
    var found := CheckId(fs.files, txtPath, openFails);
    if found.None? {
      return Response(500, ServerError);
    }
    if found.value {
      return Response(200, FileBody(fs.files[txtPath]));
    }
    response := Response(404, ErrorBody(NoTextMessage));
  }
}
