/**
 * What the controller promises, stated over the functions the endpoints are
 * proved against: the check cascade, the stores after a successful, a
 * partly failed and a rejected upload, what the read endpoints return for
 * an upload, and the primary-key invariant across all of them.
 */
module BalthAppProperties {
  import opened Wrappers
  import opened Model
  import opened Storage
  import opened Service
  import opened BalthApp

  // ------------------------------------------------------------------
  // The check cascade
  // ------------------------------------------------------------------

  /** One check of the cascade: whether it passes, and the response it gives when it does not. */
  datatype Check = Check(passes: bool, failure: Response)

  /** The checks of `upload_pdf`, in the order they run. */
  function Checks(upload: Option<UploadedFile>, identify: seq<Byte> -> string): seq<Check>
  {
    match upload
    case None => [Check(false, Response(422, ErrorBody(InvalidPayloadMessage)))]
    case Some(u) =>
      [ Check(true, Response(422, ErrorBody(InvalidPayloadMessage))),
        Check(FileProvided(u.filename), Response(400, ErrorBody(NoFileMessage))),
        Check(ValidFileExt(u.filename, PdfExt), Response(415, ErrorBody(InvalidExtMessage))),
        Check(MimetypeMatches(PdfMimetype, identify(u.stream)), Response(415, ErrorBody(InvalidTypeMessage))),
        Check(ValidFileSize(u.contentLength, MaxFileSize), Response(413, ErrorBody(TooLargeMessage))) ]
  }

  /** The response of the first check that fails, if any does. */
  function FirstFailure(checks: seq<Check>): (r: Option<Response>)
    ensures r.None? <==> forall i :: 0 <= i < |checks| ==> checks[i].passes
    ensures r.Some? ==>
      exists i :: 0 <= i < |checks| && !checks[i].passes && r.value == checks[i].failure
        && forall j :: 0 <= j < i ==> checks[j].passes
  {
    if checks == [] then None
    else if !checks[0].passes then Some(checks[0].failure)
    else
      var r := FirstFailure(checks[1..]);
      if r.Some? then
        var i :| 0 <= i < |checks[1..]| && !checks[1..][i].passes && r.value == checks[1..][i].failure
          && forall j :: 0 <= j < i ==> checks[1..][j].passes;
        assert !checks[i + 1].passes && forall j :: 0 <= j < i + 1 ==> checks[j].passes;
        r
      else
        r
  }

  /** The cascade of `upload_pdf` is exactly "the first failing check, in order, decides". */
  lemma CascadeIsFirstFailedCheck(upload: Option<UploadedFile>, identify: seq<Byte> -> string)
    ensures Rejection(upload, identify) == FirstFailure(Checks(upload, identify))
  {
    var cs := Checks(upload, identify);
    if upload.Some? {
      assert FirstFailure(cs) == FirstFailure(cs[1..]);
      if cs[1].passes {
        assert FirstFailure(cs[1..]) == FirstFailure(cs[2..]);
        if cs[2].passes {
          assert FirstFailure(cs[2..]) == FirstFailure(cs[3..]);
          if cs[3].passes {
            assert FirstFailure(cs[3..]) == FirstFailure(cs[4..]);
            if cs[4].passes {
              assert FirstFailure(cs[4..]) == FirstFailure(cs[5..]);
            }
          }
        }
      }
    }
  }

  /** Each status of the cascade, and the condition under which it is given. */
  lemma CascadeStatuses(upload: Option<UploadedFile>, identify: seq<Byte> -> string)
    ensures var r := Rejection(upload, identify);
      && (r == Some(Response(422, ErrorBody(InvalidPayloadMessage))) <==> upload.None?)
      && (r == Some(Response(400, ErrorBody(NoFileMessage))) <==> upload.Some? && upload.value.filename == "")
      && (r == Some(Response(415, ErrorBody(InvalidExtMessage))) <==>
            upload.Some? && upload.value.filename != "" && !ValidFileExt(upload.value.filename, ".pdf"))
      && (r == Some(Response(415, ErrorBody(InvalidTypeMessage))) <==>
            (upload.Some? && upload.value.filename != "" && ValidFileExt(upload.value.filename, ".pdf")
             && !MimetypeMatches("PDF", identify(upload.value.stream))))
      && (r == Some(Response(413, ErrorBody(TooLargeMessage))) <==>
            (upload.Some? && upload.value.filename != "" && ValidFileExt(upload.value.filename, ".pdf")
             && MimetypeMatches("PDF", identify(upload.value.stream)) && upload.value.contentLength > 10 * 1024 * 1024))
      && (r.None? <==>
            (upload.Some? && upload.value.filename != "" && ValidFileExt(upload.value.filename, ".pdf")
             && MimetypeMatches("PDF", identify(upload.value.stream)) && upload.value.contentLength <= 10 * 1024 * 1024))
  {
    assert InvalidExtMessage != InvalidTypeMessage by {
      assert InvalidExtMessage[13] == 'E' && InvalidTypeMessage[13] == 't';
    }
  }

  /** A rejected upload writes nothing: no record, no file. */
  lemma RejectedUploadChangesNothing(st: Stores, upload: Option<UploadedFile>, e: Environment)
    requires Rejection(upload, e.identify).Some?
    ensures UploadOutcome(st, upload, e).stores == st
    ensures UploadOutcome(st, upload, e).response.status in {400, 413, 415, 422}
  {
  }

  // ------------------------------------------------------------------
  // The upload once the checks pass
  // ------------------------------------------------------------------

  /** Once the checks pass, the outcome is the `try` block's, followed by the handler when it raised. */
  lemma AcceptedUpload(st: Stores, u: UploadedFile, e: Environment)
    requires Rejection(Some(u), e.identify).None?
    ensures var attempt := Treatment(st, u, e);
      UploadOutcome(st, Some(u), e)
        == if attempt.raised then Outcome(Response(500, ServerError), Rollback(attempt.stores, e.id, e.faults))
           else Outcome(Response(200, IdBody(e.id)), attempt.stores)
  {
  }

  /** The record a successful upload stores. */
  function StoredRecord(u: UploadedFile, e: Environment): PdfData
  {
    PdfData(e.id, e.sanitize(u.filename), e.extract(u.stream).metadata, TxtLink(e.urlRoot, e.id), SuccessState, e.now)
  }

  /**
   * An upload where nothing fails: the response carries the id; the record
   * `{id, sanitised name, metadata, link, 'SUCCESS'}` is stored; the text
   * file holds exactly the extracted text; the temporary PDF is gone; no
   * other record or file changes.
   */
  lemma UploadSucceeds(st: Stores, u: UploadedFile, e: Environment)
    requires Rejection(Some(u), e.identify).None?
    requires e.faults.raises.None? && !e.faults.insertFails
    requires e.id !in st.records
    ensures var out := UploadOutcome(st, Some(u), e);
      && out.response == Response(200, IdBody(e.id))
      && out.stores.records == st.records[e.id := StoredRecord(u, e)]
      && TxtPath(e.id) in out.stores.files && out.stores.files[TxtPath(e.id)] == Text(e.extract(u.stream).text)
      && PdfPath(e.id) !in out.stores.files
      && forall p :: p != PdfPath(e.id) && p != TxtPath(e.id) ==>
           (p in out.stores.files <==> p in st.files) && (p in st.files ==> out.stores.files[p] == st.files[p])
  {
    SuccessfulUploadRecords(st, u, e);
    SuccessfulUploadFiles(st, u, e);
  }

  lemma SuccessfulUploadRecords(st: Stores, u: UploadedFile, e: Environment)
    requires Rejection(Some(u), e.identify).None?
    requires e.faults.raises.None? && !e.faults.insertFails
    requires e.id !in st.records
    ensures UploadOutcome(st, Some(u), e).response == Response(200, IdBody(e.id))
    ensures UploadOutcome(st, Some(u), e).stores.records == st.records[e.id := StoredRecord(u, e)]
  {
    AcceptedUpload(st, u, e);
    TreatmentRunsThrough(st, u, e);
    TreatmentInsertsAfterExtraction(st, u, e);
    assert NewRecord(UploadFields(u, e), e.now) == StoredRecord(u, e);
  }

  /** The files after an upload whose `try` block ran through, whatever became of the insert. */
  lemma SuccessfulUploadFiles(st: Stores, u: UploadedFile, e: Environment)
    requires Rejection(Some(u), e.identify).None?
    requires e.faults.raises.None?
    ensures var files := UploadOutcome(st, Some(u), e).stores.files;
      && TxtPath(e.id) in files && files[TxtPath(e.id)] == Text(e.extract(u.stream).text)
      && PdfPath(e.id) !in files
      && forall p :: p != PdfPath(e.id) && p != TxtPath(e.id) ==>
           (p in files <==> p in st.files) && (p in st.files ==> files[p] == st.files[p])
  {
    AcceptedUpload(st, u, e);
    TreatmentRunsThrough(st, u, e);
    assert UploadOutcome(st, Some(u), e).stores == Treatment(st, u, e).stores;
    RunThroughFiles(st, u, e);
  }

  /** The files a `try` block that ran through leaves: only the text file is new, and the PDF is gone. */
  lemma RunThroughFiles(st: Stores, u: UploadedFile, e: Environment)
    requires e.faults.raises.None?
    ensures var files := Treatment(st, u, e).stores.files;
      && TxtPath(e.id) in files && files[TxtPath(e.id)] == Text(e.extract(u.stream).text)
      && PdfPath(e.id) !in files
      && forall p :: p != PdfPath(e.id) && p != TxtPath(e.id) ==>
           (p in files <==> p in st.files) && (p in st.files ==> files[p] == st.files[p])
  {
    var P, T, text := PdfPath(e.id), TxtPath(e.id), e.extract(u.stream).text;
    TreatmentRunsThrough(st, u, e);
    assert Treatment(st, u, e).stores.files == st.files[P := Binary(u.stream)][T := Text(text)] - {P};
    PdfPathIsNotTxtPath(e.id, e.id);
    WriteThenRemoveFrame(st.files, P, T, Binary(u.stream), Text(text));
  }

  /** Writing `removed` and `written`, then removing `removed`: only `written` is new, and nothing else moves. */
  lemma WriteThenRemoveFrame<K, V>(m: map<K, V>, removed: K, written: K, first: V, second: V)
    requires removed != written
    ensures var after := m[removed := first][written := second] - {removed};
      && written in after && after[written] == second
      && removed !in after
      && forall k :: k != removed && k != written ==> (k in after <==> k in m) && (k in m ==> after[k] == m[k])
  {
  }

  /**
   * `insert_pdf_info_in_db` reports a failed commit by returning `False`, and
   * `upload_pdf` ignores that result: the upload still answers 200 with the
   * id and writes the text file, while no record is stored.
   */
  lemma UploadIgnoresFailedInsert(st: Stores, u: UploadedFile, e: Environment)
    requires Rejection(Some(u), e.identify).None?
    requires e.faults.raises.None? && e.faults.insertFails
    ensures var out := UploadOutcome(st, Some(u), e);
      && out.response == Response(200, IdBody(e.id))
      && out.stores.records == st.records
      && TxtPath(e.id) in out.stores.files && out.stores.files[TxtPath(e.id)] == Text(e.extract(u.stream).text)
      && PdfPath(e.id) !in out.stores.files
  {
    AcceptedUpload(st, u, e);
    TreatmentRunsThrough(st, u, e);
    TreatmentInsertsAfterExtraction(st, u, e);
    SuccessfulUploadFiles(st, u, e);
  }

  /** The text file as the `try` block leaves it, before the handler runs. */
  lemma TreatmentTextFile(st: Stores, u: UploadedFile, e: Environment)
    requires e.faults.raises.Some?
    ensures var T, text := TxtPath(e.id), e.extract(u.stream).text;
      var files := Treatment(st, u, e).stores.files;
      && (e.faults.raises == Some(WriteText) ==> T in files && files[T] == Text(Prefix(text, e.faults.written)))
      && (e.faults.raises == Some(RemovePdf) ==> T in files && files[T] == Text(text))
      && (Rank(e.faults.raises.value) < Rank(WriteText) ==> (T in files <==> T in st.files))
      && (Rank(e.faults.raises.value) < Rank(WriteText) && T in st.files ==> files[T] == st.files[T])
  {
    TreatmentRaisesBeforeInsert(st, u, e);
    TreatmentRaisesAfterInsert(st, u, e);
    PdfPathIsNotTxtPath(e.id, e.id);
  }

  /** A handler that itself succeeds removes the PDF and the record, whichever existed. */
  lemma CleanRollback(st: Stores, id: string, faults: Faults)
    requires !faults.cleanupRemoveFails && !faults.cleanupDeleteFails
    ensures Rollback(st, id, faults) == Stores(st.records - {id}, st.files - {PdfPath(id)})
  {
    if id !in st.records {
      assert st.records - {id} == st.records;
    }
  }

  /** The `try` block adds at most the upload's own record to the table. */
  lemma TreatmentRecords(st: Stores, u: UploadedFile, e: Environment)
    requires e.id !in st.records
    ensures Treatment(st, u, e).stores.records - {e.id} == st.records
  {
    if Completed(e.faults.raises, ExtractData) {
      TreatmentInsertsAfterExtraction(st, u, e);
      FreshInsertRemoved(st.records, UploadFields(u, e), e.now, e.faults.insertFails);
    } else {
      TreatmentRaisesBeforeInsert(st, u, e);
      assert st.records - {e.id} == st.records;
    }
  }

  /** Taking the inserted key back out of the table leaves the table the insert started from. */
  lemma FreshInsertRemoved(records: map<string, PdfData>, fields: PdfFields, now: Timestamp, dbFails: bool)
    requires fields.id !in records
    ensures Insert(records, fields, now, dbFails).records - {fields.id} == records
  {
    if dbFails {
      assert records - {fields.id} == records;
    } else {
      assert records[fields.id := NewRecord(fields, now)] - {fields.id} == records;
    }
  }

  /**
   * An upload where a step of the `try` block raises and the handler itself
   * succeeds: the answer is 500, the temporary PDF is gone and the table is
   * as before; a text file already written stays with what was written, an
   * earlier raise leaves the text file as it was, and no other file changes.
   */
  lemma UploadRollsBack(st: Stores, u: UploadedFile, e: Environment)
    requires Rejection(Some(u), e.identify).None?
    requires e.faults.raises.Some? && !e.faults.cleanupRemoveFails && !e.faults.cleanupDeleteFails
    requires e.id !in st.records
    ensures var out := UploadOutcome(st, Some(u), e);
      && out.response == Response(500, ServerError)
      && out.stores.records == st.records
      && PdfPath(e.id) !in out.stores.files
    ensures var files, T, text := UploadOutcome(st, Some(u), e).stores.files, TxtPath(e.id), e.extract(u.stream).text;
      && (e.faults.raises == Some(WriteText) ==> T in files && files[T] == Text(Prefix(text, e.faults.written)))
      && (e.faults.raises == Some(RemovePdf) ==> T in files && files[T] == Text(text))
      && (Rank(e.faults.raises.value) < Rank(WriteText) ==> (T in files <==> T in st.files))
      && (Rank(e.faults.raises.value) < Rank(WriteText) && T in st.files ==> files[T] == st.files[T])
      && forall p :: p != PdfPath(e.id) && p != T ==>
           (p in files <==> p in st.files) && (p in st.files ==> files[p] == st.files[p])
  {
    var attempt := Treatment(st, u, e);
    AcceptedUpload(st, u, e);
    CleanRollback(attempt.stores, e.id, e.faults);
    TreatmentRecords(st, u, e);
    assert UploadOutcome(st, Some(u), e)
        == Outcome(Response(500, ServerError), Stores(st.records, attempt.stores.files - {PdfPath(e.id)}));
    RolledBackFiles(st, u, e);
  }

  /** The files once a raising `try` block is followed by the removal of the PDF. */
  lemma RolledBackFiles(st: Stores, u: UploadedFile, e: Environment)
    requires e.faults.raises.Some?
    ensures var files, T, text := Treatment(st, u, e).stores.files - {PdfPath(e.id)}, TxtPath(e.id), e.extract(u.stream).text;
      && (e.faults.raises == Some(WriteText) ==> T in files && files[T] == Text(Prefix(text, e.faults.written)))
      && (e.faults.raises == Some(RemovePdf) ==> T in files && files[T] == Text(text))
      && (Rank(e.faults.raises.value) < Rank(WriteText) ==> (T in files <==> T in st.files))
      && (Rank(e.faults.raises.value) < Rank(WriteText) && T in st.files ==> files[T] == st.files[T])
      && forall p :: p != PdfPath(e.id) && p != T ==>
           (p in files <==> p in st.files) && (p in st.files ==> files[p] == st.files[p])
  {
    TreatmentTextFile(st, u, e);
    TreatmentFrame(st, u, e);
    PdfPathIsNotTxtPath(e.id, e.id);
  }

  /** The `try` block touches only the upload's own PDF and text paths. */
  lemma TreatmentFrame(st: Stores, u: UploadedFile, e: Environment)
    ensures var files := Treatment(st, u, e).stores.files;
      forall p :: p != PdfPath(e.id) && p != TxtPath(e.id) ==>
        (p in files <==> p in st.files) && (p in st.files ==> files[p] == st.files[p])
  {
    var P, T, raises := PdfPath(e.id), TxtPath(e.id), e.faults.raises;
    var text := e.extract(u.stream).text;
    var withPdf :=
      if !Completed(raises, SavePdf) then st.files
      else if Completed(raises, RemovePdf) then st.files - {P}
      else st.files[P := Binary(u.stream)];
    assert forall p :: p != P ==> (p in withPdf <==> p in st.files) && (p in st.files ==> withPdf[p] == st.files[p]);
    var written :=
      if Completed(raises, WriteText) then Text(text) else Text(Prefix(text, e.faults.written));
    if Completed(raises, WriteText) || raises == Some(WriteText) {
      assert Treatment(st, u, e).stores.files == withPdf[T := written];
    } else {
      assert Treatment(st, u, e).stores.files == withPdf;
    }
  }

  /**
   * When a step after the insert raises and then the handler's own
   * `os.remove` raises, that exception escapes before the record is looked
   * at: the PDF and the inserted record are both left behind.
   */
  lemma FailedCleanupKeepsRecord(st: Stores, u: UploadedFile, e: Environment)
    requires Rejection(Some(u), e.identify).None?
    requires e.faults.raises.Some? && Rank(e.faults.raises.value) >= Rank(OpenText)
    requires e.faults.cleanupRemoveFails && !e.faults.insertFails
    requires e.id !in st.records
    ensures var out := UploadOutcome(st, Some(u), e);
      && out.response == Response(500, ServerError)
      && e.id in out.stores.records && out.stores.records[e.id] == StoredRecord(u, e)
      && PdfPath(e.id) in out.stores.files
  {
    var attempt := Treatment(st, u, e);
    AcceptedUpload(st, u, e);
    TreatmentInsertsAfterExtraction(st, u, e);
    TreatmentLeavesPdf(st, u, e);
    assert Rollback(attempt.stores, e.id, e.faults) == attempt.stores;
    assert NewRecord(UploadFields(u, e), e.now) == StoredRecord(u, e);
  }

  /** A step after the save raised before the final remove: the PDF is still there for the handler. */
  lemma TreatmentLeavesPdf(st: Stores, u: UploadedFile, e: Environment)
    requires e.faults.raises.Some? && Rank(e.faults.raises.value) >= Rank(ExtractData)
    ensures PdfPath(e.id) in Treatment(st, u, e).stores.files
  {
    var raises := e.faults.raises;
    assert Completed(raises, SavePdf) && !Completed(raises, RemovePdf);
    PdfPathIsNotTxtPath(e.id, e.id);
  }

  /** No outcome of an upload breaks the primary-key invariant. */
  lemma UploadKeepsKeys(st: Stores, upload: Option<UploadedFile>, e: Environment)
    requires WellKeyed(st.records)
    ensures WellKeyed(UploadOutcome(st, upload, e).stores.records)
  {
    if Rejection(upload, e.identify).None? {
      var u := upload.value;
      AcceptedUpload(st, u, e);
      TreatmentKeepsKeys(st, u, e);
      RollbackKeepsKeys(Treatment(st, u, e).stores, e.id, e.faults);
    }
  }

  lemma TreatmentKeepsKeys(st: Stores, u: UploadedFile, e: Environment)
    requires WellKeyed(st.records)
    ensures WellKeyed(Treatment(st, u, e).stores.records)
  {
    StoreOperationsKeepKeys(st.records, UploadFields(u, e), e.now, e.id, "", e.faults.insertFails);
    if Completed(e.faults.raises, ExtractData) {
      TreatmentInsertsAfterExtraction(st, u, e);
    } else {
      TreatmentRaisesBeforeInsert(st, u, e);
    }
  }

  lemma RollbackKeepsKeys(st: Stores, id: string, faults: Faults)
    requires WellKeyed(st.records)
    ensures WellKeyed(Rollback(st, id, faults).records)
  {
    StoreOperationsKeepKeys(st.records, PdfFields(id, None, None, None, None), "", id, "", faults.cleanupDeleteFails);
  }

  // ------------------------------------------------------------------
  // Ids and paths
  // ------------------------------------------------------------------

  /** The text form of a `uuid4`: lower-case hexadecimal digits and hyphens. */
  predicate IsUuidText(s: string)
  {
    forall i :: 0 <= i < |s| ==> IsUuidChar(s[i])
  }

  predicate IsUuidChar(c: char)
  {
    '0' <= c <= '9' || 'a' <= c <= 'f' || c == '-'
  }

  /** `markupsafe.escape` leaves the text of a `uuid4` as it is. */
  lemma EscapeKeepsUuid(id: string)
    requires IsUuidText(id)
    ensures Escape(id) == id
  {
    forall i | 0 <= i < |id|
      ensures !IsSpecial(id[i])
    {
      assert IsUuidChar(id[i]);
    }
  }

  /** For an id that is not an absolute path, the two paths are the folder, a separator, the id and the extension. */
  lemma PathShapes(id: string)
    requires |id| == 0 || id[0] != '/'
    ensures PdfPath(id) == "storage/temp/" + id + ".pdf"
    ensures TxtPath(id) == "storage/files/" + id + ".txt"
  {
    assert (id + PdfExt)[..0] == id[..0];
    if |id| > 0 {
      assert (id + PdfExt)[0] == id[0];
      assert (id + TxtExt)[0] == id[0];
    }
  }

  /** Under a request root that ends in `/`, the link is the root followed by the text path. */
  lemma LinkShape(urlRoot: string, id: string)
    requires |urlRoot| > 0 && urlRoot[|urlRoot| - 1] == '/'
    requires |id| == 0 || id[0] != '/'
    ensures TxtLink(urlRoot, id) == urlRoot + "storage/files/" + id + ".txt"
  {
    PathShapes(id);
    var t := "storage/files/" + id + ".txt";
    assert t[0] == 's';
    JoinUnderDirectory(urlRoot, t);
    AppendRegroups(urlRoot, "storage/files/", id, ".txt");
  }

  lemma AppendRegroups(a: string, b: string, c: string, d: string)
    ensures a + (b + c + d) == a + b + c + d
  {
  }

  /** A relative name joined to a directory that ends in a separator is appended as it is. */
  lemma JoinUnderDirectory(dir: string, name: string)
    requires |dir| > 0 && dir[|dir| - 1] == '/'
    requires |name| > 0 && name[0] != '/'
    ensures Join(dir, name) == dir + name
  {
  }

  /** Distinct ids never share a temporary PDF path. */
  lemma PdfPathInjective(a: string, b: string)
    requires PdfPath(a) == PdfPath(b)
    ensures a == b
  {
    var x, y := a + PdfExt, b + PdfExt;
    if (x[0] == '/') != (y[0] == '/') {
      assert false;
    } else if x[0] == '/' {
      assert x == y;
      assert a == x[..|x| - 4] && b == y[..|y| - 4];
    } else {
      assert x == (PdfFolderPath + "/" + x)[13..];
      assert y == (PdfFolderPath + "/" + y)[13..];
      assert a == x[..|x| - 4] && b == y[..|y| - 4];
    }
  }


  /** Distinct ids never share a text path. */
  lemma TxtPathInjective(a: string, b: string)
    requires TxtPath(a) == TxtPath(b)
    ensures a == b
  {
    var x, y := a + TxtExt, b + TxtExt;
    if (x[0] == '/') != (y[0] == '/') {
      assert false;
    } else if x[0] == '/' {
      assert x == y;
      assert a == x[..|x| - 4] && b == y[..|y| - 4];
    } else {
      assert x == (TxtFolderPath + "/" + x)[14..];
      assert y == (TxtFolderPath + "/" + y)[14..];
      assert a == x[..|x| - 4] && b == y[..|y| - 4];
    }
  }


  // ------------------------------------------------------------------
  // The read endpoints
  // ------------------------------------------------------------------

  /**
   * `get_info` answers 500 with the table unchanged when the lookup raises;
   * otherwise 200 with the record's view (without its state) when a record
   * exists for the escaped id, and 204 otherwise. It never adds or removes a
   * record, and changes at most that record's state.
   */
  lemma GetInfoOutcomes(records: map<string, PdfData>, pdfId: string, lookupFails: bool, updateFails: bool)
    ensures var (response, after) := InfoOutcome(records, pdfId, lookupFails, updateFails);
      var id := Escape(pdfId);
      && after.Keys == records.Keys
      && (lookupFails ==> response == Response(500, ServerError) && after == records)
      && (!lookupFails && id in records ==> response == Response(200, InfoBody(ViewOf(records[id]))))
      && (!lookupFails && id !in records ==> response == Response(204, ErrorBody(PdfNotFoundMessage)) && after == records)
      && (forall k :: k in records && k != id ==> after[k] == records[k])
      && (id in records ==> after[id] == if lookupFails || updateFails then records[id] else records[id].(state := ReadState))
  {
  }

  /** `get_info` keeps the primary-key invariant. */
  lemma GetInfoKeepsKeys(records: map<string, PdfData>, pdfId: string, lookupFails: bool, updateFails: bool)
    requires WellKeyed(records)
    ensures WellKeyed(InfoOutcome(records, pdfId, lookupFails, updateFails).1)
  {
    StoreOperationsKeepKeys(records, PdfFields("", None, None, None, None), "", Escape(pdfId), ReadState, updateFails);
  }

  /**
   * After an upload that ran through, `get_text` with the returned id sends
   * exactly the extracted text, whether or not the record was stored.
   */
  lemma UploadThenGetText(st: Stores, u: UploadedFile, e: Environment)
    requires Rejection(Some(u), e.identify).None? && e.faults.raises.None?
    requires IsUuidText(e.id)
    ensures TextOutcome(UploadOutcome(st, Some(u), e).stores.files, e.id, false)
         == Response(200, FileBody(Text(e.extract(u.stream).text)))
  {
    EscapeKeepsUuid(e.id);
    if e.faults.insertFails {
      UploadIgnoresFailedInsert(st, u, e);
    } else if e.id in st.records {
      TreatmentRunsThrough(st, u, e);
      PdfPathIsNotTxtPath(e.id, e.id);
    } else {
      UploadSucceeds(st, u, e);
    }
  }

  /** After a successful upload, a `get_info` whose lookup goes through shows the stored record for the returned id. */
  lemma UploadThenGetInfo(st: Stores, u: UploadedFile, e: Environment, updateFails: bool)
    requires Rejection(Some(u), e.identify).None?
    requires e.faults.raises.None? && !e.faults.insertFails
    requires e.id !in st.records && IsUuidText(e.id)
    ensures InfoOutcome(UploadOutcome(st, Some(u), e).stores.records, e.id, false, updateFails).0
         == Response(200, InfoBody(PdfView(e.id, e.sanitize(u.filename), TxtLink(e.urlRoot, e.id), e.extract(u.stream).metadata, e.now)))
  {
    EscapeKeepsUuid(e.id);
    UploadSucceeds(st, u, e);
  }

  /** After an upload that rolled back, a `get_info` whose lookup goes through finds nothing for its id. */
  lemma RolledBackUploadIsNotFound(st: Stores, u: UploadedFile, e: Environment, updateFails: bool)
    requires Rejection(Some(u), e.identify).None?
    requires e.faults.raises.Some? && !e.faults.cleanupRemoveFails && !e.faults.cleanupDeleteFails
    requires e.id !in st.records && IsUuidText(e.id)
    ensures InfoOutcome(UploadOutcome(st, Some(u), e).stores.records, e.id, false, updateFails).0
         == Response(204, ErrorBody(PdfNotFoundMessage))
  {
    EscapeKeepsUuid(e.id);
    UploadRollsBack(st, u, e);
  }
}
