# balthapp: the document-job lifecycle, in Dafny

balthapp is a small Flask service that takes a PDF upload, extracts its text and
metadata, and keeps three stores:

- the `metadata` table, one row per document keyed by a `uuid4` id;
- a temporary folder `storage/temp` that holds the uploaded PDF while it is processed;
- a folder `storage/files` that holds the extracted text as `<id>.txt`.

The controller has three endpoints.

- `POST /documents` runs five checks on the upload. The first one that fails
  decides the status: 422, 400, 415, 415 or 413. Once all pass, the upload
  saves the PDF, extracts it and inserts the record with state `SUCCESS`. It
  then writes the text file and removes the PDF. If any of these steps raises,
  the handler removes the PDF and deletes the record, and the answer is 500.
- `GET /documents/<id>` returns a view of the record. It also tries to set the
  record's state to `GET`.
- `GET /text/<id>` sends the text file when it exists.

The insert, update and delete helpers of the record store never raise: each
one turns any exception into a `False` return. The lookup catches nothing, so
an error there escapes as a 500.

The model has six modules:

- `Model` (`model.dfy`): the `PdfData` row and how the store fills in column
  defaults.
- `Storage` (`storage.dfy`): the filesystem as a class holding a map from
  path to content, and `os.path.join`.
- `Service` (`service.dfy`): the upload checks, the mimetype comparison, and
  the record store. The store is a function per operation, plus a `Database`
  class whose methods update its `records` field and are proved equal to those
  functions. `check_id` is here too.
- `BalthApp` (`balthapp.dfy`): the three endpoints as methods over a
  `Database` and a `FileSystem`. Each method is proved equal to a function
  that states its outcome: `UploadOutcome`, `InfoOutcome` or `TextOutcome`.
- `BalthAppProperties` (`balthapp_properties.dfy`): what the controller
  promises, proved about those functions.
- `Wrappers`: the `Option` type.

The upload's I/O becomes inputs (an `Environment`):

- the fresh id;
- the request root;
- the store's clock;
- `secure_filename`, libmagic's identification and the extractor, each as a
  function;
- a `Faults` value. It says which step of the `try` block raises (if any), how
  much text reaches the file when the write raises, and whether the insert's
  commit or the handler's own remove or delete fails.

The controller extracts synchronously and stores `SUCCESS` at once. It
reconciles nothing, answers 204 for an unknown id in `get_info`, and leaves the
state out of its view.

## Model

| member | source | states |
|---|---|---|
| Model.NewRecord | balthapp/model.py:27-35 | the committed row keeps every supplied column; an omitted `name`, `data` or `link` becomes `'default'`, an omitted `state` becomes `'PENDING'`; `created_at` is the store's time, never the caller's |
| Service.StoreOperationsKeepKeys | balthapp/model.py:30 | `id` is the primary key: insert, update and delete each keep every row stored under its own id |
| Service.FileProvided | balthapp/service.py:71-74 | a file is provided exactly when its name is not empty |
| Service.ValidFileSize | balthapp/service.py:97-100 | the size check passes exactly when the declared length is at most the bound |
| Service.ValidFileExt | balthapp/service.py:90-94 | the extension check passes exactly when the file name is some stem followed by the extension |
| Service.ValidFileExtExamples | balthapp/service.py:90-94 | the check is case-sensitive: `report.pdf` passes and `X.PDF` fails against `.pdf` |
| Service.ValidFileSizeBoundary | balthapp/service.py:97-100 | a declared length equal to the bound is accepted, and one above it is rejected |
| Service.ToLower | balthapp/service.py:85 | lower-casing keeps the length and maps each character on its own |
| Service.Contains | balthapp/service.py:85 | Python's substring test holds exactly when the needle occurs at some index of the text |
| Service.MimetypeMatches | balthapp/service.py:85 | the comparison holds exactly when the lower-cased expected name occurs at some index of the lower-cased identified type |
| Service.MimetypeMatchesIgnoresCase | balthapp/service.py:85 | lower-casing the expected name or the identified type first does not change the comparison |
| Service.MimetypeAcceptsPdfDescription | balthapp/service.py:85 | any libmagic description starting with `PDF` passes the check for `'PDF'` |
| Service.MimetypeRejectsJpeg | balthapp/service.py:85 | the description `JPEG` fails the check for `'PDF'` |
| Service.ValidFileMimetype | balthapp/service.py:77-87 | the result is the case-insensitive substring test on what libmagic reports for the whole stream, and the stream is left at position 0 |
| Service.Get | balthapp/service.py:45-47 | the lookup by primary key finds a row exactly when one is stored under that id, returns that stored row, and under the key invariant the row carries the id |
| Service.Insert | balthapp/service.py:33-42 | returns True exactly when the database works and the id is new; then the row is visible under its id; otherwise the table is unchanged; no other row changes either way |
| Service.Database.InsertPdfInfo | balthapp/service.py:33-42 | the insert on the store object returns and commits what `Insert` says |
| Service.UpdateState | balthapp/service.py:50-57 | corrected update: returns True exactly when the database works; sets only the state of the row with this id; no row is added or removed; on failure nothing changes |
| Service.Database.UpdatePdfTaskState | balthapp/service.py:50-57 | the corrected update on the store object returns and commits what `UpdateState` says |
| Service.UpdateByKeyword | balthapp/service.py:53 | `.values(k=v)` on one row: returns True exactly when the keyword is `state` and the database works; no row is added or removed and no other row changes; on success the row's state is the new value; on failure, including a keyword that names no column, the table is unchanged |
| Service.UpdateTaskStateAsWritten | balthapp/service.py:50-57 | as written, with keyword `task_state`, every call returns False and leaves the table unchanged |
| Service.UpdateTaskStateAsWrittenDiffers | balthapp/service.py:50-57 | for an existing row whose state differs from the requested one, the update as written leaves the state while the `state` keyword sets it |
| Service.UpdateStateWrites | balthapp/service.py:50-57 | with the `state` keyword and a working database, the state of an existing row is set |
| Service.Delete | balthapp/service.py:60-67 | returns True exactly when the database works, even when no row has this id; the row is then gone; no other row changes; on failure nothing changes |
| Service.Database.DeletePdf | balthapp/service.py:60-67 | the delete on the store object returns and commits what `Delete` says |
| Service.DeleteUndoesInsert | balthapp/service.py:60-67 | deleting a row just inserted under a fresh id gives back the table as it was |
| Service.CheckId | balthapp/service.py:103-110 | True exactly when the file exists and opens; False exactly when it is missing; any other open error escapes |
| Storage.Join | balthapp/balthapp.py:70-72 | the joined path ends with the name; a relative name under a directory without a trailing separator is placed after one separator |
| BalthApp.Escape | balthapp/balthapp.py:109 | text without `& < > ' "` is returned unchanged |
| BalthApp.PdfPathIsNotTxtPath | balthapp/balthapp.py:70-71 | no temporary PDF path is ever a text path |
| BalthApp.TreatmentRaisesBeforeInsert | balthapp/balthapp.py:73-77 | when the save raises, nothing is written; when extraction raises, only the PDF is written |
| BalthApp.TreatmentRaisesAfterInsert | balthapp/balthapp.py:88-95 | when the open, the write or the remove raises, the insert has been attempted; the PDF is there; the text file holds nothing new, a prefix of the text, or all of it, respectively |
| BalthApp.TreatmentRunsThrough | balthapp/balthapp.py:73-95 | with no step raising, the files end as the previous files plus the text file and minus the PDF |
| BalthApp.UploadPdf | balthapp/balthapp.py:45-104 | the endpoint's response and both stores are exactly `UploadOutcome`; the upload's stream position ends where the checks and the save leave it |
| BalthApp.StoreAndExtract | balthapp/balthapp.py:73-95 | the step-by-step `try` block leaves the stores `Treatment` describes, and reports whether a step raised |
| BalthApp.RemoveUpload | balthapp/balthapp.py:96-102 | the `except` handler leaves the stores `Rollback` describes |
| BalthApp.GetInfo | balthapp/balthapp.py:107-126 | the endpoint's response and table are exactly `InfoOutcome`, including the 500 when the lookup raises |
| BalthApp.GetText | balthapp/balthapp.py:129-136 | reads only the filesystem: 200 with the file's contents exactly when the text file exists and opens, 404 exactly when it is missing |
| BalthAppProperties.FirstFailure | balthapp/balthapp.py:49-66 | the result is absent exactly when every check passes, and otherwise is the failure of a check that fails after all earlier ones passed |
| BalthAppProperties.CascadeIsFirstFailedCheck | balthapp/balthapp.py:49-66 | the cascade of `upload_pdf` is the first failing check, in the order key, name, extension, type, size |
| BalthAppProperties.CascadeStatuses | balthapp/balthapp.py:49-66 | each status and its exact condition: 422 missing key, 400 empty name, 415 wrong extension, 415 wrong type, 413 over 10 MiB, otherwise accepted |
| BalthAppProperties.RejectedUploadChangesNothing | balthapp/balthapp.py:49-69 | a rejected upload leaves both stores as they were and answers 400, 413, 415 or 422 |
| BalthAppProperties.UploadSucceeds | balthapp/balthapp.py:80-104 | with no failure and a fresh id: 200 with the id; the record `{id, sanitised name, metadata, link, SUCCESS}` is added; the text file holds exactly the text; the PDF is gone; no other record or file changes |
| BalthAppProperties.UploadIgnoresFailedInsert | balthapp/balthapp.py:88 | a failed commit of the insert is ignored: 200 with the id and the text file written, but no record stored |
| BalthAppProperties.TreatmentTextFile | balthapp/balthapp.py:91-92 | the text file after a raising `try` block: the prefix written when the write raised, the whole text when the remove raised; when a step before the write raised, present exactly when it was before and with the same contents |
| BalthAppProperties.CleanRollback | balthapp/balthapp.py:96-102 | a handler that succeeds removes this id's PDF and record, whichever existed, and nothing else |
| BalthAppProperties.UploadRollsBack | balthapp/balthapp.py:96-103 | when a step raises and the handler succeeds: 500, the table as before, no PDF; the text file holds the prefix written when the write raised and the whole text when the remove raised, and is as it was when an earlier step raised; no other file changes |
| BalthAppProperties.FailedCleanupKeepsRecord | balthapp/balthapp.py:96-99 | when the open, the write or the remove raised after a committed insert, and then the handler's own remove raises, that exception escapes: 500, with the PDF and the inserted record left behind |
| BalthAppProperties.UploadKeepsKeys | balthapp/model.py:30 | every upload outcome keeps each record stored under its own id |
| BalthAppProperties.EscapeKeepsUuid | balthapp/balthapp.py:109 | escaping the text of a `uuid4` changes nothing, so an id returned by an upload finds its record and file again |
| BalthAppProperties.PathShapes | balthapp/balthapp.py:34-37 | for a relative id, the temporary PDF is `storage/temp/<id>.pdf` and the text file `storage/files/<id>.txt` |
| BalthAppProperties.LinkShape | balthapp/balthapp.py:72 | under a request root ending in `/`, the link is the root followed by `storage/files/<id>.txt` |
| BalthAppProperties.PdfPathInjective | balthapp/balthapp.py:70 | distinct ids never share a temporary PDF path |
| BalthAppProperties.TxtPathInjective | balthapp/balthapp.py:71 | distinct ids never share a text path |
| BalthAppProperties.GetInfoOutcomes | balthapp/balthapp.py:107-126 | a lookup that raises gives 500 with the table unchanged; otherwise an existing record gives 200 with `_id, name, link, data, created_at` (no state) and an absent one gives 204 with the table unchanged; no record is added or removed; only this record's state can change, to `GET`, and only when the update commits |
| BalthAppProperties.GetInfoKeepsKeys | balthapp/balthapp.py:116 | the state update of `get_info` keeps each record under its own id |
| BalthAppProperties.UploadThenGetText | balthapp/balthapp.py:129-136 | after an upload that ran through, `get_text` with the returned id sends exactly the extracted text, whether or not the record was stored |
| BalthAppProperties.UploadThenGetInfo | balthapp/balthapp.py:107-124 | after a successful upload, a `get_info` whose lookup goes through shows, for the returned id, the stored name, link, metadata and time |
| BalthAppProperties.RolledBackUploadIsNotFound | balthapp/balthapp.py:125-126 | after an upload that rolled back cleanly, a `get_info` whose lookup goes through answers 204 for its id |

## Left out

- HTTP plumbing: the Flask routing, `request.files`, `send_file` headers and the welcome route are not modelled. The request's file map, the request root and the response status and body are values.
- `uuid4`, `secure_filename`, libmagic's `id_buffer` and the pdfminer and pdfrw extraction (`extract_data`, balthapp/service.py:114-119) are foreign code. They are inputs of the upload: an id and three functions.
- Database and filesystem mechanics are not modelled: the SQLAlchemy engine and session, sqlite, `create_all`, directories and permissions. The table is a map from id to row, and the filesystem is a map from path to content.
- Failures are inputs, not behaviour: which step raises, whether a commit fails, and whether the handler's own remove or delete fails.
- Service.ToLower: maps only the ASCII letters A–Z, where Python's `str.lower` also folds other Unicode letters. The one expected name used (`PDF`) is ASCII.
- BalthApp.Escape: models only the five characters `markupsafe.escape` replaces. The result's `Markup` type is not modelled.
- BalthApp.UploadPdf: a save that raises part-way is modelled as writing nothing. A write that raises part-way is modelled as leaving a prefix of the text.
- BalthApp.UploadPdf: `{"error": err}` cannot be serialised, and an exception escaping the handler is not caught. Both are modelled as a 500 with an unspecified server-error body, not the exact page Flask renders.
- BalthApp.RemoveUpload: the handler's `get_pdf_info_in_db` is assumed not to raise. An exception there would also give a 500 with the PDF already removed.
- Service.ValidFileMimetype: libmagic is a total function of the bytes. An exception it raises would escape `upload_pdf` as a 500 before any store is touched; that outcome is not modelled.
- Service.ValidFileSize: `content_length` is the length the request declares, taken as given. It is not related to the number of bytes in the stream.
- Model.NewRecord: a column passed explicitly as `None` (SQL NULL) is not modelled. The controller always supplies strings.
- `created_at` is a string stamp from the store's clock. Time zones and `str(datetime)` formatting are not modelled.
- Text files are strings and PDFs are byte sequences. The encoding used to write the text is not modelled.
- The Celery worker (balthworker/tasks.py), the HTTP client and its command line (balthclient) and the test module are not part of this model. The shown controller does not call any of them.
- The asynchronous reconciliation of states (PENDING, STARTED, SUCCESS, FAILURE) is not modelled, because no code in the controller performs it.
- Concurrent requests are not modelled; each endpoint runs alone.

## Findings

| source | as written | input that shows it | evidently intended | confidence | as-written member | corrected member |
|---|---|---|---|---|---|---|
| balthapp/service.py:53 | `update(PdfData).values(task_state=state)` names a keyword that is no column of `metadata`, whose column is `state` (balthapp/model.py:34). SQLAlchemy raises on it, and the `except` returns False. | `update_pdf_task_state_in_db(id, "GET")` for an existing id with a working database returns False, and the row keeps its state | set the `state` column of the row with this id | high; not executed | Service.UpdateTaskStateAsWritten | Service.UpdateStateWrites |

`get_info` in this model uses the corrected update, `Service.UpdateState`.
