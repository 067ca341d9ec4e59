/** The request-level rules of the HTTP endpoints in app/main.py: the upload
    of a PDF, the flattened document list and the file download. Storage and
    table calls act on the `Store` of the Records module; whether the
    storage upload and the row insert go through is given as a parameter:
    `None` when the call succeeds, the exception's message when it raises. */
module Api {
  import opened Common
  import Json
  import opened Records
  import Extraction
  import Ingestion

  const PdfSuffix: string := ".pdf"
  const DefaultFileName: string := "document.pdf"
  const PdfMediaType: string := "application/pdf"

  const BadRequest: int := 400
  const NotFoundStatus: int := 404
  const ServerError: int := 500

  const OnlyPdf: string := "Only PDF files allowed"
  const DocumentMissing: string := "Document not found"
  const FileMissing: string := "File not found in storage"
  /** The detail of the server error an uncaught exception becomes. */
  const Uncaught: string := "Internal Server Error"

  /** An `HTTPException`: status code and detail. */
  datatype HttpError = HttpError(code: int, detail: string)

  /** How a status is written in the `documents` table and in responses. */
  function StatusName(st: Status): (name: string)
    ensures name != []
  {
    match st
    case Processing => "processing"
    case Ready => "ready"
    case Failed => "failed"
  }

  // ----- Upload -----

  /** The body of a successful upload response. */
  datatype UploadReply = UploadReply(documentId: string, status: string)

  /** What an upload leaves behind: the store, the response, and the
      background job `process_document(document_id, file_path)` it
      schedules, if any. */
  datatype Upload = Upload(store: Store, response: Result<UploadReply, HttpError>, job: Option<(string, string)>)

  /** Where an upload is kept in the bucket: a folder named by the
      document id holding the file under its own name. */
  function StoragePath(docId: string, fileName: string): (path: string)
    ensures |path| == |docId| + 1 + |fileName|
  {
    docId + "/" + fileName
  }

  /** A path made from an id without a slash splits back into the id and
      the file name at its first slash. */
  lemma StoragePathSplits(docId: string, fileName: string)
    requires forall i :: 0 <= i < |docId| ==> docId[i] != '/'
    ensures var path := StoragePath(docId, fileName);
      && path[|docId|] == '/'
      && (forall i :: 0 <= i < |docId| ==> path[i] != '/')
      && path[..|docId|] == docId
      && path[|docId| + 1..] == fileName
  {
    var path := StoragePath(docId, fileName);
    assert path == (docId + "/") + fileName;
    assert path[..|docId|] == docId;
  }

  /** `upload_document`: a name without the `.pdf` suffix (compared with
      case) is refused before anything is stored; otherwise the bytes go
      to storage, then the document row is inserted in processing, then
      processing is scheduled. A failure of the upload or of the insert
      gives a server error, without undoing what was already done. */
  function UploadDocument(s: Store, docId: string, fileName: string, bytes: seq<Byte>, createdAt: string, uploadError: Option<string>, insertError: Option<string>)
    : (u: Upload)
    ensures !EndsWith(fileName, PdfSuffix) ==> u == Upload(s, Err(HttpError(BadRequest, OnlyPdf)), None)
    ensures u.response.Err? ==> u.job.None? && u.store.documents == s.documents
    ensures EndsWith(fileName, PdfSuffix) && uploadError.Some? ==> u == Upload(s, Err(HttpError(ServerError, uploadError.value)), None)
    ensures EndsWith(fileName, PdfSuffix) && uploadError.None? && insertError.Some? ==>
      && u.response == Err(HttpError(ServerError, insertError.value))
      && u.store == s.(files := s.files[StoragePath(docId, fileName) := bytes])
    ensures u.response.Ok? <==> EndsWith(fileName, PdfSuffix) && uploadError.None? && insertError.None?
    ensures u.response.Ok? ==>
      var path := StoragePath(docId, fileName);
      && u.response.value == UploadReply(docId, StatusName(Processing))
      && u.job == Some((docId, path))
      && u.store == s.(files := s.files[path := bytes],
                       documents := s.documents + [DocumentRow(docId, Some(fileName), path, Processing, createdAt)])
  {
    if !EndsWith(fileName, PdfSuffix) then Upload(s, Err(HttpError(BadRequest, OnlyPdf)), None)
    else
      var path := StoragePath(docId, fileName);
      if uploadError.Some? then Upload(s, Err(HttpError(ServerError, uploadError.value)), None)
      else
        var stored := s.(files := s.files[path := bytes]);
        if insertError.Some? then Upload(stored, Err(HttpError(ServerError, insertError.value)), None)
        else
          var row := DocumentRow(docId, Some(fileName), path, Processing, createdAt);
          Upload(stored.(documents := s.documents + [row]), Ok(UploadReply(docId, StatusName(Processing))), Some((docId, path)))
  }

  /** The suffix test is case-sensitive: an upper-case extension is
      refused. */
  lemma UpperCaseSuffixRefused(s: Store, docId: string, bytes: seq<Byte>, createdAt: string, uploadError: Option<string>, insertError: Option<string>)
    ensures UploadDocument(s, docId, "report.PDF", bytes, createdAt, uploadError, insertError).response == Err(HttpError(BadRequest, OnlyPdf))
  {
    assert !EndsWith("report.PDF", PdfSuffix) by {
      assert "report.PDF"[6..] != PdfSuffix by { assert "report.PDF"[6..][1] == 'P'; }
    }
  }

  /** An appended row is found under its id unless an earlier row has it. */
  lemma {:induction false} FindAppended(docs: seq<DocumentRow>, d: DocumentRow)
    requires FindDocument(docs, d.id).None?
    ensures FindDocument(docs + [d], d.id) == Some(d)
    decreases |docs|
  {
    if docs != [] {
      assert (docs + [d])[1..] == docs[1..] + [d];
      FindAppended(docs[1..], d);
    } else {
      assert docs + [d] == [d];
    }
  }

  /** A freshly uploaded document reads back in processing. */
  lemma UploadedIsProcessing(s: Store, docId: string, fileName: string, bytes: seq<Byte>, createdAt: string, uploadError: Option<string>, insertError: Option<string>)
    requires FindDocument(s.documents, docId).None?
    requires UploadDocument(s, docId, fileName, bytes, createdAt, uploadError, insertError).response.Ok?
    ensures StatusOf(UploadDocument(s, docId, fileName, bytes, createdAt, uploadError, insertError).store, docId) == Some(Processing)
  {
    var path := StoragePath(docId, fileName);
    FindAppended(s.documents, DocumentRow(docId, Some(fileName), path, Processing, createdAt));
  }

  /** The scheduled job always settles the fresh document: it ends ready
      when the run goes through and failed otherwise, never left in
      processing. */
  lemma UploadedDocumentSettles(s: Store, docId: string, fileName: string, bytes: seq<Byte>, createdAt: string, uploadError: Option<string>, insertError: Option<string>, o: Ingestion.Oracles)
    requires FindDocument(s.documents, docId).None?
    requires UploadDocument(s, docId, fileName, bytes, createdAt, uploadError, insertError).response.Ok?
    ensures var u := UploadDocument(s, docId, fileName, bytes, createdAt, uploadError, insertError);
      var path := StoragePath(docId, fileName);
      StatusOf(Ingestion.ProcessDocument(u.store, docId, path, o), docId)
        == Some(if Ingestion.RunSucceeds(u.store, docId, path, o) then Ready else Failed)
  {
    var u := UploadDocument(s, docId, fileName, bytes, createdAt, uploadError, insertError);
    UploadedIsProcessing(s, docId, fileName, bytes, createdAt, uploadError, insertError);
    Ingestion.RunOutcome(u.store, docId, StoragePath(docId, fileName), o);
  }

  // ----- Document list -----

  /** The embedded `extracted_metrics` of a fetched document: null, a
      list of rows, or a single object. */
  datatype Embedded = NoMetrics | MetricsList(items: seq<Json.Value>) | MetricsObject(fields: seq<(string, Json.Value)>)

  /** A row of the `documents` query with its embedded metrics. */
  datatype FetchedDocument = FetchedDocument(id: string, fileName: Option<string>, status: Status, createdAt: string, metrics: Embedded)

  /** A row of the list response: the document columns, then the eight
      metric columns in schema order. */
  datatype ListedDocument = ListedDocument(id: string, fileName: Option<string>, status: string, createdAt: string, metrics: seq<(string, Json.Value)>)

  datatype ListError = MetricsUnreadable

  /** Python truthiness of the embedded value. */
  predicate Truthy(e: Embedded) {
    match e
    case NoMetrics => false
    case MetricsList(items) => items != []
    case MetricsObject(fields) => fields != []
  }

  /** `metrics[0]` and `.get` succeed: the value is empty, or a list whose
      first element is an object. Indexing a non-empty object by 0 and
      calling `.get` on a non-object raise. */
  predicate Readable(e: Embedded) {
    !Truthy(e) || (e.MetricsList? && e.items[0].Object?)
  }

  /** `metrics[0] if metrics else {}`, as a dictionary. */
  function FirstMetrics(e: Embedded): (m: map<string, Json.Value>)
    requires Readable(e)
    ensures !Truthy(e) ==> m == map[]
  {
    if Truthy(e) then Json.ToMap(e.items[0].fields) else map[]
  }

  /** The output row for one fetched document. */
  function Flatten(d: FetchedDocument): (r: Result<ListedDocument, ListError>)
    ensures r.Ok? <==> Readable(d.metrics)
    ensures r.Ok? ==>
      && r.value.id == d.id && r.value.fileName == d.fileName
      && r.value.status == StatusName(d.status) && r.value.createdAt == d.createdAt
      && Json.Keys(r.value.metrics) == Extraction.MetricKeys
  {
    if !Readable(d.metrics) then Err(MetricsUnreadable)
    else
      var m := FirstMetrics(d.metrics);
      var ks := Extraction.MetricKeys;
      Ok(ListedDocument(d.id, d.fileName, StatusName(d.status), d.createdAt,
        seq(|ks|, j requires 0 <= j < |ks| => (ks[j], Json.Get(m, ks[j])))))
  }

  /** The metric columns come from the first joined row, and are all null
      when there is none; the risk summary is never listed. */
  lemma FlattenMetrics(d: FetchedDocument)
    requires Readable(d.metrics)
    ensures var ms := Flatten(d).value.metrics;
      && Extraction.RiskKey !in Json.Keys(ms)
      && (!Truthy(d.metrics) ==> forall j :: 0 <= j < |ms| ==> ms[j].1 == Json.Null)
      && (Truthy(d.metrics) ==>
            forall j :: 0 <= j < |ms| ==> ms[j].1 == Json.Get(Json.ToMap(d.metrics.items[0].fields), ms[j].0))
  {
    var ms := Flatten(d).value.metrics;
    assert Json.Keys(ms) == Extraction.MetricKeys;
    assert Extraction.RiskKey !in Extraction.MetricKeys;
  }

  /** `list_documents`: one output row per fetched row, in the fetched
      order; an unreadable metrics value raises, failing the request. */
  function ListDocuments(rows: seq<FetchedDocument>): (r: Result<seq<ListedDocument>, ListError>)
    ensures r.Ok? <==> forall i :: 0 <= i < |rows| ==> Readable(rows[i].metrics)
    ensures r.Ok? ==> |r.value| == |rows| && forall i :: 0 <= i < |rows| ==> Flatten(rows[i]) == Ok(r.value[i])
    decreases |rows|
  {
    if rows == [] then Ok([])
    else
      match Flatten(rows[0])
      case Err(e) => Err(e)
      case Ok(d) =>
        match ListDocuments(rows[1..])
        case Err(e) => Err(e)
        case Ok(ds) => Ok([d] + ds)
  }

  // ----- File download -----

  /** The response serving a stored file inline. */
  datatype FileResponse = FileResponse(content: seq<Byte>, mediaType: string, disposition: string)

  /** The name a file is served under: the stored name, or the default
      when the name is null or empty. */
  function ServedName(fileName: Option<string>): (name: string)
    ensures name != []
    ensures fileName.Some? && fileName.value != [] ==> name == fileName.value
    ensures fileName.None? || fileName.value == [] ==> name == DefaultFileName
  {
    match fileName
    case Some(n) => if n == [] then DefaultFileName else n
    case None => DefaultFileName
  }

  function Disposition(name: string): string {
    "inline; filename=\"" + name + "\""
  }

  /** The served name sits between the header's opening quote and its
      last character, a quote. It reads back as the text between the
      first two quotes exactly when it has no quote of its own: a quote in
      the stored name closes the header's value early. */
  lemma DispositionNameReadsBack(name: string)
    ensures var h := Disposition(name);
      && StartsWith(h, "inline; filename=\"")
      && h[17] == '"' && (forall k :: 0 <= k < 17 ==> h[k] != '"')
      && h[|h| - 1] == '"'
      && h[18..|h| - 1] == name
      && ((forall k :: 0 <= k < |name| ==> name[k] != '"') <==> (forall k :: 18 <= k < |h| - 1 ==> h[k] != '"'))
  {
    var h := Disposition(name);
    var prefix := "inline; filename=\"";
    assert h == prefix + name + "\"";
    assert |prefix| == 18;
    assert h[..18] == prefix;
    forall k | 0 <= k < 17 ensures h[k] != '"' {
      assert h[k] == prefix[k];
    }
    assert h[18..|h| - 1] == name;
    forall k | 0 <= k < |name| ensures h[18 + k] == name[k] { }
  }

  /** `get_document_file`: 404 without a document row; then the storage
      download, whose exception (`downloadRaises`) is not caught and so
      ends the request with a server error; 404 when it gives no bytes;
      otherwise the bytes served as a PDF. */
  function GetDocumentFile(s: Store, docId: string, downloadRaises: bool): (r: Result<FileResponse, HttpError>)
    ensures FindDocument(s.documents, docId).None? ==> r == Err(HttpError(NotFoundStatus, DocumentMissing))
    ensures FindDocument(s.documents, docId).Some? ==>
      var d := FindDocument(s.documents, docId).value;
      && (downloadRaises ==> r == Err(HttpError(ServerError, Uncaught)))
      && (!downloadRaises && d.filePath !in s.files ==> r == Err(HttpError(NotFoundStatus, FileMissing)))
      && (!downloadRaises && d.filePath in s.files ==>
            r == Ok(FileResponse(s.files[d.filePath], PdfMediaType, Disposition(ServedName(d.fileName)))))
    ensures r.Err? && r.error.code != NotFoundStatus ==> downloadRaises && r.error.code == ServerError
  {
    match FindDocument(s.documents, docId)
    case None => Err(HttpError(NotFoundStatus, DocumentMissing))
    case Some(d) =>
      var name := ServedName(d.fileName);
      if downloadRaises then Err(HttpError(ServerError, Uncaught))
      else if d.filePath !in s.files then Err(HttpError(NotFoundStatus, FileMissing))
      else Ok(FileResponse(s.files[d.filePath], PdfMediaType, Disposition(name)))
  }

  /** A freshly uploaded file downloads back unchanged, under its name. */
  lemma UploadThenDownload(s: Store, docId: string, fileName: string, bytes: seq<Byte>, createdAt: string, uploadError: Option<string>, insertError: Option<string>)
    requires FindDocument(s.documents, docId).None?
    requires UploadDocument(s, docId, fileName, bytes, createdAt, uploadError, insertError).response.Ok?
    ensures GetDocumentFile(UploadDocument(s, docId, fileName, bytes, createdAt, uploadError, insertError).store, docId, false)
         == Ok(FileResponse(bytes, PdfMediaType, Disposition(fileName)))
  {
    var path := StoragePath(docId, fileName);
    FindAppended(s.documents, DocumentRow(docId, Some(fileName), path, Processing, createdAt));
  }
}
