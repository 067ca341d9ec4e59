/** The persistent state the service works on: the `documents` storage
    bucket and the `documents`, `document_pages`, `document_chunks` and
    `extracted_metrics` tables, as immutable values. Inserts append a row;
    the status update touches every document row with the given id. */
module Records {
  import opened Common
  import Json

  datatype Status = Processing | Ready | Failed

  /** A row of `documents`. The file name column may be null. */
  datatype DocumentRow = DocumentRow(id: string, fileName: Option<string>, filePath: string, status: Status, createdAt: string)

  /** A row of `document_pages`: a page's cleaned text and its 1-based
      number. */
  datatype PageRow = PageRow(documentId: string, pageNumber: int, rawText: string)

  /** A row of `document_chunks`: a window of a page's text with its
      embedding. */
  datatype ChunkRow = ChunkRow(documentId: string, pageNumber: int, content: string, embedding: Embedding)

  /** A row of `extracted_metrics`, column name to value. */
  type MetricsRow = map<string, Json.Value>

  datatype Store = Store(
    files: map<string, seq<Byte>>,
    documents: seq<DocumentRow>,
    pages: seq<PageRow>,
    chunks: seq<ChunkRow>,
    metrics: seq<MetricsRow>)

  /** The first document row with the given id. */
  function FindDocument(docs: seq<DocumentRow>, id: string): (r: Option<DocumentRow>)
    ensures r.None? <==> forall i :: 0 <= i < |docs| ==> docs[i].id != id
    ensures r.Some? ==> r.value in docs && r.value.id == id
    decreases |docs|
  {
    if docs == [] then None
    else if docs[0].id == id then Some(docs[0])
    else FindDocument(docs[1..], id)
  }

  /** The status of the document with the given id, if it has a row. */
  function StatusOf(s: Store, id: string): (st: Option<Status>)
    ensures st.None? <==> FindDocument(s.documents, id).None?
  {
    match FindDocument(s.documents, id)
    case None => None
    case Some(d) => Some(d.status)
  }

  /** `update({"status": st}).eq("id", id)` on a list of rows. */
  function SetRowsStatus(docs: seq<DocumentRow>, id: string, st: Status): (r: seq<DocumentRow>)
    ensures |r| == |docs|
    ensures forall i :: 0 <= i < |docs| ==> r[i].id == docs[i].id
    ensures forall i :: 0 <= i < |docs| && docs[i].id != id ==> r[i] == docs[i]
    ensures forall i :: 0 <= i < |docs| && docs[i].id == id ==> r[i] == docs[i].(status := st)
    decreases |docs|
  {
    if docs == [] then []
    else
      var d := if docs[0].id == id then docs[0].(status := st) else docs[0];
      [d] + SetRowsStatus(docs[1..], id, st)
  }

  /** The status update: only the rows of `id` change, and only in their
      status; the other tables are left alone. */
  function SetStatus(s: Store, id: string, st: Status): (r: Store)
    ensures r.files == s.files && r.pages == s.pages && r.chunks == s.chunks && r.metrics == s.metrics
    ensures |r.documents| == |s.documents|
  {
    s.(documents := SetRowsStatus(s.documents, id, st))
  }

  /** After the update the document reads back with the new status, and
      every other document keeps its own. */
  lemma {:induction false} StatusAfterSet(docs: seq<DocumentRow>, id: string, st: Status, other: string)
    ensures FindDocument(SetRowsStatus(docs, id, st), id)
         == (match FindDocument(docs, id) case None => None case Some(d) => Some(d.(status := st)))
    ensures other != id ==> FindDocument(SetRowsStatus(docs, id, st), other) == FindDocument(docs, other)
    decreases |docs|
  {
    if docs != [] {
      StatusAfterSet(docs[1..], id, st, other);
      assert SetRowsStatus(docs, id, st)[1..] == SetRowsStatus(docs[1..], id, st);
    }
  }

  lemma SetStatusThenStatusOf(s: Store, id: string, st: Status, other: string)
    ensures StatusOf(SetStatus(s, id, st), id) == if StatusOf(s, id).None? then None else Some(st)
    ensures other != id ==> StatusOf(SetStatus(s, id, st), other) == StatusOf(s, other)
  {
    StatusAfterSet(s.documents, id, st, other);
  }

  /** `a` is the start of `b`: rows already in a table stay in place. */
  predicate IsPrefix<T(==)>(a: seq<T>, b: seq<T>) {
    |a| <= |b| && b[..|a|] == a
  }

  /** Nothing recorded is taken back: every table only grows at its end,
      and document rows stay, with their ids. */
  predicate Extends(s: Store, r: Store) {
    && IsPrefix(s.pages, r.pages)
    && IsPrefix(s.chunks, r.chunks)
    && IsPrefix(s.metrics, r.metrics)
    && |s.documents| <= |r.documents|
    && (forall i :: 0 <= i < |s.documents| ==> r.documents[i].id == s.documents[i].id)
    && s.files.Keys <= r.files.Keys
  }

  lemma ExtendsTrans(a: Store, b: Store, c: Store)
    requires Extends(a, b) && Extends(b, c)
    ensures Extends(a, c)
  {
    assert c.pages[..|b.pages|][..|a.pages|] == c.pages[..|a.pages|];
    assert c.chunks[..|b.chunks|][..|a.chunks|] == c.chunks[..|a.chunks|];
    assert c.metrics[..|b.metrics|][..|a.metrics|] == c.metrics[..|a.metrics|];
  }
}
