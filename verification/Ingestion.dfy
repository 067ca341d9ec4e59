/** Background ingestion of one uploaded document (`process_document` in
    app/pdf_service.py), as a function from the store before the run to
    the store after it. The PDF reader, the embedding call, the order in
    which page rows are read back, the language model, the JSON parser and
    whether the metrics table accepts a row are parameters. Every failure
    ends the run with status `failed`; nothing written before it is
    removed. */
module Ingestion {
  import opened Common
  import Json
  import opened Records
  import TextCleaning
  import Chunking
  import Extraction

  /** The collaborators of a run. `readPdf` gives the text of each page,
      or nothing when the bytes are not a readable PDF; `embed` gives
      nothing for a text whose embedding call raises, so a text embeds
      on every call or on none; `readBack` is the order the
      page rows of the document come back in; `metricsAccepted` says
      whether the metrics insert goes through. */
  datatype Oracles = Oracles(
    readPdf: seq<Byte> -> Option<seq<string>>,
    embed: string -> Option<Embedding>,
    readBack: seq<PageRow> -> seq<PageRow>,
    generate: string -> Extraction.Reply,
    parse: string -> Option<Json.Value>,
    metricsAccepted: MetricsRow -> bool)

  /** A store and whether the work so far went through without raising. */
  datatype Progress = Progress(store: Store, ok: bool)

  const DocumentIdKey: string := "document_id"

  // ----- Reference definitions -----

  /** `clean_text` of every page, in page order. */
  function CleanPages(texts: seq<string>): (cleaned: seq<string>)
    ensures |cleaned| == |texts|
    ensures forall i :: 0 <= i < |texts| ==> cleaned[i] == TextCleaning.CleanText(texts[i])
  {
    seq(|texts|, i requires 0 <= i < |texts| => TextCleaning.CleanText(texts[i]))
  }

  /** The page rows a run is meant to write for pages `first` on, given
      the cleaned page texts: one per non-empty page, numbered from 1. */
  function PagePlan(docId: string, cleaned: seq<string>, first: nat): (rows: seq<PageRow>)
    requires first <= |cleaned|
    decreases |cleaned| - first
  {
    if first == |cleaned| then []
    else (if cleaned[first] == [] then [] else [PageRow(docId, first + 1, cleaned[first])]) + PagePlan(docId, cleaned, first + 1)
  }

  /** The chunks of the given page rows, page after page. */
  function ChunkPlan(rows: seq<PageRow>): seq<Chunking.Chunk>
    decreases |rows|
  {
    if rows == [] then []
    else PageChunks(rows[0]) + ChunkPlan(rows[1..])
  }

  /** The chunks of one page row with the default window. */
  function PageChunks(row: PageRow): seq<Chunking.Chunk> {
    Chunking.ChunkText(row.rawText, row.pageNumber, Chunking.DefaultChunkSize, Chunking.DefaultOverlap)
  }

  predicate AllEmbeddable(plan: seq<Chunking.Chunk>, embed: string -> Option<Embedding>) {
    forall i :: 0 <= i < |plan| ==> embed(plan[i].content).Some?
  }

  /** The chunk rows for the planned chunks up to the first one whose
      embedding fails: each row carries its chunk's page, text and
      embedding. */
  function Attached(docId: string, plan: seq<Chunking.Chunk>, embed: string -> Option<Embedding>): seq<ChunkRow>
    decreases |plan|
  {
    if plan == [] then []
    else match embed(plan[0].content)
      case None => []
      case Some(e) =>
        var rest := Attached(docId, plan[1..], embed);
        [ChunkRow(docId, plan[0].pageNumber, plan[0].content, e)] + rest
  }

  // ----- The run -----

  /** Embeds and inserts the chunks of one page in order, stopping at the
      first embedding call that raises. */
  function StoreChunks(s: Store, docId: string, chunks: seq<Chunking.Chunk>, embed: string -> Option<Embedding>): (p: Progress)
    ensures p.store == s.(chunks := p.store.chunks)
    ensures |s.chunks| <= |p.store.chunks| <= |s.chunks| + |chunks|
    decreases |chunks|
  {
    if chunks == [] then Progress(s, true)
    else match embed(chunks[0].content)
      case None => Progress(s, false)
      case Some(e) =>
        var row := ChunkRow(docId, chunks[0].pageNumber, chunks[0].content, e);
        StoreChunks(s.(chunks := s.chunks + [row]), docId, chunks[1..], embed)
  }

  /** The page loop from page `first` on, over the cleaned page texts: an
      empty page is skipped; any other page gets its page row, then its
      chunk rows. */
  function IngestPages(s: Store, docId: string, cleaned: seq<string>, first: nat, embed: string -> Option<Embedding>): (p: Progress)
    requires first <= |cleaned|
    ensures p.store == s.(pages := p.store.pages, chunks := p.store.chunks)
    ensures |s.pages| <= |p.store.pages| <= |s.pages| + (|cleaned| - first)
    ensures |s.chunks| <= |p.store.chunks|
    decreases |cleaned| - first
  {
    if first == |cleaned| then Progress(s, true)
    else if cleaned[first] == [] then IngestPages(s, docId, cleaned, first + 1, embed)
    else
      var row := PageRow(docId, first + 1, cleaned[first]);
      var p := StoreChunks(s.(pages := s.pages + [row]), docId, PageChunks(row), embed);
      if !p.ok then p else IngestPages(p.store, docId, cleaned, first + 1, embed)
  }

  /** The page rows of a document, in table order. */
  function PagesOf(rows: seq<PageRow>, docId: string): (r: seq<PageRow>)
    ensures forall i :: 0 <= i < |r| ==> r[i].documentId == docId
    decreases |rows|
  {
    if rows == [] then []
    else (if rows[0].documentId == docId then [rows[0]] else []) + PagesOf(rows[1..], docId)
  }

  function RawTexts(rows: seq<PageRow>): (ts: seq<string>)
    ensures |ts| == |rows| && forall i :: 0 <= i < |rows| ==> ts[i] == rows[i].rawText
  {
    seq(|rows|, i requires 0 <= i < |rows| => rows[i].rawText)
  }

  /** The text handed to extraction: the document's page texts, read back
      in whatever order the table returns them, joined by single spaces. */
  function FullText(pages: seq<PageRow>, docId: string, o: Oracles): string {
    Join(RawTexts(o.readBack(PagesOf(pages, docId))), " ")
  }

  /** `{"document_id": docId, **metrics}`: the id first, then the
      extracted fields, a later key overriding an earlier one. */
  function MetricsRowFor(docId: string, fields: seq<(string, Json.Value)>): (row: MetricsRow)
    ensures DocumentIdKey in row
    ensures forall k :: k in row <==> k == DocumentIdKey || k in Json.Keys(fields)
  {
    var all := [(DocumentIdKey, Json.Str(docId))] + fields;
    assert Json.Keys(all) == [DocumentIdKey] + Json.Keys(fields);
    Json.ToMap(all)
  }

  /** The metrics step: extract, insert the row, then mark the document
      ready. A generation failure, a reply that is not an object (the
      dictionary merge raises) or a rejected insert marks it failed. */
  function RecordMetrics(s: Store, docId: string, o: Oracles): (r: Store)
    ensures r.files == s.files && r.pages == s.pages && r.chunks == s.chunks
    ensures |r.documents| == |s.documents|
    ensures r.metrics == s.metrics || (|r.metrics| == |s.metrics| + 1 && r.metrics[..|s.metrics|] == s.metrics)
  {
    match Extraction.ExtractMetrics(FullText(s.pages, docId, o), o.generate, o.parse)
    case Err(_) => SetStatus(s, docId, Failed)
    case Ok(v) =>
      if !v.Object? then SetStatus(s, docId, Failed)
      else
        var row := MetricsRowFor(docId, v.fields);
        if !o.metricsAccepted(row) then SetStatus(s, docId, Failed)
        else SetStatus(s.(metrics := s.metrics + [row]), docId, Ready)
  }

  /** `process_document(document_id, file_path)`: download, read the
      pages, store pages and chunks, extract metrics, set the status. */
  function ProcessDocument(s: Store, docId: string, filePath: string, o: Oracles): (r: Store)
    ensures r.files == s.files && |r.documents| == |s.documents|
    ensures |s.pages| <= |r.pages| && |s.chunks| <= |r.chunks| && |s.metrics| <= |r.metrics| <= |s.metrics| + 1
  {
    if filePath !in s.files then SetStatus(s, docId, Failed)
    else match o.readPdf(s.files[filePath])
      case None => SetStatus(s, docId, Failed)
      case Some(texts) =>
        var p := IngestPages(s, docId, CleanPages(texts), 0, o.embed);
        if !p.ok then SetStatus(p.store, docId, Failed)
        else RecordMetrics(p.store, docId, o)
  }

  // ----- The page plan -----

  /** The plan from `first` on: the row of page `first`, if it is not
      empty, then the plan from the next page on. */
  lemma PagePlanStep(docId: string, cleaned: seq<string>, first: nat)
    requires first < |cleaned|
    ensures PagePlan(docId, cleaned, first)
         == (if cleaned[first] == [] then [] else [PageRow(docId, first + 1, cleaned[first])])
            + PagePlan(docId, cleaned, first + 1)
  {
  }

  /** Each planned row holds a non-empty cleaned page with its 1-based
      number. */
  lemma {:induction false} PagePlanRows(docId: string, cleaned: seq<string>, first: nat)
    requires first <= |cleaned|
    ensures var plan := PagePlan(docId, cleaned, first);
      forall j :: 0 <= j < |plan| ==>
        && first < plan[j].pageNumber <= |cleaned|
        && plan[j].documentId == docId
        && plan[j].rawText == cleaned[plan[j].pageNumber - 1]
        && plan[j].rawText != []
    decreases |cleaned| - first
  {
    if first < |cleaned| {
      PagePlanRows(docId, cleaned, first + 1);
      PagePlanStep(docId, cleaned, first);
      var plan := PagePlan(docId, cleaned, first);
      var rest := PagePlan(docId, cleaned, first + 1);
      if cleaned[first] != [] {
        forall j | 1 <= j < |plan| ensures plan[j] == rest[j - 1] { }
      }
    }
  }

  /** The planned rows come in increasing page order. */
  lemma {:induction false} PagePlanIncreasing(docId: string, cleaned: seq<string>, first: nat)
    requires first <= |cleaned|
    ensures var plan := PagePlan(docId, cleaned, first);
      forall j, k :: 0 <= j < k < |plan| ==> plan[j].pageNumber < plan[k].pageNumber
    decreases |cleaned| - first
  {
    if first < |cleaned| {
      PagePlanIncreasing(docId, cleaned, first + 1);
      PagePlanRows(docId, cleaned, first + 1);
      PagePlanStep(docId, cleaned, first);
      var plan := PagePlan(docId, cleaned, first);
      var rest := PagePlan(docId, cleaned, first + 1);
      if cleaned[first] != [] {
        forall j | 1 <= j < |plan| ensures plan[j] == rest[j - 1] { }
      }
    }
  }

  /** No non-empty page is missing from the plan. */
  lemma {:induction false} PagePlanComplete(docId: string, cleaned: seq<string>, first: nat, i: nat)
    requires first <= i < |cleaned| && cleaned[i] != []
    ensures var plan := PagePlan(docId, cleaned, first);
      exists j :: 0 <= j < |plan| && plan[j].pageNumber == i + 1
    decreases i - first
  {
    var plan := PagePlan(docId, cleaned, first);
    var rest := PagePlan(docId, cleaned, first + 1);
    var off := if cleaned[first] == [] then 0 else 1;
    PagePlanShift(docId, cleaned, first);
    if i == first {
      assert plan[0].pageNumber == i + 1;
    } else {
      PagePlanComplete(docId, cleaned, first + 1, i);
      var j :| 0 <= j < |rest| && rest[j].pageNumber == i + 1;
      assert plan[j + off] == rest[j];
    }
  }

  /** The plan from `first` is the plan from `first + 1`, shifted by one
      row when page `first` has text. */
  lemma PagePlanShift(docId: string, cleaned: seq<string>, first: nat)
    requires first < |cleaned|
    ensures var plan := PagePlan(docId, cleaned, first);
      var rest := PagePlan(docId, cleaned, first + 1);
      var off := if cleaned[first] == [] then 0 else 1;
      && |plan| == off + |rest|
      && (off == 1 ==> plan[0] == PageRow(docId, first + 1, cleaned[first]))
      && forall j :: 0 <= j < |rest| ==> plan[j + off] == rest[j]
  {
    PagePlanStep(docId, cleaned, first);
  }

  /** A page whose text is all whitespace leaves no page row and hence no
      chunk rows; any other page has its row. */
  lemma BlankPageSkipped(docId: string, texts: seq<string>, i: nat)
    requires i < |texts|
    ensures var plan := PagePlan(docId, CleanPages(texts), 0);
      AllSpace(texts[i]) <==> forall j :: 0 <= j < |plan| ==> plan[j].pageNumber != i + 1
  {
    var cleaned := CleanPages(texts);
    assert cleaned[i] == [] <==> AllSpace(texts[i]);
    EmptyPageOmitted(docId, cleaned, i);
  }

  /** A page whose text is all whitespace gets no chunk rows either: every
      stored chunk row comes from a non-blank page. */
  lemma BlankPageNoChunks(docId: string, texts: seq<string>, i: nat, embed: string -> Option<Embedding>)
    requires i < |texts| && AllSpace(texts[i])
    ensures var rows := Attached(docId, ChunkPlan(PagePlan(docId, CleanPages(texts), 0)), embed);
      forall k :: 0 <= k < |rows| ==> rows[k].pageNumber != i + 1
  {
    var cleaned := CleanPages(texts);
    assert cleaned[i] == [];
    EmptyPageNoChunks(docId, cleaned, i, embed);
  }

  lemma EmptyPageNoChunks(docId: string, cleaned: seq<string>, i: nat, embed: string -> Option<Embedding>)
    requires i < |cleaned| && cleaned[i] == []
    ensures var rows := Attached(docId, ChunkPlan(PagePlan(docId, cleaned, 0)), embed);
      forall k :: 0 <= k < |rows| ==> rows[k].pageNumber != i + 1
  {
    var cp := ChunkPlan(PagePlan(docId, cleaned, 0));
    ChunkPlanPages(docId, cleaned, 0);
    AttachedPages(docId, cp, embed);
  }

  /** Each attached row carries the page number of its planned chunk. */
  lemma AttachedPages(docId: string, cp: seq<Chunking.Chunk>, embed: string -> Option<Embedding>)
    ensures var rows := Attached(docId, cp, embed);
      |rows| <= |cp| && forall k :: 0 <= k < |rows| ==> rows[k].pageNumber == cp[k].pageNumber
  {
    AttachedExact(docId, cp, embed);
  }

  /** The planned chunks all come from non-blank pages from `first` on. */
  lemma {:induction false} ChunkPlanPages(docId: string, cleaned: seq<string>, first: nat)
    requires first <= |cleaned|
    ensures var cp := ChunkPlan(PagePlan(docId, cleaned, first));
      forall i :: 0 <= i < |cp| ==> first < cp[i].pageNumber <= |cleaned| && cleaned[cp[i].pageNumber - 1] != []
    decreases |cleaned| - first
  {
    if first < |cleaned| {
      ChunkPlanPages(docId, cleaned, first + 1);
      PagePlanStep(docId, cleaned, first);
      var rest := PagePlan(docId, cleaned, first + 1);
      var cr := ChunkPlan(rest);
      if cleaned[first] == [] {
        assert PagePlan(docId, cleaned, first) == rest;
      } else {
        var row := PageRow(docId, first + 1, cleaned[first]);
        ChunkPlanCons(row, rest);
        FromPagesAppend(PageChunks(row), cr, cleaned, first);
      }
    }
  }

  /** The chunks of page `first + 1` followed by chunks of later
      non-blank pages all come from non-blank pages after `first`. */
  lemma FromPagesAppend(pc: seq<Chunking.Chunk>, cr: seq<Chunking.Chunk>, cleaned: seq<string>, first: nat)
    requires first < |cleaned| && cleaned[first] != []
    requires forall i :: 0 <= i < |pc| ==> pc[i].pageNumber == first + 1
    requires forall i :: 0 <= i < |cr| ==> first + 1 < cr[i].pageNumber <= |cleaned| && cleaned[cr[i].pageNumber - 1] != []
    ensures forall i :: 0 <= i < |pc + cr| ==>
      first < (pc + cr)[i].pageNumber <= |cleaned| && cleaned[(pc + cr)[i].pageNumber - 1] != []
  {
    forall i | 0 <= i < |pc + cr| ensures first < (pc + cr)[i].pageNumber <= |cleaned| && cleaned[(pc + cr)[i].pageNumber - 1] != [] {
      if i < |pc| { assert (pc + cr)[i] == pc[i]; } else { assert (pc + cr)[i] == cr[i - |pc|]; }
    }
  }

  /** Two pages, the second blank: the plan is the single row of page 1. */
  lemma SecondPageBlank(docId: string, a: string, b: string)
    requires !AllSpace(a) && AllSpace(b)
    ensures PagePlan(docId, CleanPages([a, b]), 0) == [PageRow(docId, 1, TextCleaning.CleanText(a))]
  {
    var cleaned := CleanPages([a, b]);
    assert cleaned[0] == TextCleaning.CleanText(a) != [];
    assert cleaned[1] == [];
    PagePlanStep(docId, cleaned, 0);
    PagePlanStep(docId, cleaned, 1);
  }

  lemma EmptyPageOmitted(docId: string, cleaned: seq<string>, i: nat)
    requires i < |cleaned|
    ensures var plan := PagePlan(docId, cleaned, 0);
      cleaned[i] == [] <==> forall j :: 0 <= j < |plan| ==> plan[j].pageNumber != i + 1
  {
    PagePlanRows(docId, cleaned, 0);
    if cleaned[i] != [] {
      PagePlanComplete(docId, cleaned, 0, i);
    }
  }

  // ----- Embedding and inserting chunks -----

  lemma EmbeddableCons(plan: seq<Chunking.Chunk>, embed: string -> Option<Embedding>)
    requires plan != []
    ensures AllEmbeddable(plan, embed) <==> embed(plan[0].content).Some? && AllEmbeddable(plan[1..], embed)
  {
    if embed(plan[0].content).Some? && AllEmbeddable(plan[1..], embed) {
      forall i | 0 <= i < |plan| ensures embed(plan[i].content).Some? {
        if i > 0 { assert plan[i] == plan[1..][i - 1]; }
      }
    }
  }

  lemma EmbeddableAppend(a: seq<Chunking.Chunk>, b: seq<Chunking.Chunk>, embed: string -> Option<Embedding>)
    ensures AllEmbeddable(a + b, embed) <==> AllEmbeddable(a, embed) && AllEmbeddable(b, embed)
  {
    if AllEmbeddable(a, embed) && AllEmbeddable(b, embed) {
      forall i | 0 <= i < |a + b| ensures embed((a + b)[i].content).Some? {
        if i >= |a| { assert (a + b)[i] == b[i - |a|]; }
      }
    }
    if AllEmbeddable(a + b, embed) {
      forall i | 0 <= i < |a| ensures embed(a[i].content).Some? {
        assert (a + b)[i] == a[i];
      }
      forall i | 0 <= i < |b| ensures embed(b[i].content).Some? {
        assert (a + b)[|a| + i] == b[i];
      }
    }
  }

  /** Appending to the plan: what is attached of the whole is what is
      attached of the first part, followed, when all of that part embeds,
      by what is attached of the second. */
  lemma {:induction false} AttachedAppend(docId: string, a: seq<Chunking.Chunk>, b: seq<Chunking.Chunk>, embed: string -> Option<Embedding>)
    ensures Attached(docId, a + b, embed)
         == if AllEmbeddable(a, embed) then Attached(docId, a, embed) + Attached(docId, b, embed)
            else Attached(docId, a, embed)
    decreases |a|
  {
    if a == [] {
      assert a + b == b;
    } else {
      assert (a + b)[0] == a[0];
      assert (a + b)[1..] == a[1..] + b;
      AttachedAppend(docId, a[1..], b, embed);
      EmbeddableCons(a, embed);
    }
  }

  /** The attached rows are the planned chunks, in order, each with its
      own embedding, up to and excluding the first chunk that does not
      embed; all of them exactly when every chunk embeds. */
  lemma {:induction false} AttachedExact(docId: string, plan: seq<Chunking.Chunk>, embed: string -> Option<Embedding>)
    ensures var rows := Attached(docId, plan, embed);
      && |rows| <= |plan|
      && (forall i :: 0 <= i < |rows| ==>
            embed(plan[i].content).Some?
            && rows[i] == ChunkRow(docId, plan[i].pageNumber, plan[i].content, embed(plan[i].content).value))
      && (|rows| < |plan| ==> embed(plan[|rows|].content).None?)
      && (|rows| == |plan| <==> AllEmbeddable(plan, embed))
    decreases |plan|
  {
    if plan != [] {
      AttachedExact(docId, plan[1..], embed);
      EmbeddableCons(plan, embed);
      var rows := Attached(docId, plan, embed);
      if embed(plan[0].content).Some? {
        var rest := Attached(docId, plan[1..], embed);
        assert rows == [ChunkRow(docId, plan[0].pageNumber, plan[0].content, embed(plan[0].content).value)] + rest;
        forall i | 1 <= i < |rows| ensures rows[i] == rest[i - 1] && plan[i] == plan[1..][i - 1] { }
      }
    }
  }

  /** Storing a page's chunks appends exactly the attached rows and goes
      through when every chunk embeds; nothing else changes. */
  lemma {:induction false} StoreChunksEffect(s: Store, docId: string, chunks: seq<Chunking.Chunk>, embed: string -> Option<Embedding>)
    ensures var p := StoreChunks(s, docId, chunks, embed);
      && (p.ok <==> AllEmbeddable(chunks, embed))
      && p.store == s.(chunks := s.chunks + Attached(docId, chunks, embed))
    decreases |chunks|
  {
    if chunks != [] {
      EmbeddableCons(chunks, embed);
      match embed(chunks[0].content)
      case None =>
      case Some(e) =>
        var row := ChunkRow(docId, chunks[0].pageNumber, chunks[0].content, e);
        var rest := Attached(docId, chunks[1..], embed);
        StoreChunksEffect(s.(chunks := s.chunks + [row]), docId, chunks[1..], embed);
        assert Attached(docId, chunks, embed) == [row] + rest;
        AppendAssoc(s.chunks, [row], rest);
    }
  }

  // ----- The page loop -----

  /** What the page loop does to the store for planned page rows `plan`
      with planned chunks `cp`: it writes the planned chunk rows up to the
      first failed embedding and a prefix of the planned page rows (all of
      them when it goes through); it goes through exactly when every
      planned chunk embeds, and it touches no other table. */
  predicate LoopEffect(s: Store, p: Progress, docId: string, plan: seq<PageRow>, cp: seq<Chunking.Chunk>, embed: string -> Option<Embedding>) {
    && (p.ok <==> AllEmbeddable(cp, embed))
    && p.store.chunks == s.chunks + Attached(docId, cp, embed)
    && IsPrefix(s.pages, p.store.pages)
    && IsPrefix(p.store.pages[|s.pages|..], plan)
    && (p.ok ==> p.store.pages == s.pages + plan)
    && p.store.files == s.files && p.store.documents == s.documents && p.store.metrics == s.metrics
  }

  lemma {:induction false} IngestPagesEffect(s: Store, docId: string, cleaned: seq<string>, first: nat, embed: string -> Option<Embedding>)
    requires first <= |cleaned|
    ensures var plan := PagePlan(docId, cleaned, first);
      LoopEffect(s, IngestPages(s, docId, cleaned, first, embed), docId, plan, ChunkPlan(plan), embed)
    decreases |cleaned| - first
  {
    if first == |cleaned| {
      assert s.pages[..|s.pages|] == s.pages;
    } else if cleaned[first] == [] {
      IngestPagesEffect(s, docId, cleaned, first + 1, embed);
      PagePlanStep(docId, cleaned, first);
      assert PagePlan(docId, cleaned, first) == PagePlan(docId, cleaned, first + 1);
    } else {
      var row := PageRow(docId, first + 1, cleaned[first]);
      var rest := PagePlan(docId, cleaned, first + 1);
      PagePlanStep(docId, cleaned, first);
      ChunkPlanCons(row, rest);
      var pc := StoreChunks(s.(pages := s.pages + [row]), docId, PageChunks(row), embed);
      if pc.ok {
        IngestPagesEffect(pc.store, docId, cleaned, first + 1, embed);
      }
      IngestPageStep(s, docId, row, rest, cleaned, first, embed, pc);
    }
  }

  /** One non-empty page of the loop, the rest of it taken as proved. */
  lemma IngestPageStep(s: Store, docId: string, row: PageRow, rest: seq<PageRow>, cleaned: seq<string>, first: nat,
                       embed: string -> Option<Embedding>, pc: Progress)
    requires first < |cleaned| && cleaned[first] != []
    requires row == PageRow(docId, first + 1, cleaned[first]) && rest == PagePlan(docId, cleaned, first + 1)
    requires pc == StoreChunks(s.(pages := s.pages + [row]), docId, PageChunks(row), embed)
    requires pc.ok ==> LoopEffect(pc.store, IngestPages(pc.store, docId, cleaned, first + 1, embed), docId, rest, ChunkPlan(rest), embed)
    ensures LoopEffect(s, IngestPages(s, docId, cleaned, first, embed), docId, [row] + rest, PageChunks(row) + ChunkPlan(rest), embed)
  {
    StoreChunksEffect(s.(pages := s.pages + [row]), docId, PageChunks(row), embed);
    if !pc.ok {
      PageFails(s, docId, row, rest, PageChunks(row), ChunkPlan(rest), embed, pc);
    } else {
      var q := IngestPages(pc.store, docId, cleaned, first + 1, embed);
      PageGoes(s, docId, row, rest, PageChunks(row), ChunkPlan(rest), embed, pc.store, q);
    }
  }

  lemma ChunkPlanCons(row: PageRow, rest: seq<PageRow>)
    ensures ChunkPlan([row] + rest) == PageChunks(row) + ChunkPlan(rest)
  {
    assert ([row] + rest)[1..] == rest;
  }

  /** A page whose chunks do not all embed ends the loop there. */
  lemma PageFails(s: Store, docId: string, row: PageRow, rest: seq<PageRow>, a: seq<Chunking.Chunk>, b: seq<Chunking.Chunk>,
                  embed: string -> Option<Embedding>, pc: Progress)
    requires !pc.ok && !AllEmbeddable(a, embed)
    requires pc.store == s.(pages := s.pages + [row], chunks := s.chunks + Attached(docId, a, embed))
    ensures LoopEffect(s, pc, docId, [row] + rest, a + b, embed)
  {
    EmbeddableAppend(a, b, embed);
    AttachedAppend(docId, a, b, embed);
    assert pc.store.pages[..|s.pages|] == s.pages;
    assert pc.store.pages[|s.pages|..] == [row];
  }

  /** A page whose chunks all embed is followed by the rest of the loop. */
  lemma PageGoes(s: Store, docId: string, row: PageRow, rest: seq<PageRow>, a: seq<Chunking.Chunk>, b: seq<Chunking.Chunk>,
                 embed: string -> Option<Embedding>, s1: Store, q: Progress)
    requires AllEmbeddable(a, embed)
    requires s1 == s.(pages := s.pages + [row], chunks := s.chunks + Attached(docId, a, embed))
    requires LoopEffect(s1, q, docId, rest, b, embed)
    ensures LoopEffect(s, q, docId, [row] + rest, a + b, embed)
  {
    EmbeddableAppend(a, b, embed);
    AttachedAppend(docId, a, b, embed);
    AppendAssoc(s.chunks, Attached(docId, a, embed), Attached(docId, b, embed));
    AppendAssoc(s.pages, [row], rest);
    PrefixStep(s.pages, row, q.store.pages, rest);
  }

  lemma PrefixStep(a: seq<PageRow>, row: PageRow, b: seq<PageRow>, rest: seq<PageRow>)
    requires IsPrefix(a + [row], b) && IsPrefix(b[|a| + 1..], rest)
    ensures IsPrefix(a, b) && IsPrefix(b[|a|..], [row] + rest)
  {
    assert b[..|a| + 1][..|a|] == b[..|a|];
    assert b[|a|..] == [row] + b[|a| + 1..];
  }

  // ----- The whole run -----

  /** What extraction gives for the pages the run is meant to write. */
  function PlannedExtraction(s: Store, docId: string, texts: seq<string>, o: Oracles): Result<Json.Value, Extraction.ExtractionError> {
    Extraction.ExtractMetrics(FullText(s.pages + PagePlan(docId, CleanPages(texts), 0), docId, o), o.generate, o.parse)
  }

  /** A run goes through exactly when the file is in storage, reads as a
      PDF, every planned chunk embeds, the reply is a JSON object and the
      metrics row built from it is accepted. */
  predicate RunSucceeds(s: Store, docId: string, filePath: string, o: Oracles) {
    && filePath in s.files
    && o.readPdf(s.files[filePath]).Some?
    && var texts := o.readPdf(s.files[filePath]).value;
       && AllEmbeddable(ChunkPlan(PagePlan(docId, CleanPages(texts), 0)), o.embed)
       && var r := PlannedExtraction(s, docId, texts, o);
          && r.Ok? && r.value.Object?
          && o.metricsAccepted(MetricsRowFor(docId, r.value.fields))
  }

  /** The metrics step sets the status of the document and at most adds
      its metrics row: ready with the row exactly when the reply is an
      object whose row is accepted, failed and without a row otherwise. */
  lemma RecordMetricsEffect(s: Store, docId: string, o: Oracles, other: string)
    ensures var r := RecordMetrics(s, docId, o);
      var x := Extraction.ExtractMetrics(FullText(s.pages, docId, o), o.generate, o.parse);
      var goes := x.Ok? && x.value.Object? && o.metricsAccepted(MetricsRowFor(docId, x.value.fields));
      && r.files == s.files && r.pages == s.pages && r.chunks == s.chunks
      && |r.documents| == |s.documents|
      && (forall i :: 0 <= i < |s.documents| ==> r.documents[i].id == s.documents[i].id)
      && (goes ==> r.metrics == s.metrics + [MetricsRowFor(docId, x.value.fields)])
      && (!goes ==> r.metrics == s.metrics)
      && StatusOf(r, docId) == (if StatusOf(s, docId).None? then None else Some(if goes then Ready else Failed))
      && (other != docId ==> StatusOf(r, other) == StatusOf(s, other))
  {
    var x := Extraction.ExtractMetrics(FullText(s.pages, docId, o), o.generate, o.parse);
    if x.Ok? && x.value.Object? && o.metricsAccepted(MetricsRowFor(docId, x.value.fields)) {
      var s1 := s.(metrics := s.metrics + [MetricsRowFor(docId, x.value.fields)]);
      SetStatusThenStatusOf(s1, docId, Ready, other);
    } else {
      SetStatusThenStatusOf(s, docId, Failed, other);
    }
  }

  /** A document with a row ends the run ready exactly when the run goes
      through and failed otherwise: it never stays in processing. */
  lemma RunOutcome(s: Store, docId: string, filePath: string, o: Oracles)
    requires StatusOf(s, docId).Some?
    ensures StatusOf(ProcessDocument(s, docId, filePath, o), docId)
         == Some(if RunSucceeds(s, docId, filePath, o) then Ready else Failed)
  {
    RunLemmas(s, docId, filePath, o, docId);
  }

  /** Metrics are recorded only by a run that goes through, as the last
      step before the status becomes ready; a failed run adds none. */
  lemma RunMetrics(s: Store, docId: string, filePath: string, o: Oracles)
    ensures var r := ProcessDocument(s, docId, filePath, o);
      && (RunSucceeds(s, docId, filePath, o) ==>
            var texts := o.readPdf(s.files[filePath]).value;
            r.metrics == s.metrics + [MetricsRowFor(docId, PlannedExtraction(s, docId, texts, o).value.fields)])
      && (!RunSucceeds(s, docId, filePath, o) ==> r.metrics == s.metrics)
  {
    RunLemmas(s, docId, filePath, o, docId);
  }

  /** A run never removes anything: earlier rows of every table stay in
      place, and other documents keep their status. */
  lemma RunKeepsRecords(s: Store, docId: string, filePath: string, o: Oracles, other: string)
    ensures Extends(s, ProcessDocument(s, docId, filePath, o))
    ensures other != docId ==> StatusOf(ProcessDocument(s, docId, filePath, o), other) == StatusOf(s, other)
  {
    RunLemmas(s, docId, filePath, o, other);
  }

  /** Pages and chunks written by a run: nothing when the file is missing
      or unreadable; otherwise the planned chunk rows up to the first
      failed embedding, and a prefix of the planned page rows. */
  lemma RunPagesAndChunks(s: Store, docId: string, filePath: string, o: Oracles)
    ensures var r := ProcessDocument(s, docId, filePath, o);
      if filePath !in s.files || o.readPdf(s.files[filePath]).None? then
        r.pages == s.pages && r.chunks == s.chunks
      else
        var plan := PagePlan(docId, CleanPages(o.readPdf(s.files[filePath]).value), 0);
        && r.chunks == s.chunks + Attached(docId, ChunkPlan(plan), o.embed)
        && IsPrefix(s.pages, r.pages)
        && IsPrefix(r.pages[|s.pages|..], plan)
        && (AllEmbeddable(ChunkPlan(plan), o.embed) ==> r.pages == s.pages + plan)
  {
    RunLemmas(s, docId, filePath, o, docId);
  }

  /** The facts behind the run lemmas above, proved once. */
  lemma RunLemmas(s: Store, docId: string, filePath: string, o: Oracles, other: string)
    ensures var r := ProcessDocument(s, docId, filePath, o);
      && Extends(s, r)
      && (other != docId ==> StatusOf(r, other) == StatusOf(s, other))
      && (StatusOf(s, docId).Some? ==> StatusOf(r, docId) == Some(if RunSucceeds(s, docId, filePath, o) then Ready else Failed))
      && (RunSucceeds(s, docId, filePath, o) ==>
            var texts := o.readPdf(s.files[filePath]).value;
            r.metrics == s.metrics + [MetricsRowFor(docId, PlannedExtraction(s, docId, texts, o).value.fields)])
      && (!RunSucceeds(s, docId, filePath, o) ==> r.metrics == s.metrics)
      && (if filePath !in s.files || o.readPdf(s.files[filePath]).None? then
            r.pages == s.pages && r.chunks == s.chunks
          else
            var plan := PagePlan(docId, CleanPages(o.readPdf(s.files[filePath]).value), 0);
            && r.chunks == s.chunks + Attached(docId, ChunkPlan(plan), o.embed)
            && IsPrefix(s.pages, r.pages)
            && IsPrefix(r.pages[|s.pages|..], plan)
            && (AllEmbeddable(ChunkPlan(plan), o.embed) ==> r.pages == s.pages + plan))
  {
    if filePath !in s.files || o.readPdf(s.files[filePath]).None? {
      RunUnreadable(s, docId, filePath, o, other);
    } else {
      RunReadable(s, docId, filePath, o, other);
      RunWritesPlan(s, docId, filePath, o);
    }
  }

  /** A run that goes through on a two-page PDF whose second page is
      blank writes exactly one page row, for page 1, and leaves the
      document ready. */
  lemma SecondPageBlankRun(s: Store, docId: string, filePath: string, o: Oracles, a: string, b: string)
    requires filePath in s.files && o.readPdf(s.files[filePath]) == Some([a, b])
    requires !AllSpace(a) && AllSpace(b)
    requires StatusOf(s, docId).Some? && RunSucceeds(s, docId, filePath, o)
    ensures var r := ProcessDocument(s, docId, filePath, o);
      && r.pages == s.pages + [PageRow(docId, 1, TextCleaning.CleanText(a))]
      && StatusOf(r, docId) == Some(Ready)
  {
    SecondPageBlank(docId, a, b);
    RunWritesPlan(s, docId, filePath, o);
    RunOutcome(s, docId, filePath, o);
  }

  /** A readable file whose planned chunks all embed gets every planned
      page row, in page order, after the rows already there. */
  lemma RunWritesPlan(s: Store, docId: string, filePath: string, o: Oracles)
    requires filePath in s.files && o.readPdf(s.files[filePath]).Some?
    ensures var plan := PagePlan(docId, CleanPages(o.readPdf(s.files[filePath]).value), 0);
      AllEmbeddable(ChunkPlan(plan), o.embed) ==> ProcessDocument(s, docId, filePath, o).pages == s.pages + plan
  {
    var cleaned := CleanPages(o.readPdf(s.files[filePath]).value);
    var p := IngestPages(s, docId, cleaned, 0, o.embed);
    IngestPagesEffect(s, docId, cleaned, 0, o.embed);
    RecordMetricsEffect(p.store, docId, o, docId);
  }

  /** A missing or unreadable file only marks the document failed. */
  lemma RunUnreadable(s: Store, docId: string, filePath: string, o: Oracles, other: string)
    requires filePath !in s.files || o.readPdf(s.files[filePath]).None?
    ensures var r := ProcessDocument(s, docId, filePath, o);
      && r == SetStatus(s, docId, Failed)
      && Extends(s, r)
      && (other != docId ==> StatusOf(r, other) == StatusOf(s, other))
      && StatusOf(r, docId) == if StatusOf(s, docId).None? then None else Some(Failed)
  {
    SetStatusThenStatusOf(s, docId, Failed, other);
    ExtendsBySetStatus(s, docId, Failed);
  }

  /** A readable file runs the page loop and then the metrics step. */
  lemma RunReadable(s: Store, docId: string, filePath: string, o: Oracles, other: string)
    requires filePath in s.files && o.readPdf(s.files[filePath]).Some?
    ensures var r := ProcessDocument(s, docId, filePath, o);
      var texts := o.readPdf(s.files[filePath]).value;
      var plan := PagePlan(docId, CleanPages(texts), 0);
      var goes := RunSucceeds(s, docId, filePath, o);
      && Extends(s, r)
      && (other != docId ==> StatusOf(r, other) == StatusOf(s, other))
      && (StatusOf(s, docId).Some? ==> StatusOf(r, docId) == Some(if goes then Ready else Failed))
      && (goes ==> r.metrics == s.metrics + [MetricsRowFor(docId, PlannedExtraction(s, docId, texts, o).value.fields)])
      && (!goes ==> r.metrics == s.metrics)
      && r.chunks == s.chunks + Attached(docId, ChunkPlan(plan), o.embed)
      && IsPrefix(s.pages, r.pages)
      && IsPrefix(r.pages[|s.pages|..], plan)
  {
    var texts := o.readPdf(s.files[filePath]).value;
    var plan := PagePlan(docId, CleanPages(texts), 0);
    var p := IngestPages(s, docId, CleanPages(texts), 0, o.embed);
    IngestPagesEffect(s, docId, CleanPages(texts), 0, o.embed);
    AfterLoop(s, p, docId, plan, o, other);
  }

  /** The end of a run once the page loop is done, in terms of the plan:
      the status step after a failed loop, the metrics step otherwise. */
  lemma AfterLoop(s: Store, p: Progress, docId: string, plan: seq<PageRow>, o: Oracles, other: string)
    requires LoopEffect(s, p, docId, plan, ChunkPlan(plan), o.embed)
    ensures var r := if !p.ok then SetStatus(p.store, docId, Failed) else RecordMetrics(p.store, docId, o);
      var x := Extraction.ExtractMetrics(FullText(s.pages + plan, docId, o), o.generate, o.parse);
      var goes := p.ok && x.Ok? && x.value.Object? && o.metricsAccepted(MetricsRowFor(docId, x.value.fields));
      && Extends(s, r)
      && (other != docId ==> StatusOf(r, other) == StatusOf(s, other))
      && (StatusOf(s, docId).Some? ==> StatusOf(r, docId) == Some(if goes then Ready else Failed))
      && (goes ==> r.metrics == s.metrics + [MetricsRowFor(docId, x.value.fields)])
      && (!goes ==> r.metrics == s.metrics)
      && r.chunks == s.chunks + Attached(docId, ChunkPlan(plan), o.embed)
      && IsPrefix(s.pages, r.pages)
      && IsPrefix(r.pages[|s.pages|..], plan)
  {
    var r := if !p.ok then SetStatus(p.store, docId, Failed) else RecordMetrics(p.store, docId, o);
    LoopExtends(s, p, docId, plan, ChunkPlan(plan), o.embed);
    StatusOfSameRows(s, p.store, docId);
    StatusOfSameRows(s, p.store, other);
    if !p.ok {
      SetStatusThenStatusOf(p.store, docId, Failed, other);
      ExtendsBySetStatus(p.store, docId, Failed);
    } else {
      RecordMetricsEffect(p.store, docId, o, other);
      ExtendsByRecordMetrics(p.store, docId, o);
    }
    ExtendsTrans(s, p.store, r);
  }

  lemma StatusOfSameRows(s: Store, t: Store, id: string)
    requires s.documents == t.documents
    ensures StatusOf(s, id) == StatusOf(t, id)
  {
  }

  lemma LoopExtends(s: Store, p: Progress, docId: string, plan: seq<PageRow>, cp: seq<Chunking.Chunk>, embed: string -> Option<Embedding>)
    requires LoopEffect(s, p, docId, plan, cp, embed)
    ensures Extends(s, p.store)
  {
    assert p.store.chunks[..|s.chunks|] == s.chunks;
    assert p.store.metrics[..|s.metrics|] == s.metrics;
  }

  lemma ExtendsBySetStatus(s: Store, docId: string, st: Status)
    ensures Extends(s, SetStatus(s, docId, st))
  {
    var r := SetStatus(s, docId, st);
    assert r.pages[..|s.pages|] == s.pages;
    assert r.chunks[..|s.chunks|] == s.chunks;
    assert r.metrics[..|s.metrics|] == s.metrics;
  }

  lemma ExtendsByRecordMetrics(s: Store, docId: string, o: Oracles)
    ensures Extends(s, RecordMetrics(s, docId, o))
  {
    var r := RecordMetrics(s, docId, o);
    RecordMetricsEffect(s, docId, o, docId);
    assert r.pages[..|s.pages|] == s.pages;
    assert r.chunks[..|s.chunks|] == s.chunks;
    assert r.metrics[..|s.metrics|] == s.metrics;
  }

  // ----- What extraction reads and what it records -----

  /** Selecting a document's pages distributes over appended rows. */
  lemma {:induction false} PagesOfAppend(a: seq<PageRow>, b: seq<PageRow>, docId: string)
    ensures PagesOf(a + b, docId) == PagesOf(a, docId) + PagesOf(b, docId)
    decreases |a|
  {
    if a != [] {
      PagesOfAppend(a[1..], b, docId);
      assert (a + b)[0] == a[0];
      assert (a + b)[1..] == a[1..] + b;
      assert PagesOf(a + b, docId) == (if a[0].documentId == docId then [a[0]] else []) + PagesOf(a[1..] + b, docId);
      assert PagesOf(a, docId) == (if a[0].documentId == docId then [a[0]] else []) + PagesOf(a[1..], docId);
    } else {
      assert a + b == b;
    }
  }

  /** Rows that all belong to the document are all selected. */
  lemma {:induction false} PagesOfOwn(rows: seq<PageRow>, docId: string)
    requires forall j :: 0 <= j < |rows| ==> rows[j].documentId == docId
    ensures PagesOf(rows, docId) == rows
    decreases |rows|
  {
    if rows != [] {
      PagesOfOwn(rows[1..], docId);
      assert rows == [rows[0]] + rows[1..];
    }
  }

  /** Every planned row belongs to the document. */
  lemma {:induction false} PagePlanOwn(docId: string, cleaned: seq<string>, first: nat)
    requires first <= |cleaned|
    ensures var plan := PagePlan(docId, cleaned, first);
      forall j :: 0 <= j < |plan| ==> plan[j].documentId == docId
    decreases |cleaned| - first
  {
    if first < |cleaned| {
      PagePlanOwn(docId, cleaned, first + 1);
      PagePlanShift(docId, cleaned, first);
    }
  }

  /** When the table reads rows back in the order they were written and
      the document had no pages before the run, extraction sees the
      cleaned non-empty pages in page order, separated by single spaces. */
  lemma FullTextInPageOrder(s: Store, docId: string, texts: seq<string>, o: Oracles)
    requires forall rows :: o.readBack(rows) == rows
    requires PagesOf(s.pages, docId) == []
    ensures var plan := PagePlan(docId, CleanPages(texts), 0);
      FullText(s.pages + plan, docId, o) == Join(RawTexts(plan), " ")
  {
    var cleaned := CleanPages(texts);
    var plan := PagePlan(docId, cleaned, 0);
    PagePlanOwn(docId, cleaned, 0);
    forall j | 0 <= j < |plan| ensures plan[j].documentId == docId {
      assert PagePlan(docId, cleaned, 0)[j].documentId == docId;
    }
    PagesOfAppend(s.pages, plan, docId);
    PagesOfOwn(plan, docId);
    assert PagesOf(s.pages + plan, docId) == plan;
  }

  /** The metrics row carries the document id under "document_id" unless
      the reply has a field of that name, which then wins; every field of
      the reply keeps the value of its last occurrence. */
  lemma MetricsRowDocId(docId: string, fields: seq<(string, Json.Value)>)
    ensures var row := MetricsRowFor(docId, fields);
      && (DocumentIdKey !in Json.Keys(fields) ==> row[DocumentIdKey] == Json.Str(docId))
      && forall k :: k in Json.Keys(fields) ==> row[k] == Json.ToMap(fields)[k]
  {
    var h := (DocumentIdKey, Json.Str(docId));
    Json.ToMapAfterHead(h, fields, DocumentIdKey);
    forall k | k in Json.Keys(fields) ensures MetricsRowFor(docId, fields)[k] == Json.ToMap(fields)[k] {
      Json.ToMapAfterHead(h, fields, k);
    }
  }
}
