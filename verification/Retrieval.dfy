/** Question answering over a stored document (`query_document` in
    app/retrieval_service.py). The embedding service, the
    `match_document_chunks` similarity search and the language model are
    parameters; the search returns the stored chunks closest to the
    question's embedding, at most `MatchCount` of them. */
module Retrieval {
  import opened Common
  import Extraction

  /** How many chunks the similarity search is asked for. */
  const MatchCount: nat := 10

  /** How much of a chunk a source excerpt shows. */
  const ExcerptLimit: nat := 300

  const NotFound: string := "No relevant information found."

  /** What separates two context blocks in the prompt. */
  const BlockSeparator: string := "\n\n"

  const PageOpen: string := "(Page "
  const PageClose: string := ") "

  /** A row returned by the similarity search. */
  datatype Match = Match(pageNumber: int, content: string)

  /** A source cited with the answer: the page and the start of the chunk. */
  datatype Source = Source(page: int, excerpt: string)

  datatype Answer = Answer(answer: string, sources: seq<Source>)

  /** The search call raises, or returns its data, which may be null. */
  datatype SearchReply = SearchRaised | Data(rows: Option<seq<Match>>)

  datatype QueryError = EmbeddingFailed | SearchFailed | GenerationFailed | NoAnswerText

  /** `not matches`: a null result and an empty list both mean nothing
      was found. */
  predicate Found(rows: Option<seq<Match>>) {
    rows.Some? && rows.value != []
  }

  /** The context block of one match: its page label, then its text. */
  function Block(m: Match): (b: string)
    ensures StartsWith(b, PageOpen) && EndsWith(b, PageClose + m.content)
  {
    var head := PageOpen + IntToDecimal(m.pageNumber);
    assert (head + (PageClose + m.content))[..|PageOpen|] == PageOpen;
    AppendAssoc(head, PageClose, m.content);
    head + PageClose + m.content
  }

  function Blocks(ms: seq<Match>): (bs: seq<string>)
    ensures |bs| == |ms| && forall i :: 0 <= i < |ms| ==> bs[i] == Block(ms[i])
  {
    seq(|ms|, i requires 0 <= i < |ms| => Block(ms[i]))
  }

  /** The context handed to the model: the blocks of all matches, in the
      order the search returned them, separated by blank lines. */
  function Context(ms: seq<Match>): string {
    Join(Blocks(ms), BlockSeparator)
  }

  /** One source per match, in the same order: the match's page and the
      first characters of its text. */
  function Sources(ms: seq<Match>): (r: seq<Source>)
    ensures |r| == |ms|
    ensures forall i :: 0 <= i < |ms| ==>
      && r[i].page == ms[i].pageNumber
      && StartsWith(ms[i].content, r[i].excerpt)
      && |r[i].excerpt| == Min(ExcerptLimit, |ms[i].content|)
  {
    seq(|ms|, i requires 0 <= i < |ms| => Source(ms[i].pageNumber, Take(ms[i].content, ExcerptLimit)))
  }

  /** `query_document(document_id, question)`: embed the question, search
      the document's chunks, and either report that nothing was found or
      ask the model with the matches as context and return its stripped
      answer with the sources. Failures of the three services propagate,
      and so does a reply without text. */
  function QueryDocument(
    docId: string,
    question: string,
    embed: string -> Option<Embedding>,
    search: (Embedding, string, nat) -> SearchReply,
    generate: (string, string) -> Extraction.Reply)
    : (r: Result<Answer, QueryError>)
    ensures embed(question).None? ==> r == Err(EmbeddingFailed)
    ensures embed(question).Some? ==>
      match search(embed(question).value, docId, MatchCount)
      case SearchRaised => r == Err(SearchFailed)
      case Data(rows) =>
        if !Found(rows) then r == Ok(Answer(NotFound, []))
        else
          && (r.Ok? <==> generate(question, Context(rows.value)).Answered? && generate(question, Context(rows.value)).text.Some?)
          && (r.Ok? ==> r.value.sources == Sources(rows.value))
          && (r.Ok? ==> r.value.answer == Strip(generate(question, Context(rows.value)).text.value))
    ensures r.Ok? ==> Trimmed(r.value.answer)
  {
    match embed(question)
    case None => Err(EmbeddingFailed)
    case Some(e) =>
      match search(e, docId, MatchCount)
      case SearchRaised => Err(SearchFailed)
      case Data(rows) =>
        if !Found(rows) then Ok(Answer(NotFound, []))
        else
          var ms := rows.value;
          match generate(question, Context(ms))
          case Raised => Err(GenerationFailed)
          case Answered(None) => Err(NoAnswerText)
          case Answered(Some(text)) => Ok(Answer(Strip(text), Sources(ms)))
  }

  /** When nothing is found the model is never consulted: the answer is
      the same whatever it would say. */
  lemma NothingFoundIgnoresModel(
    docId: string, question: string, embed: string -> Option<Embedding>,
    search: (Embedding, string, nat) -> SearchReply,
    g1: (string, string) -> Extraction.Reply, g2: (string, string) -> Extraction.Reply)
    requires embed(question).Some?
    requires search(embed(question).value, docId, MatchCount).Data?
    requires !Found(search(embed(question).value, docId, MatchCount).rows)
    ensures QueryDocument(docId, question, embed, search, g1) == QueryDocument(docId, question, embed, search, g2)
    ensures QueryDocument(docId, question, embed, search, g1) == Ok(Answer(NotFound, []))
  {
  }

  // ----- The context -----

  /** The context grows block by block, one blank line between blocks. */
  lemma ContextSnoc(ms: seq<Match>, m: Match)
    ensures Context(ms + [m]) == if ms == [] then Block(m) else Context(ms) + BlockSeparator + Block(m)
  {
    assert Blocks(ms + [m]) == Blocks(ms) + [Block(m)];
    JoinSnoc(Blocks(ms), Block(m), BlockSeparator);
  }

  /** Every part of a join appears in it. */
  lemma {:induction false} JoinHasPart(parts: seq<string>, sep: string, i: nat)
    requires i < |parts|
    ensures exists k :: OccursAt(Join(parts, sep), parts[i], k)
    decreases |parts|
  {
    var j := Join(parts, sep);
    if i == 0 {
      assert OccursAt(j, parts[0], 0);
    } else {
      JoinHasPart(parts[1..], sep, i - 1);
      var k :| OccursAt(Join(parts[1..], sep), parts[1..][i - 1], k);
      var off := |parts[0]| + |sep|;
      assert j == (parts[0] + sep) + Join(parts[1..], sep);
      assert j[off + k..off + k + |parts[i]|] == Join(parts[1..], sep)[k..k + |parts[i]|];
      assert OccursAt(j, parts[i], off + k);
    }
  }

  /** The model sees every match: each one's block is in the context. */
  lemma ContextHasEveryMatch(ms: seq<Match>, i: nat)
    requires i < |ms|
    ensures exists k :: OccursAt(Context(ms), Block(ms[i]), k)
  {
    JoinHasPart(Blocks(ms), BlockSeparator, i);
    var k :| OccursAt(Join(Blocks(ms), BlockSeparator), Blocks(ms)[i], k);
    assert OccursAt(Context(ms), Block(ms[i]), k);
  }

  /** The page label of a block reads back as the match's page number. */
  lemma PageLabelReadsBack(m: Match)
    requires m.pageNumber >= 0
    ensures var digits := NatToDecimal(m.pageNumber);
      var b := Block(m);
      && StartsWith(b, PageOpen)
      && b[|PageOpen|..|PageOpen| + |digits|] == digits
      && DecimalValue(digits) == m.pageNumber
      && b[|PageOpen| + |digits|..] == PageClose + m.content
  {
    var digits := NatToDecimal(m.pageNumber);
    NatToDecimalRoundTrip(m.pageNumber);
    var head := PageOpen + digits;
    assert Block(m) == head + (PageClose + m.content);
    assert Block(m)[|head|..] == PageClose + m.content;
  }
}
