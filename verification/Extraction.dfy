/** Metric extraction from a document's text (`extract_metrics` in
    app/extraction_service.py). The language model and the JSON parser are
    parameters: `generate` receives the part of the text that goes into the
    prompt, `parse` is a partial function from text to a JSON value. */
module Extraction {
  import opened Common
  import Json

  /** Only this many leading characters of the text reach the prompt. */
  const PromptLimit: nat := 12000

  const Fence: string := "```"
  const JsonFence: string := "```json"

  /** The metric fields of a record, in the order the schema lists them;
      the fallback adds `risk_summary` after them. */
  const MetricKeys: seq<string> :=
    ["purchase_price", "noi", "cap_rate", "occupancy", "units", "year_built", "property_type", "location"]

  const RiskKey: string := "risk_summary"

  const FailureNote: string := "Extraction failed"

  /** What a generation call gives back: it raises, or it answers with a
      text that may be missing. */
  datatype Reply = Raised | Answered(text: Option<string>)

  datatype ExtractionError = GenerationFailed

  /** The record returned when the reply does not parse: every metric
      null and a note in place of the risk summary. */
  const Fallback: Json.Value :=
    Json.Object(Json.NullFields(MetricKeys) + [(RiskKey, Json.Str(FailureNote))])

  /** `full_text[:12000]`: what of the text the prompt carries. */
  function PromptExcerpt(fullText: string): (e: string)
    ensures |e| == Min(PromptLimit, |fullText|) && StartsWith(fullText, e)
  {
    Take(fullText, PromptLimit)
  }

  /** `(response.text or "").strip()`: a missing text counts as empty. */
  function ReplyText(text: Option<string>): (raw: string)
    ensures Trimmed(raw)
    ensures text.None? ==> raw == ""
    ensures text.Some? ==> raw == Strip(text.value)
  {
    Strip(match text case None => "" case Some(t) => t)
  }

  /** Markdown fence removal: only a text that starts with three backticks
      loses every "```json", then every "```", and is stripped again;
      any other text is left as it is. */
  function Unfence(raw: string): (t: string)
    ensures !StartsWith(raw, Fence) ==> t == raw
    ensures StartsWith(raw, Fence) ==> Trimmed(t) && |t| <= |raw|
  {
    if StartsWith(raw, Fence) then Strip(RemoveAll(RemoveAll(raw, JsonFence), Fence)) else raw
  }

  /** `extract_metrics(full_text)`: a failing generation call propagates;
      otherwise the cleaned reply is parsed, and a reply that does not
      parse gives the fallback record instead of an error. */
  function ExtractMetrics(fullText: string, generate: string -> Reply, parse: string -> Option<Json.Value>)
    : (r: Result<Json.Value, ExtractionError>)
    ensures r.Err? <==> generate(PromptExcerpt(fullText)).Raised?
    ensures r.Ok? ==> r.value == Fallback || parse(Unfence(ReplyText(generate(PromptExcerpt(fullText)).text))) == Some(r.value)
  {
    match generate(PromptExcerpt(fullText))
    case Raised => Err(GenerationFailed)
    case Answered(text) =>
      var cleaned := Unfence(ReplyText(text));
      match parse(cleaned)
      case Some(v) => Ok(v)
      case None => Ok(Fallback)
  }

  /** Text past the first 12000 characters never influences the result. */
  lemma OnlyExcerptMatters(a: string, b: string, generate: string -> Reply, parse: string -> Option<Json.Value>)
    requires Take(a, PromptLimit) == Take(b, PromptLimit)
    ensures ExtractMetrics(a, generate, parse) == ExtractMetrics(b, generate, parse)
  {
  }

  /** A reply that parses is returned unchanged. */
  lemma ParsedReplyReturned(fullText: string, generate: string -> Reply, parse: string -> Option<Json.Value>, text: Option<string>, v: Json.Value)
    requires generate(PromptExcerpt(fullText)) == Answered(text)
    requires parse(Unfence(ReplyText(text))) == Some(v)
    ensures ExtractMetrics(fullText, generate, parse) == Ok(v)
  {
  }

  /** A reply that does not parse, a missing reply text included, gives
      the fallback record and never an error. */
  lemma UnparsedReplyFallsBack(fullText: string, generate: string -> Reply, parse: string -> Option<Json.Value>, text: Option<string>)
    requires generate(PromptExcerpt(fullText)) == Answered(text)
    requires parse(Unfence(ReplyText(text))) == None
    ensures ExtractMetrics(fullText, generate, parse) == Ok(Fallback)
  {
  }

  /** The fallback record has exactly the nine schema keys, each once: the
      eight metrics are null and the risk summary carries the note. */
  lemma FallbackShape()
    ensures Fallback.Object?
    ensures Json.Keys(Fallback.fields) == MetricKeys + [RiskKey]
    ensures forall i, j :: 0 <= i < j < |Fallback.fields| ==> Fallback.fields[i].0 != Fallback.fields[j].0
    ensures forall k :: k in MetricKeys ==> Json.Get(Json.ToMap(Fallback.fields), k) == Json.Null
    ensures Json.Get(Json.ToMap(Fallback.fields), RiskKey) == Json.Str(FailureNote)
  {
    var f8 := Json.NullFields(MetricKeys);
    var f := Fallback.fields;
    assert f[..|f| - 1] == f8;
    Json.ToMapAllNull(f8);
    assert Json.Keys(f) == Json.Keys(f8) + [RiskKey];
  }

  // ----- Fenced replies -----

  /** A text followed by a closing fence, with no backtick triple of its
      own: deleting "```json" finds nothing to delete ... */
  lemma NoJsonFenceBeforeClose(inner: string)
    requires !Occurs(inner, Fence)
    ensures !Occurs(inner + Fence, JsonFence)
  {
    var s := inner + Fence;
    forall i | OccursAt(s, JsonFence, i) ensures false {
      assert inner[i..i + 3] == s[i..i + 7][..3];
      assert OccursAt(inner, Fence, i);
    }
  }

  /** ... and deleting "```" removes exactly the closing fence, even when
      the text ends in one or two backticks of its own. */
  lemma {:induction false} RemoveClosingFence(inner: string)
    requires !Occurs(inner, Fence)
    ensures RemoveAll(inner + Fence, Fence) == inner
    decreases |inner|
  {
    var s := inner + Fence;
    if s[..3] == Fence {
      if |inner| >= 3 {
        assert inner[0..3] == s[..3];
        assert OccursAt(inner, Fence, 0);
        assert false;
      }
      BackticksOnly(inner, s);
    } else {
      NotOccursTail(inner, Fence);
      RemoveClosingFence(inner[1..]);
      assert s[1..] == inner[1..] + Fence;
      assert inner == [inner[0]] + inner[1..];
    }
  }

  /** A text shorter than a fence that, with a fence after it, starts with
      a fence: it is all backticks, so dropping the first three characters
      leaves it. */
  lemma BackticksOnly(inner: string, s: string)
    requires |inner| < 3 && s == inner + Fence && s[..3] == Fence
    ensures s[3..] == inner
  {
    forall k | 0 <= k < |inner| ensures s[3 + k] == inner[k] {
      assert s[k] == Fence[k];
    }
  }

  /** A reply of the form "```json" + inner + "```", with whitespace
      around it and no backtick triple inside, is read as the stripped
      inner text. */
  lemma FencedReplyUnwrapped(a: string, inner: string, b: string)
    requires AllSpace(a) && AllSpace(b) && !Occurs(inner, Fence)
    ensures Unfence(ReplyText(Some(a + JsonFence + inner + Fence + b))) == Strip(inner)
  {
    var raw := JsonFence + inner + Fence;
    assert a + JsonFence + inner + Fence + b == a + raw + b;
    assert Trimmed(raw);
    StripPadded(a, raw, b);
    FencedUnwrapped(inner, raw);
  }

  lemma FencedUnwrapped(inner: string, raw: string)
    requires !Occurs(inner, Fence) && raw == JsonFence + inner + Fence
    ensures Unfence(raw) == Strip(inner)
  {
    assert StartsWith(raw, Fence);
    JsonFenceRemoved(inner, raw);
    RemoveClosingFence(inner);
  }

  lemma JsonFenceRemoved(inner: string, raw: string)
    requires !Occurs(inner, Fence) && raw == JsonFence + inner + Fence
    ensures RemoveAll(raw, JsonFence) == inner + Fence
  {
    assert raw[..7] == JsonFence;
    assert raw[7..] == inner + Fence;
    NoJsonFenceBeforeClose(inner);
    RemoveAbsent(inner + Fence, JsonFence);
  }

  /** Hence a fenced JSON reply gives the same result as the inner text
      on its own. */
  lemma FencedReplyParsesInner(fullText: string, generate: string -> Reply, parse: string -> Option<Json.Value>, a: string, inner: string, b: string)
    requires AllSpace(a) && AllSpace(b) && !Occurs(inner, Fence)
    requires generate(PromptExcerpt(fullText)) == Answered(Some(a + JsonFence + inner + Fence + b))
    ensures ExtractMetrics(fullText, generate, parse)
         == Ok(match parse(Strip(inner)) case Some(v) => v case None => Fallback)
  {
    FencedReplyUnwrapped(a, inner, b);
  }
}
