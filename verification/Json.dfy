/** The JSON values the language model's reply is parsed into. The parser
    itself is not modelled: services receive it as a partial function from
    text to a value. Numbers keep their literal text because the service
    never computes with them. */
module Json {

  datatype Value =
    | Null
    | Bool(truth: bool)
    | Number(literal: string)
    | Str(text: string)
    | Array(items: seq<Value>)
    | Object(fields: seq<(string, Value)>)

  /** The keys of an object's fields, in order of appearance. */
  function Keys(fields: seq<(string, Value)>): (ks: seq<string>)
    ensures |ks| == |fields|
    ensures forall i :: 0 <= i < |fields| ==> ks[i] == fields[i].0
  {
    seq(|fields|, i requires 0 <= i < |fields| => fields[i].0)
  }

  /** The dictionary Python builds from an object's fields: a repeated key
      keeps the value of its last occurrence. */
  function ToMap(fields: seq<(string, Value)>): (m: map<string, Value>)
    ensures forall k :: k in m <==> k in Keys(fields)
    decreases |fields|
  {
    if fields == [] then map[]
    else
      var last := fields[|fields| - 1];
      var init := fields[..|fields| - 1];
      assert Keys(fields) == Keys(init) + [last.0];
      ToMap(init)[last.0 := last.1]
  }

  /** The value a dictionary holds for a key, or null when the key is
      absent (Python's `d.get(k)`). */
  function Get(m: map<string, Value>, k: string): (v: Value)
    ensures k !in m ==> v == Null
    ensures k in m ==> v == m[k]
  {
    if k in m then m[k] else Null
  }

  /** The fields of an object whose given keys are all null. */
  function NullFields(keys: seq<string>): (fields: seq<(string, Value)>)
    ensures |fields| == |keys|
    ensures forall i :: 0 <= i < |keys| ==> fields[i] == (keys[i], Null)
  {
    seq(|keys|, i requires 0 <= i < |keys| => (keys[i], Null))
  }

  /** A dictionary built from fields that are all null maps every key it
      has to null. */
  lemma {:induction false} ToMapAllNull(fields: seq<(string, Value)>)
    requires forall i :: 0 <= i < |fields| ==> fields[i].1 == Null
    ensures forall k :: k in ToMap(fields) ==> ToMap(fields)[k] == Null
    decreases |fields|
  {
    if fields != [] {
      ToMapAllNull(fields[..|fields| - 1]);
    }
  }

  /** Appending a field overrides the dictionary at its key. */
  lemma ToMapSnoc(fields: seq<(string, Value)>, last: (string, Value))
    ensures ToMap(fields + [last]) == ToMap(fields)[last.0 := last.1]
  {
    assert (fields + [last])[..|fields|] == fields;
  }

  /** A field placed before the others only shows in the dictionary when
      no later field has its key; every later key keeps its own value. */
  lemma ToMapAfterHead(h: (string, Value), fields: seq<(string, Value)>, k: string)
    ensures k in ToMap([h] + fields) <==> k == h.0 || k in ToMap(fields)
    ensures k in ToMap(fields) ==> ToMap([h] + fields)[k] == ToMap(fields)[k]
    ensures k == h.0 && k !in ToMap(fields) ==> ToMap([h] + fields)[k] == h.1
  {
    assert Keys([h] + fields) == [h.0] + Keys(fields);
    if k == h.0 || k in ToMap(fields) {
      ToMapHeadValue(h, fields, k);
    }
  }

  lemma {:induction false} ToMapHeadValue(h: (string, Value), fields: seq<(string, Value)>, k: string)
    requires k == h.0 || k in ToMap(fields)
    ensures k in ToMap([h] + fields)
    ensures ToMap([h] + fields)[k] == if k in ToMap(fields) then ToMap(fields)[k] else h.1
    decreases |fields|
  {
    assert Keys([h] + fields) == [h.0] + Keys(fields);
    if fields == [] {
      assert [h] + fields == [] + [h];
      ToMapSnoc([], h);
    } else {
      var last := fields[|fields| - 1];
      var init := fields[..|fields| - 1];
      assert fields == init + [last];
      ToMapSnoc(init, last);
      if k != last.0 {
        ToMapHeadValue(h, init, k);
      }
      assert [h] + fields == ([h] + init) + [last];
      ToMapSnoc([h] + init, last);
    }
  }
}
