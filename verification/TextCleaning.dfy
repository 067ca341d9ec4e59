/** Page text normalisation (`clean_text` in app/pdf_service.py): every run
    of whitespace becomes one space and the ends are trimmed. The module
    proves the shape of the result, that the non-whitespace characters
    survive in order, idempotence, when the result is empty, and that the
    operation agrees with the reference "split into words, join with one
    space". */
module TextCleaning {
  import opened Common

  /** The non-whitespace characters of `s`, in order. */
  function NonSpace(s: string): string
    decreases |s|
  {
    if s == [] then [] else (if IsSpace(s[0]) then [] else [s[0]]) + NonSpace(s[1..])
  }

  predicate NoDoubleSpace(s: string) {
    forall i :: 0 <= i < |s| - 1 ==> !(IsSpace(s[i]) && IsSpace(s[i + 1]))
  }

  predicate OnlyPlainSpaces(s: string) {
    forall i :: 0 <= i < |s| && IsSpace(s[i]) ==> s[i] == ' '
  }

  /** The shape of a normalised text. */
  predicate IsClean(s: string) {
    Trimmed(s) && NoDoubleSpace(s) && OnlyPlainSpaces(s)
  }

  /** `re.sub(r"\s+", " ", s)`: each maximal whitespace run, matched
      leftmost and greedily, is replaced by a single space. */
  function Collapse(s: string): string
    decreases |s|
  {
    if s == [] then []
    else if IsSpace(s[0]) then
      assert LeadLen(s) > 0;
      [' '] + Collapse(StripLeft(s))
    else [s[0]] + Collapse(s[1..])
  }

  /** The collapse leaves single plain spaces between the non-whitespace
      characters, which it keeps in order, and starts with whitespace
      exactly when its input does. */
  lemma {:induction false} CollapseShape(s: string)
    ensures var r := Collapse(s);
            && NoDoubleSpace(r) && OnlyPlainSpaces(r)
            && NonSpace(r) == NonSpace(s)
            && (|r| == 0 <==> |s| == 0)
            && (|r| > 0 ==> (IsSpace(r[0]) <==> IsSpace(s[0])))
    decreases |s|
  {
    if s != [] {
      var r := Collapse(s);
      if IsSpace(s[0]) {
        var t := StripLeft(s);
        CollapseShape(t);
        SpacesBetweenSlice(s, 0, LeadLen(s));
        NonSpaceOfSpaces(s[..LeadLen(s)], t);
        assert s == s[..LeadLen(s)] + t;
        ConsShape(' ', Collapse(t));
      } else {
        CollapseShape(s[1..]);
        assert s == [s[0]] + s[1..];
        ConsShape(s[0], Collapse(s[1..]));
      }
    }
  }

  lemma ConsShape(c: char, r: string)
    requires NoDoubleSpace(r) && OnlyPlainSpaces(r)
    requires IsSpace(c) ==> c == ' ' && (|r| > 0 ==> !IsSpace(r[0]))
    ensures NoDoubleSpace([c] + r) && OnlyPlainSpaces([c] + r)
    ensures NonSpace([c] + r) == (if IsSpace(c) then [] else [c]) + NonSpace(r)
  {
    var cr := [c] + r;
    assert cr[1..] == r;
    forall k | 0 <= k < |cr| - 1 ensures !(IsSpace(cr[k]) && IsSpace(cr[k + 1])) {
      if k > 0 { assert cr[k] == r[k - 1] && cr[k + 1] == r[k]; }
    }
    forall k | 0 <= k < |cr| && IsSpace(cr[k]) ensures cr[k] == ' ' {
      if k > 0 { assert cr[k] == r[k - 1]; }
    }
  }

  /** `clean_text`: collapse the whitespace runs, then strip the ends. */
  function CleanText(s: string): (r: string)
    ensures IsClean(r)
    ensures NonSpace(r) == NonSpace(s)
    ensures r == [] <==> AllSpace(s)
  {
    var r := Strip(Collapse(s));
    CollapseShape(s);
    StripKeepsShape(Collapse(s));
    NonSpaceEmpty(s);
    NonSpaceEmpty(r);
    r
  }

  /** Stripping keeps the single-space shape and the non-whitespace
      characters of a collapsed text. */
  lemma StripKeepsShape(c: string)
    requires NoDoubleSpace(c) && OnlyPlainSpaces(c)
    ensures IsClean(Strip(c)) && NonSpace(Strip(c)) == NonSpace(c)
  {
    var r := Strip(c);
    NonSpaceEmpty(c);
    if r != [] {
      var i := LeadLen(c);
      var j := |c| - TrailLen(c);
      SliceKeepsShape(c, r, i);
      SpacesBetweenSlice(c, 0, i);
      SpacesBetweenSlice(c, j, |c|);
      SpacePaddingKeepsNonSpace(c, i, j);
    }
  }

  lemma SliceKeepsShape(c: string, r: string, i: nat)
    requires NoDoubleSpace(c) && OnlyPlainSpaces(c)
    requires i + |r| <= |c| && r == c[i..i + |r|]
    ensures NoDoubleSpace(r) && OnlyPlainSpaces(r)
  {
    forall k | 0 <= k < |r| - 1 ensures !(IsSpace(r[k]) && IsSpace(r[k + 1])) {
      assert r[k] == c[i + k] && r[k + 1] == c[i + k + 1];
    }
    forall k | 0 <= k < |r| && IsSpace(r[k]) ensures r[k] == ' ' {
      assert r[k] == c[i + k];
    }
  }

  lemma SpacePaddingKeepsNonSpace(c: string, i: nat, j: nat)
    requires i <= j <= |c|
    requires AllSpace(c[..i]) && AllSpace(c[j..])
    ensures NonSpace(c[i..j]) == NonSpace(c)
  {
    NonSpaceEmpty(c[..i]);
    NonSpaceEmpty(c[j..]);
    NonSpaceSplit(c, j);
    NonSpaceSplit(c[..j], i);
    assert c[..j][..i] == c[..i] && c[..j][i..] == c[i..j];
    assert NonSpace(c[i..j]) + [] == NonSpace(c[i..j]);
  }

  /** The non-whitespace characters of a text are those before a position
      followed by those after it. */
  lemma NonSpaceSplit(s: string, n: nat)
    requires n <= |s|
    ensures NonSpace(s) == NonSpace(s[..n]) + NonSpace(s[n..])
  {
    SplitAt(s, n);
    NonSpaceAppend(s[..n], s[n..]);
  }

  lemma ConcatParts(a: string, b: string)
    ensures a == [] ==> a + b == b
    ensures a != [] ==> (a + b)[0] == a[0] && (a + b)[1..] == a[1..] + b
  {
  }

  lemma SplitAt(s: string, n: nat)
    requires n <= |s|
    ensures s == s[..n] + s[n..]
  {
  }

  lemma {:induction false} NonSpaceAppend(a: string, b: string)
    ensures NonSpace(a + b) == NonSpace(a) + NonSpace(b)
    decreases |a|
  {
    ConcatParts(a, b);
    if a != [] {
      NonSpaceAppend(a[1..], b);
      var h := if IsSpace(a[0]) then [] else [a[0]];
      AppendAssoc(h, NonSpace(a[1..]), NonSpace(b));
    }
  }

  lemma {:induction false} NonSpaceOfSpaces(a: string, b: string)
    requires AllSpace(a)
    ensures NonSpace(a + b) == NonSpace(b)
    decreases |a|
  {
    ConcatParts(a, b);
    if a != [] {
      NonSpaceOfSpaces(a[1..], b);
    }
  }

  /** A text has no non-whitespace characters exactly when it is all
      whitespace. */
  lemma {:induction false} NonSpaceEmpty(s: string)
    ensures NonSpace(s) == [] <==> AllSpace(s)
    decreases |s|
  {
    if s != [] {
      NonSpaceEmpty(s[1..]);
      if AllSpace(s[1..]) && IsSpace(s[0]) {
        assert AllSpace(s) by {
          forall k | 0 <= k < |s| ensures IsSpace(s[k]) {
            if k > 0 { assert s[k] == s[1..][k - 1]; }
          }
        }
      }
      if AllSpace(s) {
        assert AllSpace(s[1..]) by {
          forall k | 0 <= k < |s| - 1 ensures IsSpace(s[1..][k]) {
            assert s[1..][k] == s[k + 1];
          }
        }
      }
    }
  }

  /** A text that already has the normalised shape is left alone by the
      whitespace collapse. */
  lemma {:induction false} CollapseFixesSingleSpaces(s: string)
    requires NoDoubleSpace(s) && OnlyPlainSpaces(s)
    ensures Collapse(s) == s
    decreases |s|
  {
    if s != [] {
      assert NoDoubleSpace(s[1..]) by {
        forall k | 0 <= k < |s[1..]| - 1
          ensures !(IsSpace(s[1..][k]) && IsSpace(s[1..][k + 1]))
        {
          assert s[1..][k] == s[k + 1] && s[1..][k + 1] == s[k + 2];
        }
      }
      assert OnlyPlainSpaces(s[1..]) by {
        forall k | 0 <= k < |s[1..]| && IsSpace(s[1..][k]) ensures s[1..][k] == ' ' {
          assert s[1..][k] == s[k + 1];
        }
      }
      CollapseFixesSingleSpaces(s[1..]);
      if IsSpace(s[0]) {
        assert s[0] == ' ';
        assert |s| > 1 ==> !IsSpace(s[1]);
        assert StripLeft(s) == s[1..];
      }
      assert s == [s[0]] + s[1..];
    }
  }

  /** Cleaning a clean text changes nothing. */
  lemma CleanTextFixesClean(s: string)
    requires IsClean(s)
    ensures CleanText(s) == s
  {
    CollapseFixesSingleSpaces(s);
    StripPadded([], s, []);
    assert [] + s + [] == s;
  }

  /** `clean_text` is idempotent. */
  lemma CleanTextIdempotent(s: string)
    ensures CleanText(CleanText(s)) == CleanText(s)
  {
    CleanTextFixesClean(CleanText(s));
  }

  // ----- Reference definition: " ".join(s.split()) -----

  predicate NoSpaceIn(w: string) {
    forall i :: 0 <= i < |w| ==> !IsSpace(w[i])
  }

  /** The longest whitespace-free prefix of `s`. */
  function WordPrefix(s: string): (w: string)
    ensures |w| <= |s| && w == s[..|w|]
    ensures NoSpaceIn(w)
    ensures |w| < |s| ==> IsSpace(s[|w|])
    ensures |s| > 0 && !IsSpace(s[0]) ==> |w| > 0
    decreases |s|
  {
    if |s| > 0 && !IsSpace(s[0]) then [s[0]] + WordPrefix(s[1..]) else []
  }

  /** `s.split()`: the maximal whitespace-free runs of `s`, in order. */
  function Words(s: string): (ws: seq<string>)
    ensures ProperWords(ws)
    decreases |s|
  {
    var t := StripLeft(s);
    if t == [] then []
    else
      var w := WordPrefix(t);
      var rest := Words(t[|w|..]);
      ProperWordsCons(w, rest);
      [w] + rest
  }

  /** Every word is non-empty and free of whitespace. */
  predicate ProperWords(ws: seq<string>) {
    forall i :: 0 <= i < |ws| ==> |ws[i]| > 0 && NoSpaceIn(ws[i])
  }

  lemma ProperWordsCons(w: string, ws: seq<string>)
    requires |w| > 0 && NoSpaceIn(w) && ProperWords(ws)
    ensures ProperWords([w] + ws)
  {
    forall i | 0 <= i < |[w] + ws| ensures |([w] + ws)[i]| > 0 && NoSpaceIn(([w] + ws)[i]) {
      if i > 0 { assert ([w] + ws)[i] == ws[i - 1]; }
    }
  }

  predicate EndsInSpace(s: string) {
    |s| > 0 && IsSpace(s[|s| - 1])
  }

  lemma {:induction false} CollapseWord(w: string, rest: string)
    requires NoSpaceIn(w)
    ensures Collapse(w + rest) == w + Collapse(rest)
    decreases |w|
  {
    if w == [] {
      assert w + rest == rest;
    } else {
      assert (w + rest)[0] == w[0];
      assert (w + rest)[1..] == w[1..] + rest;
      CollapseWord(w[1..], rest);
      assert w == [w[0]] + w[1..];
    }
  }

  /** The joined words of a text of non-empty, whitespace-free words are
      trimmed. */
  lemma {:induction false} JoinWordsTrimmed(ws: seq<string>)
    requires ProperWords(ws)
    ensures Trimmed(Join(ws, " "))
    ensures |ws| > 0 ==> |Join(ws, " ")| > 0
    decreases |ws|
  {
    if |ws| > 1 {
      assert ProperWords(ws[1..]) by {
        forall i | 0 <= i < |ws[1..]| ensures |ws[1..][i]| > 0 && NoSpaceIn(ws[1..][i]) {
          assert ws[1..][i] == ws[i + 1];
        }
      }
      JoinWordsTrimmed(ws[1..]);
      var j := Join(ws, " ");
      var tail := Join(ws[1..], " ");
      assert j == ws[0] + " " + tail;
      assert j[0] == ws[0][0];
      assert j[|j| - 1] == tail[|tail| - 1];
    }
  }

  /** A text that starts with a word: its first word comes first among
      its words ... */
  lemma LeadingWordWords(t: string)
    requires t != [] && !IsSpace(t[0])
    ensures Words(t) == [WordPrefix(t)] + Words(t[|WordPrefix(t)|..])
  {
    assert StripLeft(t) == t;
  }

  /** ... and the collapse keeps it unchanged in front. */
  lemma LeadingWordCollapse(t: string)
    requires t != [] && !IsSpace(t[0])
    ensures Collapse(t) == WordPrefix(t) + Collapse(t[|WordPrefix(t)|..])
  {
    var w := WordPrefix(t);
    assert t == w + t[|w|..];
    CollapseWord(w, t[|w|..]);
  }

  /** Stripping leading whitespace keeps the last character, and strips
      everything only from a text that ends in whitespace. */
  lemma StripLeftKeepsEnd(t: string)
    requires t != [] && IsSpace(t[0])
    ensures StripLeft(t) == [] ==> EndsInSpace(t)
    ensures StripLeft(t) != [] ==> t[|t| - 1] == StripLeft(t)[|StripLeft(t)| - 1]
  {
    if StripLeft(t) == [] {
      assert t[..|t|] == t;
      assert IsSpace(t[|t| - 1]);
    }
  }

  /** A text that starts with whitespace: the run becomes one space and
      contributes no word. */
  lemma LeadingSpaces(t: string)
    requires t != [] && IsSpace(t[0])
    ensures Collapse(t) == " " + Collapse(StripLeft(t))
    ensures Words(t) == Words(StripLeft(t))
  {
    var u := StripLeft(t);
    assert StripLeft(u) == u;
  }

  lemma JoinCons(w: string, ws: seq<string>, sep: string)
    requires ws != []
    ensures Join([w] + ws, sep) == w + sep + Join(ws, sep)
  {
    assert ([w] + ws)[1..] == ws;
  }

  /** One space when `s` starts with whitespace, nothing otherwise. */
  function LeadMark(s: string): (m: string)
    ensures AllSpace(m)
  {
    if s != [] && IsSpace(s[0]) then " " else ""
  }

  /** One space when `s` ends with whitespace, nothing otherwise. */
  function TailMark(s: string): (m: string)
    ensures AllSpace(m)
  {
    if EndsInSpace(s) then " " else ""
  }

  lemma CollapseSplitsLead(s: string)
    ensures Collapse(s) == LeadMark(s) + Collapse(StripLeft(s))
    ensures Words(s) == Words(StripLeft(s))
  {
    if s != [] && IsSpace(s[0]) {
      LeadingSpaces(s);
    } else {
      assert StripLeft(s) == s;
    }
  }

  /** A word followed by more text: the collapse puts one space between
      the word and what follows the whitespace run after it, ... */
  lemma WordThenRestCollapse(t: string, w: string, rest: string, rest2: string)
    requires t != [] && !IsSpace(t[0])
    requires w == WordPrefix(t) && |w| < |t| && rest == t[|w|..] && rest2 == StripLeft(rest)
    ensures Collapse(t) == w + " " + Collapse(rest2)
  {
    LeadingWordCollapse(t);
    LeadingSpaces(rest);
  }

  /** ... the word is followed by the words after the run, ... */
  lemma WordThenRestWords(t: string, w: string, rest: string, rest2: string)
    requires t != [] && !IsSpace(t[0])
    requires w == WordPrefix(t) && |w| < |t| && rest == t[|w|..] && rest2 == StripLeft(rest)
    ensures Words(t) == [w] + Words(rest2)
  {
    LeadingWordWords(t);
    LeadingSpaces(rest);
  }

  /** ... and the text ends in whitespace when the run is its end or when
      what follows the run does. */
  lemma WordThenRestTail(t: string, w: string, rest: string, rest2: string)
    requires t != [] && !IsSpace(t[0])
    requires w == WordPrefix(t) && |w| < |t| && rest == t[|w|..] && rest2 == StripLeft(rest)
    ensures TailMark(t) == (if rest2 == [] then " " else TailMark(rest2))
  {
    StripLeftKeepsEnd(rest);
    assert t[|t| - 1] == rest[|rest| - 1];
  }

  /** A text that is one word collapses to that word. */
  lemma SingleWordJoined(t: string)
    requires t != [] && !IsSpace(t[0]) && |WordPrefix(t)| == |t|
    ensures Collapse(t) == Join(Words(t), " ") + TailMark(t)
  {
    var w := WordPrefix(t);
    LeadingWordWords(t);
    LeadingWordCollapse(t);
    assert t[|w|..] == [];
    assert Join([w], " ") == w;
    assert t[|t| - 1] == w[|w| - 1];
  }

  /** A word, a whitespace run, then a text for which the claim holds. */
  lemma WordThenRestJoined(t: string, w: string, rest2: string)
    requires t != [] && !IsSpace(t[0])
    requires w == WordPrefix(t) && |w| < |t| && rest2 == StripLeft(t[|w|..])
    requires rest2 != [] ==> Collapse(rest2) == Join(Words(rest2), " ") + TailMark(rest2)
    ensures Collapse(t) == Join(Words(t), " ") + TailMark(t)
  {
    var rest := t[|w|..];
    WordThenRestCollapse(t, w, rest, rest2);
    WordThenRestWords(t, w, rest, rest2);
    WordThenRestTail(t, w, rest, rest2);
    if rest2 == [] {
      assert Join([w], " ") == w;
    } else {
      LeadingWordWords(rest2);
      JoinedStep(w, Words(rest2), Collapse(rest2), TailMark(rest2));
    }
  }

  /** Putting a word and a space in front of a joined text with its mark. */
  lemma JoinedStep(w: string, ws: seq<string>, c: string, m: string)
    requires ws != [] && c == Join(ws, " ") + m
    ensures w + " " + c == Join([w] + ws, " ") + m
  {
    JoinCons(w, ws, " ");
  }

  /** Collapsing a text that starts with a word gives its words joined by
      single spaces, plus one space when the text ends in whitespace. */
  lemma {:induction false} CollapseIsJoinedWords(t: string)
    requires t == [] || !IsSpace(t[0])
    ensures Collapse(t) == Join(Words(t), " ") + TailMark(t)
    decreases |t|
  {
    if t != [] {
      var w := WordPrefix(t);
      if |w| == |t| {
        SingleWordJoined(t);
      } else {
        var rest2 := StripLeft(t[|w|..]);
        if rest2 != [] {
          CollapseIsJoinedWords(rest2);
        }
        WordThenRestJoined(t, w, rest2);
      }
    }
  }

  /** The collapse of any text is its joined words with at most one space
      of padding on each side. */
  lemma CollapsePadsJoinedWords(s: string)
    ensures Collapse(s) == LeadMark(s) + Join(Words(s), " ") + TailMark(StripLeft(s))
  {
    var t := StripLeft(s);
    CollapseIsJoinedWords(t);
    CollapseSplitsLead(s);
    AppendAssoc(LeadMark(s), Join(Words(t), " "), TailMark(t));
  }

  /** `clean_text(s) == " ".join(s.split())`. */
  lemma CleanTextIsJoinedWords(s: string)
    ensures CleanText(s) == Join(Words(s), " ")
  {
    CollapsePadsJoinedWords(s);
    JoinWordsTrimmed(Words(s));
    StripPadded(LeadMark(s), Join(Words(s), " "), TailMark(StripLeft(s)));
  }
}
