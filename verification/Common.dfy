/** Shared vocabulary of the service: failure-carrying wrappers, the opaque
    embedding vector, and the handful of Python string operations the
    services rely on (whitespace, strip, slicing, prefix tests, replace,
    join, integer formatting), each stated with the contract Python gives it. */
module Common {

  datatype Option<+T> = None | Some(value: T)

  datatype Result<+T, +E> = Ok(value: T) | Err(error: E)

  type Byte = b: int | 0 <= b < 256

  /** A dense embedding vector; no arithmetic is done on it by the service. */
  type Embedding = seq<real>

  function Min(a: int, b: int): int {
    if a <= b then a else b
  }

  /** The characters Python's `str.isspace` accepts, which is also what the
      `\s` class of `re` matches on str patterns. */
  predicate IsSpace(c: char) {
    c in SpaceChars
  }

  const SpaceChars: set<char> :=
    { '\t', '\n', '\U{000B}', '\U{000C}', '\r', '\U{001C}', '\U{001D}', '\U{001E}',
      '\U{001F}', ' ', '\U{0085}', '\U{00A0}', '\U{1680}', '\U{2000}', '\U{2001}',
      '\U{2002}', '\U{2003}', '\U{2004}', '\U{2005}', '\U{2006}', '\U{2007}',
      '\U{2008}', '\U{2009}', '\U{200A}', '\U{2028}', '\U{2029}', '\U{202F}',
      '\U{205F}', '\U{3000}' }

  predicate AllSpace(s: string) {
    forall i :: 0 <= i < |s| ==> IsSpace(s[i])
  }

  /** Neither end of `s` is whitespace. */
  predicate Trimmed(s: string) {
    |s| > 0 ==> !IsSpace(s[0]) && !IsSpace(s[|s| - 1])
  }

  /** Concatenation regroups freely; stated once so that proofs can name
      the three parts instead of searching for them. */
  lemma AppendAssoc<T>(a: seq<T>, b: seq<T>, c: seq<T>)
    ensures a + (b + c) == a + b + c
  {
  }

  /** Position `k` of `s` holds whitespace. */
  predicate SpaceAt(s: string, k: int) {
    0 <= k < |s| && IsSpace(s[k])
  }

  /** Every character of `s` in positions `i` up to `j` is whitespace. */
  predicate SpacesBetween(s: string, i: int, j: int)
    requires 0 <= i && j <= |s|
  {
    forall k :: i <= k < j ==> IsSpace(s[k])
  }

  lemma SpacesBetweenSlice(s: string, i: int, j: int)
    requires 0 <= i <= j <= |s| && SpacesBetween(s, i, j)
    ensures AllSpace(s[i..j])
  {
    forall k | 0 <= k < j - i ensures IsSpace(s[i..j][k]) { assert s[i..j][k] == s[i + k]; }
  }

  /** Length of the whitespace run at the start of `s`. */
  function LeadLen(s: string): (n: nat)
    ensures n <= |s| && SpacesBetween(s, 0, n)
    ensures n < |s| ==> !IsSpace(s[n])
    decreases |s|
  {
    if |s| > 0 && IsSpace(s[0]) then
      var m := LeadLen(s[1..]);
      assert forall k :: 1 <= k < m + 1 ==> s[k] == s[1..][k - 1];
      1 + m
    else 0
  }

  /** Length of the whitespace run at the end of `s`. */
  function TrailLen(s: string): (n: nat)
    ensures n <= |s| && SpacesBetween(s, |s| - n, |s|)
    ensures n < |s| ==> !IsSpace(s[|s| - n - 1])
    decreases |s|
  {
    if |s| > 0 && IsSpace(s[|s| - 1]) then
      var m := TrailLen(s[..|s| - 1]);
      assert forall k :: |s| - 1 - m <= k < |s| - 1 ==> s[k] == s[..|s| - 1][k];
      1 + m
    else 0
  }

  /** The run lengths are determined by where the first (last)
      non-whitespace character sits. */
  lemma LeadLenIs(s: string, n: nat)
    requires n <= |s| && SpacesBetween(s, 0, n) && (n < |s| ==> !IsSpace(s[n]))
    ensures LeadLen(s) == n
  {
    var m := LeadLen(s);
    assert m < n ==> SpaceAt(s, m);
    assert n < m ==> SpaceAt(s, n);
  }

  lemma TrailLenIs(s: string, n: nat)
    requires n <= |s| && SpacesBetween(s, |s| - n, |s|)
    requires n < |s| ==> !IsSpace(s[|s| - n - 1])
    ensures TrailLen(s) == n
  {
    var m := TrailLen(s);
    assert m < n ==> SpaceAt(s, |s| - m - 1);
    assert n < m ==> SpaceAt(s, |s| - n - 1);
  }

  /** `s.lstrip()` */
  function StripLeft(s: string): (r: string)
    ensures r == s[LeadLen(s)..]
    ensures |r| > 0 ==> !IsSpace(r[0])
  {
    s[LeadLen(s)..]
  }

  /** `s.strip()`: what lies between the leading and the trailing
      whitespace run; empty when `s` is all whitespace. */
  function Strip(s: string): (r: string)
    ensures Trimmed(r)
    ensures r == [] <==> AllSpace(s)
    ensures r != [] ==> r == s[LeadLen(s)..|s| - TrailLen(s)]
  {
    var i := LeadLen(s);
    if i == |s| then []
    else
      assert TrailLen(s) < |s| - i by {
        assert TrailLen(s) >= |s| - i ==> SpaceAt(s, i);
      }
      assert !AllSpace(s) by { assert !IsSpace(s[i]); }
      s[i..|s| - TrailLen(s)]
  }

  /** Stripping removes exactly whitespace padding around a trimmed core. */
  lemma StripPadded(a: string, m: string, b: string)
    requires AllSpace(a) && AllSpace(b) && Trimmed(m)
    ensures Strip(a + m + b) == m
  {
    var s := a + m + b;
    if m == [] {
      assert AllSpace(s) by {
        forall k | 0 <= k < |s| ensures IsSpace(s[k]) {
          if k < |a| { assert s[k] == a[k]; } else { assert s[k] == b[k - |a|]; }
        }
      }
    } else {
      assert SpacesBetween(s, 0, |a|) by {
        forall k | 0 <= k < |a| ensures IsSpace(s[k]) { assert s[k] == a[k]; }
      }
      assert s[|a|] == m[0];
      LeadLenIs(s, |a|);
      assert SpacesBetween(s, |s| - |b|, |s|) by {
        forall k | |s| - |b| <= k < |s| ensures IsSpace(s[k]) {
          assert s[k] == b[k - |a| - |m|];
        }
      }
      assert s[|s| - |b| - 1] == m[|m| - 1];
      TrailLenIs(s, |b|);
      assert s[|a|..|s| - |b|] == m;
    }
  }

  /** Python `s[:n]` for a non-negative `n`. */
  function Take(s: string, n: nat): (r: string)
    ensures |r| == Min(n, |s|)
    ensures r == s[..|r|]
  {
    if n <= |s| then s[..n] else s
  }

  /** Python `s[i:j]` for non-negative bounds: out-of-range bounds are
      clamped to the length and an inverted range is empty. */
  function Slice(s: string, i: nat, j: nat): (r: string)
    ensures i < |s| && i < j ==> r == s[i..Min(j, |s|)]
    ensures |s| <= i || j <= i ==> r == []
  {
    if |s| <= i || j <= i then [] else s[i..Min(j, |s|)]
  }

  /** `s.startswith(p)` */
  predicate StartsWith(s: string, p: string) {
    |p| <= |s| && s[..|p|] == p
  }

  /** `s.endswith(p)` */
  predicate EndsWith(s: string, p: string) {
    |p| <= |s| && s[|s| - |p|..] == p
  }

  /** `pat` occurs in `s` starting at position `i`. */
  predicate OccursAt(s: string, pat: string, i: int) {
    0 <= i && i + |pat| <= |s| && s[i..i + |pat|] == pat
  }

  /** `pat in s` */
  ghost predicate Occurs(s: string, pat: string) {
    exists i :: OccursAt(s, pat, i)
  }

  /** A pattern absent from `s` is absent from its tail. */
  lemma NotOccursTail(s: string, pat: string)
    requires s != [] && !Occurs(s, pat)
    ensures !Occurs(s[1..], pat)
  {
    forall i | OccursAt(s[1..], pat, i) ensures false {
      assert s[1..][i..i + |pat|] == s[i + 1..i + 1 + |pat|];
      assert OccursAt(s, pat, i + 1);
    }
  }

  /** `s.replace(pat, "")` for a non-empty `pat`: scanning left to right,
      every non-overlapping occurrence is deleted in a single pass (so the
      result may contain `pat` again where deletions joined two pieces). */
  function RemoveAll(s: string, pat: string): (r: string)
    requires |pat| > 0
    ensures |r| <= |s|
    decreases |s|
  {
    if |s| < |pat| then s
    else if s[..|pat|] == pat then RemoveAll(s[|pat|..], pat)
    else [s[0]] + RemoveAll(s[1..], pat)
  }

  /** Deleting a pattern that does not occur leaves the text unchanged. */
  lemma {:induction false} RemoveAbsent(s: string, pat: string)
    requires |pat| > 0 && !Occurs(s, pat)
    ensures RemoveAll(s, pat) == s
    decreases |s|
  {
    if |s| >= |pat| {
      assert !OccursAt(s, pat, 0);
      NotOccursTail(s, pat);
      RemoveAbsent(s[1..], pat);
      assert s == [s[0]] + s[1..];
    }
  }

  /** `sep.join(parts)` */
  function Join(parts: seq<string>, sep: string): string
    decreases |parts|
  {
    if parts == [] then ""
    else if |parts| == 1 then parts[0]
    else parts[0] + sep + Join(parts[1..], sep)
  }

  /** Joining grows at the end: the last part follows the join of the
      others, after one separator. */
  lemma {:induction false} JoinSnoc(parts: seq<string>, p: string, sep: string)
    ensures Join(parts + [p], sep) == if parts == [] then p else Join(parts, sep) + sep + p
    decreases |parts|
  {
    if parts == [] {
      assert parts + [p] == [p];
    } else if |parts| == 1 {
      assert parts + [p] == [parts[0], p];
      assert [parts[0], p][1..] == [p];
    } else {
      assert (parts + [p])[1..] == parts[1..] + [p];
      JoinSnoc(parts[1..], p, sep);
    }
  }

  function DigitChar(d: nat): char
    requires d < 10
  {
    "0123456789"[d]
  }

  /** Decimal digits of `n`, most significant first, without leading zeros. */
  function NatToDecimal(n: nat): (r: string)
    ensures |r| > 0
    ensures forall i :: 0 <= i < |r| ==> '0' <= r[i] <= '9'
    ensures n > 0 ==> r[0] != '0'
    decreases n
  {
    if n < 10 then [DigitChar(n)] else NatToDecimal(n / 10) + [DigitChar(n % 10)]
  }

  /** Python `str(n)` / `f"{n}"` for an integer. */
  function IntToDecimal(n: int): (r: string)
    ensures |r| > 0
  {
    if n < 0 then "-" + NatToDecimal(-n) else NatToDecimal(n)
  }

  function DigitValue(c: char): nat
    requires '0' <= c <= '9'
  {
    (c as int) - ('0' as int)
  }

  /** Value of a string of decimal digits. */
  function DecimalValue(s: string): nat
    requires forall i :: 0 <= i < |s| ==> '0' <= s[i] <= '9'
    decreases |s|
  {
    if s == [] then 0 else 10 * DecimalValue(s[..|s| - 1]) + DigitValue(s[|s| - 1])
  }

  /** The decimal rendering of a page number can be read back. */
  lemma {:induction false} NatToDecimalRoundTrip(n: nat)
    ensures DecimalValue(NatToDecimal(n)) == n
    decreases n
  {
    var r := NatToDecimal(n);
    if n >= 10 {
      NatToDecimalRoundTrip(n / 10);
      assert r[..|r| - 1] == NatToDecimal(n / 10);
    }
  }
}
