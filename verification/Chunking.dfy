/** Fixed-window page chunking (`chunk_text` in app/pdf_service.py). A
    window of `chunkSize` characters starts at 0 and advances by
    `chunkSize - overlap` until it starts at or past the end of the text;
    the last window is cut short by Python's slice clamping. */
module Chunking {
  import opened Common

  /** One chunk record: the page it came from and its text. */
  datatype Chunk = Chunk(pageNumber: int, content: string)

  const DefaultChunkSize: int := 4000
  const DefaultOverlap: int := 500

  /** The windows that make the loop advance: a positive size and an
      overlap smaller than it (a negative overlap leaves gaps but still
      advances). */
  predicate ValidWindow(chunkSize: int, overlap: int) {
    0 < chunkSize && overlap < chunkSize
  }

  /** Ceiling of `n / d` for a positive `d` and a non-negative `n`. */
  function CeilDiv(n: nat, d: int): nat
    requires d > 0
  {
    (n + d - 1) / d
  }

  /** Every chunk is non-empty, at most `chunkSize` long and carries
      `page`. */
  predicate ChunksOfPage(r: seq<Chunk>, page: int, chunkSize: int) {
    forall i :: 0 <= i < |r| ==> r[i].pageNumber == page && 0 < |r[i].content| <= chunkSize
  }

  /** The window of `chunkSize` characters at `start`, clamped at the end
      of the text. */
  function Window(text: string, page: int, chunkSize: int, start: nat): Chunk
    requires chunkSize > 0
  {
    Chunk(page, Slice(text, start, start + chunkSize))
  }

  /** Where the loop's window stands after `i` more passes from `start`. */
  function WindowStart(start: nat, i: nat, step: int): nat
    requires step > 0
    decreases i
  {
    if i == 0 then start else WindowStart(start + step, i - 1, step)
  }

  /** How many windows the loop takes from `start` on: one per start
      inside the text. */
  function WindowCount(length: nat, start: nat, step: int): nat
    requires step > 0
    decreases length - start
  {
    if length <= start then 0 else 1 + WindowCount(length, start + step, step)
  }

  /** Every window the loop takes starts inside the text. */
  lemma {:induction false} WindowInside(length: nat, start: nat, i: nat, step: int)
    requires step > 0 && i < WindowCount(length, start, step)
    ensures start <= WindowStart(start, i, step) < length
    decreases i
  {
    if i > 0 {
      WindowInside(length, start + step, i - 1, step);
    }
  }

  /** One pass more moves the window one step on. */
  lemma {:induction false} WindowStartNext(start: nat, i: nat, step: int)
    requires step > 0
    ensures WindowStart(start, i + 1, step) == WindowStart(start, i, step) + step
    decreases i
  {
    if i > 0 {
      WindowStartNext(start + step, i - 1, step);
    }
  }

  /** `chunk_text(text, page_number, chunk_size, overlap)`: the windows at
      the starts the loop reaches, in order. Every chunk is non-empty, no
      longer than the window and carries the page number it was given; the
      first one is a prefix of the text, and only the empty text gives no
      chunk. */
  function ChunkText(text: string, page: int, chunkSize: int, overlap: int): (r: seq<Chunk>)
    requires ValidWindow(chunkSize, overlap)
    ensures r == [] <==> text == []
    ensures ChunksOfPage(r, page, chunkSize)
    ensures r != [] ==> StartsWith(text, r[0].content)
  {
    var step := chunkSize - overlap;
    var n := WindowCount(|text|, 0, step);
    ChunkTextOfPage(text, page, chunkSize, overlap);
    seq(n, i requires 0 <= i < n => Window(text, page, chunkSize, WindowStart(0, i, step)))
  }

  lemma ChunkTextOfPage(text: string, page: int, chunkSize: int, overlap: int)
    requires ValidWindow(chunkSize, overlap)
    ensures var step := chunkSize - overlap;
      forall i :: 0 <= i < WindowCount(|text|, 0, step) ==>
        var w := Window(text, page, chunkSize, WindowStart(0, i, step));
        w.pageNumber == page && 0 < |w.content| <= chunkSize
  {
    var step := chunkSize - overlap;
    forall i | 0 <= i < WindowCount(|text|, 0, step)
      ensures 0 < |Window(text, page, chunkSize, WindowStart(0, i, step)).content|
    {
      WindowInside(|text|, 0, i, step);
    }
  }

  /** The source's `while` loop, advancing `start` by `chunkSize - overlap`
      until it reaches the end of the text: it emits exactly the chunks
      above. */
  method ChunkTextLoop(text: string, page: int, chunkSize: int, overlap: int) returns (chunks: seq<Chunk>)
    requires ValidWindow(chunkSize, overlap)
    ensures chunks == ChunkText(text, page, chunkSize, overlap)
  {
    var step := chunkSize - overlap;
    chunks := [];
    var start: nat := 0;
    while start < |text|
      invariant start == WindowStart(0, |chunks|, step)
      invariant WindowCount(|text|, 0, step) == |chunks| + WindowCount(|text|, start, step)
      invariant forall i :: 0 <= i < |chunks| ==> chunks[i] == Window(text, page, chunkSize, WindowStart(0, i, step))
      decreases |text| - start
    {
      var end := start + chunkSize;
      var chunk := Slice(text, start, end);
      WindowStartNext(0, |chunks|, step);
      chunks := chunks + [Chunk(page, chunk)];
      start := end - overlap;
    }
    assert chunks == ChunkText(text, page, chunkSize, overlap);
  }

  lemma {:induction false} WindowStartIs(start: nat, i: nat, step: int)
    requires step > 0
    ensures WindowStart(start, i, step) == start + i * step
    decreases i
  {
    if i > 0 {
      WindowStartIs(start + step, i - 1, step);
      MulStep(i, step);
    }
  }

  lemma MulStep(i: int, d: int)
    ensures (i - 1) * d + d == i * d
  {
  }

  /** Closed form of chunk `i`: `text[i*step : i*step + chunk_size]`,
      clamped at the end of the text. */
  lemma ChunkAt(text: string, page: int, chunkSize: int, overlap: int, i: nat)
    requires ValidWindow(chunkSize, overlap)
    requires i < |ChunkText(text, page, chunkSize, overlap)|
    ensures var a := i * (chunkSize - overlap);
            0 <= a < |text|
            && ChunkText(text, page, chunkSize, overlap)[i] == Chunk(page, text[a..Min(a + chunkSize, |text|)])
  {
    WindowInside(|text|, 0, i, chunkSize - overlap);
    WindowStartIs(0, i, chunkSize - overlap);
  }

  lemma DivShift(y: nat, d: int)
    requires d > 0
    ensures (y + d) / d == y / d + 1
  {
    var q, m := y / d, y % d;
    assert y == q * d + m;
    MulStep(q + 1, d);
    LinearDiv(y + d, d, q + 1, m);
  }

  lemma MulAtLeast(a: int, d: int)
    requires a >= 1 && d > 0
    ensures a * d >= d
  {
  }

  /** Euclidean division is unique. */
  lemma LinearDiv(n: int, d: int, q: int, m: int)
    requires d > 0 && 0 <= m < d && n == q * d + m
    ensures n / d == q
  {
    var q', m' := n / d, n % d;
    assert q * d + m == q' * d + m';
    if q' < q {
      assert (q - q') * d == m' - m;
      MulAtLeast(q - q', d);
    } else if q < q' {
      assert (q' - q) * d == m - m';
      MulAtLeast(q' - q, d);
    }
  }

  /** One step less to go takes one window off the count. */
  lemma CeilDivStep(n: nat, d: int)
    requires d > 0 && n > 0
    ensures CeilDiv(n, d) == if n <= d then 1 else CeilDiv(n - d, d) + 1
  {
    if n <= d {
      LinearDiv(n + d - 1, d, 1, n - 1);
    } else {
      DivShift(n - 1, d);
    }
  }

  /** The number of windows from `start` is `ceil((len - start) / step)`. */
  lemma {:induction false} WindowCountIs(length: nat, start: nat, step: int)
    requires step > 0
    ensures WindowCount(length, start, step) == if length <= start then 0 else CeilDiv(length - start, step)
    decreases length - start
  {
    if start < length {
      WindowCountIs(length, start + step, step);
      CeilDivStep(length - start, step);
    }
  }

  /** The number of chunks is `ceil(len / (chunk_size - overlap))`. */
  lemma ChunkTextCount(text: string, page: int, chunkSize: int, overlap: int)
    requires ValidWindow(chunkSize, overlap)
    ensures |ChunkText(text, page, chunkSize, overlap)| == CeilDiv(|text|, chunkSize - overlap)
  {
    WindowCountIs(|text|, 0, chunkSize - overlap);
  }

  /** The count is the least number of steps that reaches the end: the
      last window starts inside the text, and one more step would start at
      or past its end. */
  lemma ChunkCountBounds(text: string, page: int, chunkSize: int, overlap: int)
    requires ValidWindow(chunkSize, overlap)
    ensures var c := |ChunkText(text, page, chunkSize, overlap)|;
            var step := chunkSize - overlap;
            c > 0 ==> (c - 1) * step < |text| <= c * step
  {
    var c := |ChunkText(text, page, chunkSize, overlap)|;
    var step := chunkSize - overlap;
    ChunkTextCount(text, page, chunkSize, overlap);
    if c > 0 {
      ChunkAt(text, page, chunkSize, overlap, c - 1);
      CeilDivCovers(|text|, step, c);
    }
  }

  lemma CeilDivCovers(n: nat, d: int, c: nat)
    requires d > 0 && c == CeilDiv(n, d)
    ensures n <= c * d
  {
    var m := (n + d - 1) % d;
    assert n + d - 1 == c * d + m;
  }

  /** `k` lies in the step of length `d` that starts at `(k / d) * d`. */
  lemma DivBounds(k: nat, d: int)
    requires d > 0
    ensures (k / d) * d <= k < (k / d) * d + d
  {
    var q, m := k / d, k % d;
    assert k == q * d + m;
  }

  /** A step index whose start lies before `n` is below the count. */
  lemma BelowCount(i: nat, c: nat, d: int, k: nat, n: nat)
    requires d > 0 && i * d <= k < n <= c * d
    ensures i < c
  {
    if c <= i {
      MulMono(c, i, d);
    }
  }

  lemma MulMono(a: nat, b: nat, d: int)
    requires a <= b && d > 0
    ensures a * d <= b * d
  {
  }

  /** Every character of the text lies in some chunk when the overlap is
      not negative: index `k` sits in chunk `k / step`, at offset
      `k - (k / step) * step`. */
  lemma ChunkCovers(text: string, page: int, chunkSize: int, overlap: int, k: nat)
    requires ValidWindow(chunkSize, overlap) && 0 <= overlap
    requires k < |text|
    ensures var r := ChunkText(text, page, chunkSize, overlap);
            var i := k / (chunkSize - overlap);
            var a := i * (chunkSize - overlap);
            i < |r| && a <= k < a + |r[i].content| && r[i].content[k - a] == text[k]
  {
    var r := ChunkText(text, page, chunkSize, overlap);
    var step := chunkSize - overlap;
    var i := k / step;
    var a := i * step;
    DivBounds(k, step);
    ChunkCountBounds(text, page, chunkSize, overlap);
    BelowCount(i, |r|, step, k, |text|);
    ChunkAt(text, page, chunkSize, overlap, i);
  }

  /** With the default window a full 4000-character page gives two chunks:
      the whole page, then its last 500 characters again. */
  lemma DefaultFullPage(text: string, page: int)
    requires |text| == DefaultChunkSize
    ensures ChunkText(text, page, DefaultChunkSize, DefaultOverlap)
         == [Chunk(page, text), Chunk(page, text[3500..])]
  {
    var r := ChunkText(text, page, DefaultChunkSize, DefaultOverlap);
    ChunkTextCount(text, page, DefaultChunkSize, DefaultOverlap);
    assert |r| == 2;
    ChunkAt(text, page, DefaultChunkSize, DefaultOverlap, 0);
    ChunkAt(text, page, DefaultChunkSize, DefaultOverlap, 1);
    assert text[0..4000] == text;
  }

  /** How many times the loop body runs from window start `start`, cut
      off after `fuel` passes. */
  function Passes(length: nat, start: int, chunkSize: int, overlap: int, fuel: nat): (n: nat)
    ensures n <= fuel
    decreases fuel
  {
    if fuel == 0 || length <= start then 0
    else 1 + Passes(length, start + chunkSize - overlap, chunkSize, overlap, fuel - 1)
  }

  /** When the overlap is at least the window size the start never moves
      forward, so on a non-empty text the loop uses up any bound on its
      passes: it does not terminate. */
  lemma {:induction false} StallsWithoutProgress(length: nat, start: int, chunkSize: int, overlap: int, fuel: nat)
    requires chunkSize <= overlap && start < length
    ensures Passes(length, start, chunkSize, overlap, fuel) == fuel
    decreases fuel
  {
    if fuel > 0 {
      StallsWithoutProgress(length, start + chunkSize - overlap, chunkSize, overlap, fuel - 1);
    }
  }

  /** With a valid window the loop stops by itself, after exactly one pass
      per chunk, once enough passes are allowed. */
  lemma {:induction false} PassesPerChunk(length: nat, chunkSize: int, overlap: int, start: nat, fuel: nat)
    requires ValidWindow(chunkSize, overlap) && length <= start + fuel
    ensures Passes(length, start, chunkSize, overlap, fuel) == WindowCount(length, start, chunkSize - overlap)
    decreases fuel
  {
    if start < length {
      PassesPerChunk(length, chunkSize, overlap, start + chunkSize - overlap, fuel - 1);
    }
  }
}
