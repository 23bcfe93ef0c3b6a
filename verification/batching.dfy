/** The batcher: contiguous chunks of at most `size` elements. */
module Batching {
  import opened Shapes

  /** Concatenation of all chunks, in order (`Array.prototype.flat`). */
  function Flatten<T>(chunks: seq<seq<T>>): seq<T>
  {
    if |chunks| == 0 then [] else chunks[0] + Flatten(chunks[1..])
  }

  /** Number of chunks a partition of `n` elements into chunks of `d` needs. */
  function CeilDiv(n: nat, d: nat): nat
    requires d > 0
  {
    (n + d - 1) / d
  }

  /** No chunk is empty or larger than `size`, and every chunk but the last
      holds exactly `size` elements. */
  ghost predicate WellShaped<T>(chunks: seq<seq<T>>, size: nat)
  {
    && (forall k :: 0 <= k < |chunks| ==> 0 < |chunks[k]| <= size)
    && (forall k :: 0 <= k < |chunks| - 1 ==> |chunks[k]| == size)
  }

  /** `Array.prototype.slice(start, end)` for non-negative bounds: both bounds
      are clamped to the length, and a reversed range is empty. */
  function Slice<T>(s: seq<T>, start: nat, end: nat): (r: seq<T>)
    ensures start <= end <= |s| ==> r == s[start..end]
    ensures start <= |s| <= end ==> r == s[start..]
  {
    var from := if start < |s| then start else |s|;
    var to := if end < |s| then end else |s|;
    if to <= from then [] else s[from..to]
  }

  /** Euclidean division is determined by quotient and remainder. */
  lemma DivUnique(y: int, d: int, a: int, r: int)
    requires 0 < d && 0 <= r < d && y == a * d + r
    ensures y / d == a
  {
    var q, s := y / d, y % d;
    assert y == q * d + s;
    assert (a - q) * d == s - r;
    MulAtLeast(a - q, d);
    MulAtLeast(q - a, d);
  }

  /** A positive multiple of `d` is at least `d`. */
  lemma MulAtLeast(k: int, d: int)
    requires d > 0
    ensures k >= 1 ==> k * d >= d
  {
  }

  /** Taking one full chunk off leaves one chunk fewer. */
  lemma CeilDivStep(n: nat, d: nat)
    requires 0 < d < n
    ensures CeilDiv(n, d) == 1 + CeilDiv(n - d, d)
  {
    var x := n - 1;
    var q, r := x / d, x % d;
    assert x == q * d + r;
    DivUnique(x, d, q, r);
    DivUnique(x + d, d, q + 1, r);
  }

  /** A non-empty input of at most `d` elements is one chunk. */
  lemma CeilDivOne(n: nat, d: nat)
    requires 0 < n <= d
    ensures CeilDiv(n, d) == 1
  {
  }

  /** The reference partition: the first `size` elements, then the rest. */
  function Chunks<T>(items: seq<T>, size: nat): seq<seq<T>>
    requires size > 0
    decreases |items|
  {
    if |items| == 0 then []
    else if |items| <= size then [items]
    else [items[..size]] + Chunks(items[size..], size)
  }

  /** `Chunks` is a partition of the batcher's shape: the chunks concatenate
      back to the input, no chunk is empty or longer than `size`, all but the
      last hold exactly `size` elements, and there are ceil(|items| / size). */
  lemma {:induction false} ChunksPartition<T>(items: seq<T>, size: nat)
    requires size > 0
    ensures Flatten(Chunks(items, size)) == items
    ensures WellShaped(Chunks(items, size), size)
    ensures |Chunks(items, size)| == CeilDiv(|items|, size)
    decreases |items|
  {
    if |items| == 0 {
    } else if |items| <= size {
      CeilDivOne(|items|, size);
      assert Flatten([items]) == items + Flatten([items][1..]);
    } else {
      var rest := Chunks(items[size..], size);
      ChunksPartition(items[size..], size);
      CeilDivStep(|items|, size);
      var chunks := [items[..size]] + rest;
      assert chunks == Chunks(items, size);
      assert chunks[1..] == rest;
      assert Flatten(chunks) == items[..size] + Flatten(rest);
      assert items[..size] + items[size..] == items;
      WellShapedCons(items[..size], rest, size);
    }
  }

  /** Putting a full chunk in front of a well-shaped partition keeps its shape. */
  lemma WellShapedCons<T>(chunk: seq<T>, rest: seq<seq<T>>, size: nat)
    requires |chunk| == size > 0 && WellShaped(rest, size)
    ensures WellShaped([chunk] + rest, size)
  {
  }

  /** `Chunks` of a non-empty sequence: its first chunk, then the chunks of the rest. */
  lemma ChunksHead<T>(items: seq<T>, size: nat)
    requires size > 0 && |items| > 0
    ensures |items| <= size ==> Chunks(items, size) == [items]
    ensures |items| > size ==> Chunks(items, size) == [items[..size]] + Chunks(items[size..], size)
  {
  }

  /** The smaller of two naturals; clamps a loop index to the length. */
  function Min(a: nat, b: nat): nat
  {
    if a < b then a else b
  }

  /** One turn of the loop: the slice at `i` is the first chunk of what is
      left, and the rest starts at `i + size` (clamped to the length). */
  lemma ChunksStep<T>(xs: seq<T>, i: nat, size: nat)
    requires size > 0 && i < |xs|
    ensures Chunks(xs[i..], size) == [Slice(xs, i, i + size)] + Chunks(xs[Min(i + size, |xs|)..], size)
  {
    ChunksHead(xs[i..], size);
    if i + size < |xs| {
      assert Slice(xs, i, i + size) == xs[i..][..size];
      assert xs[i..][size..] == xs[i + size..];
    } else {
      assert Slice(xs, i, i + size) == xs[i..];
      assert xs[Min(i + size, |xs|)..] == [];
    }
  }

  /** The for-loop of the source: step `i` by `size` and push
      `items.slice(i, i + size)`; anything that is not an array gives no
      chunks. The loop computes exactly the reference partition. */
  method Batch<T>(items: Input<T>, size: nat) returns (batches: seq<seq<T>>)
    requires size > 0
    ensures items.NotAnArray? ==> batches == []
    ensures items.JsArray? ==> batches == Chunks(items.elems, size)
    ensures items.JsArray? ==> Flatten(batches) == items.elems
    ensures WellShaped(batches, size)
    ensures items.JsArray? ==> |batches| == CeilDiv(|items.elems|, size)
  {
    if items.NotAnArray? {
      return [];
    }
    var xs := items.elems;
    batches := [];
    var i: nat := 0;
    while i < |xs|
      invariant batches + Chunks(xs[Min(i, |xs|)..], size) == Chunks(xs, size)
      decreases |xs| - i
    {
      var chunk := Slice(xs, i, i + size);
      ghost var tail := Chunks(xs[Min(i + size, |xs|)..], size);
      ChunksStep(xs, i, size);
      assert Min(i, |xs|) == i;
      assert batches + ([chunk] + tail) == (batches + [chunk]) + tail;
      batches := batches + [chunk];
      i := i + size;
      assert batches + tail == Chunks(xs, size);
    }
    assert xs[Min(i, |xs|)..] == [];
    ChunksPartition(xs, size);
  }

  /** `Chunks` is the only well-shaped partition of `items`: any sequence of
      chunks that flattens back to `items` and has the batcher's shape is it. */
  lemma {:induction false} ChunksUnique<T>(items: seq<T>, size: nat, chunks: seq<seq<T>>)
    requires size > 0
    requires Flatten(chunks) == items
    requires WellShaped(chunks, size)
    ensures chunks == Chunks(items, size)
    decreases |items|
  {
    if |chunks| == 0 {
      return;
    }
    var rest := chunks[1..];
    assert Flatten(chunks) == chunks[0] + Flatten(rest);
    assert WellShaped(rest, size) by {
      forall k | 0 <= k < |rest| ensures 0 < |rest[k]| <= size {
        assert rest[k] == chunks[k + 1];
      }
      forall k | 0 <= k < |rest| - 1 ensures |rest[k]| == size {
        assert rest[k] == chunks[k + 1];
      }
    }
    if |rest| == 0 {
      assert Flatten(rest) == [];
      assert chunks[0] == items;
      assert chunks == [items];
      ChunksHead(items, size);
    } else {
      assert Flatten(rest) == rest[0] + Flatten(rest[1..]);
      assert |chunks[0]| == size;
      assert |items| > size;
      assert chunks[0] == items[..size];
      assert Flatten(rest) == items[size..];
      ChunksUnique(items[size..], size, rest);
      ChunksHead(items, size);
      assert chunks == [chunks[0]] + rest;
    }
  }

  /** Element `j` of chunk `k` is element `k * size + j` of the input. */
  lemma {:induction false} ChunksIndex<T>(items: seq<T>, size: nat, k: nat, j: nat)
    requires size > 0
    requires k < |Chunks(items, size)| && j < |Chunks(items, size)[k]|
    ensures k * size + j < |items|
    ensures Chunks(items, size)[k][j] == items[k * size + j]
    decreases k
  {
    ChunksHead(items, size);
    if k > 0 {
      var rest := items[size..];
      assert Chunks(items, size)[k] == Chunks(rest, size)[k - 1];
      ChunksIndex(rest, size, k - 1, j);
      assert k * size + j == (k - 1) * size + j + size;
    }
  }
}
