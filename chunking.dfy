/**
 * The pages that `AddressBook.iterator` yields: consecutive slices of the
 * records in key order, each `chunkSize` long except possibly the last.
 */
module Chunking {

  /** The value `iterator` uses when no chunk size is given. */
  const DefaultChunkSize: int := 10

  /**
   * The slices `xs[i:i + k]` for `i = 0, k, 2k, ...` below `|xs|`. A
   * non-positive `k` is allowed only for an empty list: on any other the
   * source's loop never ends.
   */
  function Chunks<T>(xs: seq<T>, k: int): (r: seq<seq<T>>)
    requires k > 0 || xs == []
    ensures r == [] <==> xs == []
    ensures forall i :: 0 <= i < |r| ==> 1 <= |r[i]| <= k
    decreases |xs|
  {
    if xs == [] then []
    else if |xs| <= k then [xs]
    else [xs[..k]] + Chunks(xs[k..], k)
  }

  /** All the elements of the chunks, one chunk after another. */
  function Flatten<T>(cs: seq<seq<T>>): (r: seq<T>)
  {
    if cs == [] then [] else cs[0] + Flatten(cs[1..])
  }

  /** Reading the chunks one after another gives back the records in key order. */
  lemma {:induction false} FlattenChunks<T>(xs: seq<T>, k: int)
    requires k > 0 || xs == []
    ensures Flatten(Chunks(xs, k)) == xs
  {
    if xs != [] && |xs| > k {
      FlattenChunks(xs[k..], k);
      var c := Chunks(xs, k);
      assert c[0] == xs[..k] && c[1..] == Chunks(xs[k..], k);
      assert xs == xs[..k] + xs[k..];
    }
  }

  /** Every chunk but the last holds exactly `k` elements; the last holds between 1 and `k`. */
  lemma {:induction false} ChunkSizes<T>(xs: seq<T>, k: int)
    requires k > 0 || xs == []
    ensures forall i :: 0 <= i < |Chunks(xs, k)| - 1 ==> |Chunks(xs, k)[i]| == k
    ensures Chunks(xs, k) != [] ==> 1 <= |Chunks(xs, k)[|Chunks(xs, k)| - 1]| <= k
  {
    if xs != [] && |xs| > k {
      ChunkSizes(xs[k..], k);
      var c, rest := Chunks(xs, k), Chunks(xs[k..], k);
      assert c == [xs[..k]] + rest;
      forall i | 0 <= i < |c| - 1 ensures |c[i]| == k {
        if i > 0 {
          assert c[i] == rest[i - 1];
        }
      }
    }
  }

  /**
   * The number of chunks is the ceiling of `|xs| / k`: none for an empty
   * list, otherwise the least count whose `k`-sized pages cover `xs`.
   */
  lemma {:induction false} ChunkCount<T>(xs: seq<T>, k: int)
    requires k > 0 || xs == []
    ensures xs == [] <==> |Chunks(xs, k)| == 0
    ensures xs != [] ==> (|Chunks(xs, k)| - 1) * k < |xs| <= |Chunks(xs, k)| * k
    ensures xs != [] ==> |Chunks(xs, k)| == (|xs| + k - 1) / k
  {
    if xs != [] && |xs| > k {
      ChunkCount(xs[k..], k);
      var n := |Chunks(xs[k..], k)|;
      assert |Chunks(xs, k)| == n + 1;
      assert (n + 1) * k == n * k + k;
      assert (n - 1) * k == n * k - k;
      DivStep(|xs| - k + k - 1, k);
    } else if xs != [] {
      DivOne(|xs| + k - 1, k);
    }
  }

  lemma DivStep(a: int, k: int)
    requires a >= 0 && k > 0
    ensures (a + k) / k == a / k + 1
  {
    DivUnique(a + k, k, a / k + 1, a % k);
  }

  lemma DivOne(a: int, k: int)
    requires k > 0 && k <= a < 2 * k
    ensures a / k == 1
  {
    DivUnique(a, k, 1, a - k);
  }

  /** Euclidean division has one quotient. */
  lemma DivUnique(x: int, k: int, q: int, r: int)
    requires k > 0 && 0 <= r < k && x == q * k + r
    ensures x / k == q
  {
    var d := x / k - q;
    assert d * k == r - x % k by {
      assert x == (x / k) * k + x % k;
      assert (x / k) * k == (q + d) * k == q * k + d * k;
    }
    if d >= 1 {
      MulAtLeast(d, k);
    } else if d <= -1 {
      MulAtLeast(-d, k);
    }
  }

  lemma {:induction false} MulAtLeast(d: int, k: int)
    requires d >= 1 && k > 0
    ensures d * k >= k
  {
    if d > 1 {
      MulAtLeast(d - 1, k);
      assert d * k == (d - 1) * k + k;
    }
  }

  /** The two-record pages of a three-record book. */
  lemma ThreeInPairs<T>(a: T, b: T, c: T)
    ensures Chunks([a, b, c], 2) == [[a, b], [c]]
  {
    var xs := [a, b, c];
    assert xs[..2] == [a, b] && xs[2..] == [c];
  }

  /** The cursor of the source's loop after `steps` pages: it starts at 0 and advances by `k`. */
  function CursorAfter(steps: nat, k: int): (c: int)
  {
    if steps == 0 then 0 else CursorAfter(steps - 1, k) + k
  }

  /**
   * With a non-positive chunk size the cursor never reaches the number of
   * records of a non-empty book, so the loop would yield forever.
   */
  lemma {:induction false} CursorNeverFinishes(steps: nat, k: int, n: int)
    requires k <= 0 < n
    ensures CursorAfter(steps, k) <= 0 < n
  {
    if steps > 0 {
      CursorNeverFinishes(steps - 1, k, n);
    }
  }
}
