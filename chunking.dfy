/**
 * Cutting a sequence into consecutive pieces of at most `n` elements, the
 * shape shared by the 4000-character translation segments and the pages of
 * the translated document.
 */
module Chunking {

  function Min(a: int, b: int): int {
    if a <= b then a else b
  }

  /** The pieces of `s[start..]`: each is the next `n` elements, the last one possibly shorter. */
  function ChunksFrom<T>(s: seq<T>, n: nat, start: nat): seq<seq<T>>
    requires n > 0 && start <= |s|
    decreases |s| - start
  {
    if start == |s| then []
    else
      var end := Min(start + n, |s|);
      [s[start..end]] + ChunksFrom(s, n, end)
  }

  function Chunks<T>(s: seq<T>, n: nat): seq<seq<T>>
    requires n > 0
  {
    ChunksFrom(s, n, 0)
  }

  /** The pieces laid end to end. */
  function Concat<T>(pieces: seq<seq<T>>): seq<T> {
    if pieces == [] then [] else pieces[0] + Concat(pieces[1..])
  }

  lemma {:induction false} ConcatAppend<T>(a: seq<seq<T>>, b: seq<seq<T>>)
    ensures Concat(a + b) == Concat(a) + Concat(b)
  {
    if a != [] {
      assert (a + b)[1..] == a[1..] + b;
      ConcatAppend(a[1..], b);
    } else {
      assert a + b == b;
    }
  }

  /** The pieces are contiguous and do not overlap: laid end to end they give back the input. */
  lemma {:induction false} ChunksFromConcat<T>(s: seq<T>, n: nat, start: nat)
    requires n > 0 && start <= |s|
    ensures Concat(ChunksFrom(s, n, start)) == s[start..]
    decreases |s| - start
  {
    if start < |s| {
      var end := Min(start + n, |s|);
      ChunksFromConcat(s, n, end);
      assert s[start..] == s[start..end] + s[end..];
    }
  }

  /** Every piece is non-empty and at most `n` long; all but the last are exactly `n` long. */
  lemma {:induction false} ChunksFromSizes<T>(s: seq<T>, n: nat, start: nat)
    requires n > 0 && start <= |s|
    ensures forall c :: c in ChunksFrom(s, n, start) ==> 0 < |c| <= n
    ensures forall j :: 0 <= j < |ChunksFrom(s, n, start)| - 1 ==> |ChunksFrom(s, n, start)[j]| == n
    decreases |s| - start
  {
    if start < |s| {
      var end := Min(start + n, |s|);
      ChunksFromSizes(s, n, end);
      var rest := ChunksFrom(s, n, end);
      assert ChunksFrom(s, n, start) == [s[start..end]] + rest;
      if rest != [] {
        assert end == start + n;
      }
    }
  }

  lemma DivStep(x: nat, n: nat)
    requires n > 0
    ensures (x + n) / n == x / n + 1
  {
    var q, r := x / n, x % n;
    assert x == q * n + r;
    assert x + n == (q + 1) * n + r by {
      assert (q + 1) * n == q * n + n;
    }
    DivUnique(x + n, n, q + 1, r);
  }

  lemma DivUnique(a: nat, n: nat, q: int, r: int)
    requires n > 0 && a == q * n + r && 0 <= r < n
    ensures a / n == q && a % n == r
  {
    var q', r' := a / n, a % n;
    assert a == q' * n + r' && 0 <= r' < n;
    assert (q - q') * n == r' - r;
    if q - q' >= 1 {
      MulAtLeast(q - q', n);
    } else if q' - q >= 1 {
      MulAtLeast(q' - q, n);
    }
  }

  lemma {:induction false} MulAtLeast(d: int, n: nat)
    requires d >= 1
    ensures d * n >= n
    decreases d
  {
    if d > 1 {
      MulAtLeast(d - 1, n);
      assert d * n == (d - 1) * n + n;
    }
  }

  lemma DivOne(x: nat, n: nat)
    requires n > 0 && n <= x < 2 * n
    ensures x / n == 1
  {
    DivUnique(x, n, 1, x - n);
  }

  /** There are ceil((|s| - start) / n) pieces. */
  lemma {:induction false} ChunksFromCount<T>(s: seq<T>, n: nat, start: nat)
    requires n > 0 && start <= |s|
    ensures |ChunksFrom(s, n, start)| == (|s| - start + n - 1) / n
    decreases |s| - start
  {
    if start == |s| {
      assert (n - 1) / n == 0;
    } else {
      var end := Min(start + n, |s|);
      ChunksFromCount(s, n, end);
      var len := |s| - start;
      if end == start + n {
        DivStep(len - 1, n);
        assert len + n - 1 == (len - 1) + n;
        assert |s| - end + n - 1 == len - 1;
      } else {
        assert |s| - end + n - 1 == n - 1;
        DivOne(len + n - 1, n);
      }
    }
  }

  /** The summary of the three lemmas above for a whole sequence. */
  lemma ChunksSpec<T>(s: seq<T>, n: nat)
    requires n > 0
    ensures Concat(Chunks(s, n)) == s
    ensures forall c :: c in Chunks(s, n) ==> 0 < |c| <= n
    ensures forall j :: 0 <= j < |Chunks(s, n)| - 1 ==> |Chunks(s, n)[j]| == n
    ensures |Chunks(s, n)| == (|s| + n - 1) / n
  {
    ChunksFromConcat(s, n, 0);
    ChunksFromSizes(s, n, 0);
    ChunksFromCount(s, n, 0);
  }
}
