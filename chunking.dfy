/** Cutting a sequence into consecutive fixed-size slices, the list
    comprehension `[s[i:i + n] for i in range(0, len(s), n)]` that the
    display code uses twice: for 65535-byte image fragments and for
    512-byte link writes. */
module Chunking {

  /** Concatenation of a list of slices. */
  function Concat<T>(ss: seq<seq<T>>): seq<T>
  {
    if ss == [] then [] else ss[0] + Concat(ss[1..])
  }

  /** The slices `s[0:n], s[n:2n], ...` of `s`; the last may be short. */
  function Chunks<T>(s: seq<T>, n: nat): (cs: seq<seq<T>>)
    requires n > 0
    ensures forall i :: 0 <= i < |cs| ==> 0 < |cs[i]| <= n
    ensures forall i :: 0 <= i < |cs| - 1 ==> |cs[i]| == n
    decreases |s|
  {
    if |s| == 0 then []
    else if |s| <= n then [s]
    else [s[..n]] + Chunks(s[n..], n)
  }

  /** Concatenating the slices gives back `s`. */
  lemma {:induction false} ChunksConcat<T>(s: seq<T>, n: nat)
    requires n > 0
    ensures Concat(Chunks(s, n)) == s
    decreases |s|
  {
    if |s| == 0 {
    } else if |s| <= n {
      assert Concat([s]) == s + Concat([]) by { assert [s][1..] == []; }
    } else {
      var rest := Chunks(s[n..], n);
      ChunksConcat(s[n..], n);
      assert ([s[..n]] + rest)[1..] == rest;
      assert s[..n] + s[n..] == s;
    }
  }

  /** Slice `i` is `s[i*n : i*n + n]`, cut at the end of `s`: the
      boundaries are those of the comprehension, whatever the contents. */
  lemma ChunkAt<T>(s: seq<T>, n: nat, i: nat)
    requires n > 0 && i < |Chunks(s, n)|
    ensures i * n < |s|
    ensures Chunks(s, n)[i] == s[i * n .. if i * n + n <= |s| then i * n + n else |s|]
  {
    ChunkFrom(s, n, i);
    OffsetIsProduct(i, n);
  }

  /** `i * n`, counted up one slice at a time. */
  function Offset(i: nat, n: nat): nat
  {
    if i == 0 then 0 else Offset(i - 1, n) + n
  }

  lemma {:induction false} OffsetIsProduct(i: nat, n: nat)
    ensures Offset(i, n) == i * n
  {
    if i > 0 {
      OffsetIsProduct(i - 1, n);
      MulSucc(i - 1, n);
    }
  }

  lemma {:induction false} ChunkFrom<T>(s: seq<T>, n: nat, i: nat)
    requires n > 0 && i < |Chunks(s, n)|
    ensures Offset(i, n) < |s|
    ensures Chunks(s, n)[i] == s[Offset(i, n) .. if Offset(i, n) + n <= |s| then Offset(i, n) + n else |s|]
    decreases |s|
  {
    if i > 0 {
      var t := s[n..];
      ChunksUnfold(s, n);
      ChunkFrom(t, n, i - 1);
      var lo := Offset(i - 1, n);
      SliceOfSuffix(s, n, lo, if lo + n <= |t| then lo + n else |t|);
    }
  }

  /** Beyond the first slice, the slices are those of the rest. */
  lemma ChunksUnfold<T>(s: seq<T>, n: nat)
    requires n > 0 && |Chunks(s, n)| > 1
    ensures n < |s| && Chunks(s, n) == [s[..n]] + Chunks(s[n..], n)
  {
  }

  /** Slice boundaries depend only on the length of `s`. */
  lemma {:induction false} ChunkLengthsDependOnLengthOnly<T>(s: seq<T>, t: seq<T>, n: nat)
    requires n > 0 && |s| == |t|
    ensures |Chunks(s, n)| == |Chunks(t, n)|
    ensures forall i :: 0 <= i < |Chunks(s, n)| ==> |Chunks(s, n)[i]| == |Chunks(t, n)[i]|
    decreases |s|
  {
    if |s| > n {
      ChunkLengthsDependOnLengthOnly(s[n..], t[n..], n);
    }
  }

  /** The slice count is the ceiling of `|s| / n`; the empty input has none. */
  lemma ChunkCount<T>(s: seq<T>, n: nat)
    requires n > 0
    ensures |Chunks(s, n)| == (|s| + n - 1) / n
    ensures |Chunks(s, n)| == 0 <==> |s| == 0
  {
    var k := |Chunks(s, n)|;
    ChunkCountBounds(s, n);
    DivUnique(|s| + n - 1, n, k, |s| + n - 1 - k * n);
  }

  lemma {:induction false} ChunkCountBounds<T>(s: seq<T>, n: nat)
    requires n > 0
    ensures |s| <= |Chunks(s, n)| * n < |s| + n
    decreases |s|
  {
    if |s| > n {
      ChunkCountBounds(s[n..], n);
      MulSucc(|Chunks(s[n..], n)|, n);
    }
  }

  lemma SliceOfSuffix<T>(s: seq<T>, n: nat, lo: nat, hi: nat)
    requires n <= |s| && lo <= hi <= |s| - n
    ensures s[n..][lo..hi] == s[n + lo .. n + hi]
  {
  }

  lemma MulSucc(i: int, n: int)
    ensures (i + 1) * n == i * n + n
  {
  }

  /** Euclidean division is determined by quotient and remainder bounds. */
  lemma DivUnique(a: int, n: int, q: int, r: int)
    requires n > 0 && 0 <= r < n && a == q * n + r
    ensures a / n == q
  {
    var d := a / n - q;
    assert d * n == r - a % n by {
      assert a == (a / n) * n + a % n;
      assert d * n == (a / n) * n - q * n;
    }
  }
}
