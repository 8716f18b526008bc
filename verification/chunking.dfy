/** Cutting a sequence into consecutive pieces of a fixed size, as the list
    comprehension `[xs[i:i + k] for i in range(0, len(xs), k)]` does. */
module Chunking {

  function Min(a: int, b: int): int {
    if a <= b then a else b
  }

  /** The ceiling of `n / k`. */
  function CeilDiv(n: nat, k: nat): nat
    requires k > 0
  {
    (n + k - 1) / k
  }

  /** The consecutive pieces of `xs` of size `k`, the last one possibly shorter. */
  function Chunks<T>(xs: seq<T>, k: nat): (cs: seq<seq<T>>)
    requires k > 0
    ensures forall i :: 0 <= i < |cs| ==> 0 < |cs[i]| <= k
    ensures forall i :: 0 <= i < |cs| - 1 ==> |cs[i]| == k
    ensures xs == [] <==> cs == []
    decreases |xs|
  {
    if |xs| == 0 then []
    else if |xs| <= k then [xs]
    else [xs[..k]] + Chunks(xs[k..], k)
  }

  /** The concatenation of a list of sequences. */
  function Flatten<T>(css: seq<seq<T>>): seq<T>
    decreases |css|
  {
    if css == [] then [] else css[0] + Flatten(css[1..])
  }

  lemma MulAtLeast(x: int, k: nat)
    requires x >= 1
    ensures x * k >= k
  {
    assert x * k == (x - 1) * k + k;
  }

  /** Euclidean division has one quotient. */
  lemma DivUnique(a: nat, k: nat, q: int, r: int)
    requires k > 0 && a == q * k + r && 0 <= r < k
    ensures a / k == q
  {
    var q', r' := a / k, a % k;
    assert a == q' * k + r';
    assert (q - q') * k == q * k - q' * k;
    assert (q' - q) * k == q' * k - q * k;
    if q' < q {
      MulAtLeast(q - q', k);
    } else if q' > q {
      MulAtLeast(q' - q, k);
    }
  }

  lemma CeilDivStep(n: nat, k: nat)
    requires 0 < k < n
    ensures CeilDiv(n, k) == 1 + CeilDiv(n - k, k)
  {
    var m := n - k + k - 1;
    var q, r := m / k, m % k;
    assert m == q * k + r;
    DivUnique(n + k - 1, k, q + 1, r);
  }

  lemma CeilDivOne(n: nat, k: nat)
    requires 0 < n <= k
    ensures CeilDiv(n, k) == 1
  {
  }

  lemma MulStep(i: nat, k: nat)
    requires i > 0
    ensures (i - 1) * k + k == i * k && i * k + k == (i + 1) * k
  {
  }

  /** There are `ceil(|xs| / k)` pieces. */
  lemma {:induction false} ChunkCount<T>(xs: seq<T>, k: nat)
    requires k > 0
    ensures |Chunks(xs, k)| == CeilDiv(|xs|, k)
    decreases |xs|
  {
    if |xs| == 0 {
    } else if |xs| <= k {
      CeilDivOne(|xs|, k);
    } else {
      ChunkCount(xs[k..], k);
      CeilDivStep(|xs|, k);
    }
  }

  /** Piece `i` is the slice `xs[i*k .. min((i+1)*k, |xs|)]`: the pieces are
      fixed by positions alone. */
  lemma {:induction false} ChunkAt<T>(xs: seq<T>, k: nat, i: nat)
    requires k > 0 && i < |Chunks(xs, k)|
    ensures i * k < |xs|
    ensures Chunks(xs, k)[i] == xs[i * k .. Min((i + 1) * k, |xs|)]
    decreases |xs|
  {
    if i > 0 {
      assert |xs| > k;
      var rest := xs[k..];
      ChunkAt(rest, k, i - 1);
      MulStep(i, k);
      assert rest[(i - 1) * k .. Min(i * k, |rest|)] == xs[i * k .. Min((i + 1) * k, |xs|)];
    }
  }

  /** Every piece but the last is a full slice of `k`; the last holds the
      remaining 1 to `k` elements. */
  lemma {:induction false} ChunkSize<T>(xs: seq<T>, k: nat, i: nat)
    requires k > 0 && i < |Chunks(xs, k)|
    ensures var cs := Chunks(xs, k);
      && (i < |cs| - 1 ==> (i + 1) * k <= |xs| && cs[i] == xs[i * k .. (i + 1) * k])
      && (i == |cs| - 1 ==> 0 < |xs| - i * k <= k && cs[i] == xs[i * k ..])
    decreases |xs|
  {
    if i > 0 {
      var rest := xs[k..];
      ChunkSize(rest, k, i - 1);
      MulStep(i, k);
      if i - 1 < |Chunks(rest, k)| - 1 {
        assert rest[(i - 1) * k .. i * k] == xs[i * k .. (i + 1) * k];
      } else {
        assert rest[(i - 1) * k ..] == xs[i * k ..];
      }
    } else if |xs| > k {
      assert |Chunks(xs, k)| > 1;
    }
  }

  /** Concatenating the pieces gives back the whole sequence. */
  lemma {:induction false} ChunksFlatten<T>(xs: seq<T>, k: nat)
    requires k > 0
    ensures Flatten(Chunks(xs, k)) == xs
    decreases |xs|
  {
    if |xs| == 0 {
    } else if |xs| <= k {
      assert Flatten([xs]) == xs + Flatten([]);
    } else {
      var cs := Chunks(xs, k);
      ChunksFlatten(xs[k..], k);
      assert cs[1..] == Chunks(xs[k..], k);
      assert xs == xs[..k] + xs[k..];
    }
  }

  /** The sizes of the pieces depend on the length of the sequence only. */
  lemma {:induction false} ChunkSizesByLength<T>(xs: seq<T>, ys: seq<T>, k: nat)
    requires k > 0 && |xs| == |ys|
    ensures |Chunks(xs, k)| == |Chunks(ys, k)|
    ensures forall i :: 0 <= i < |Chunks(xs, k)| ==> |Chunks(xs, k)[i]| == |Chunks(ys, k)[i]|
    decreases |xs|
  {
    if |xs| > k {
      ChunkSizesByLength(xs[k..], ys[k..], k);
    }
  }
}
