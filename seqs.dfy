/**
 * Sequence selection: the positions of the elements that pass a test, and the
 * elements of a (parallel) sequence at given positions. The `for ... if ...:
 * append` loops of the parsers are proved against these two functions.
 */
module Seqs {

  /** The positions, below `n`, of the elements of `xs` that satisfy `p`, in order. */
  function KeptBy<T>(xs: seq<T>, p: T -> bool, n: nat): (r: seq<nat>)
    requires n <= |xs|
    ensures |r| <= n
  {
    if n == 0 then []
    else KeptBy(xs, p, n - 1) + (if p(xs[n - 1]) then [n - 1] else [])
  }

  /** `KeptBy` is exact: every kept position is below `n` and satisfies `p`, the
      positions increase, and no position below `n` that satisfies `p` is missed. */
  lemma {:induction false} KeptByExact<T>(xs: seq<T>, p: T -> bool, n: nat)
    requires n <= |xs|
    ensures forall k :: 0 <= k < |KeptBy(xs, p, n)| ==> KeptBy(xs, p, n)[k] < n && p(xs[KeptBy(xs, p, n)[k]])
    ensures forall k, l :: 0 <= k < l < |KeptBy(xs, p, n)| ==> KeptBy(xs, p, n)[k] < KeptBy(xs, p, n)[l]
    ensures forall i :: 0 <= i < n && p(xs[i]) ==> i in KeptBy(xs, p, n)
  {
    if n > 0 {
      KeptByExact(xs, p, n - 1);
    }
  }

  /** The elements of `ys` at positions `idx`, in that order (positions past the
      end are skipped). */
  function Pick<T>(ys: seq<T>, idx: seq<nat>): (r: seq<T>)
    ensures |r| <= |idx|
  {
    if idx == [] then []
    else
      var last := idx[|idx| - 1];
      Pick(ys, idx[..|idx| - 1]) + (if last < |ys| then [ys[last]] else [])
  }

  /** With every position in range, `Pick` keeps one element per position. */
  lemma {:induction false} PickAt<T>(ys: seq<T>, idx: seq<nat>, k: nat)
    requires forall j :: 0 <= j < |idx| ==> idx[j] < |ys|
    requires k < |idx|
    ensures |Pick(ys, idx)| == |idx| && Pick(ys, idx)[k] == ys[idx[k]]
  {
    var front := idx[..|idx| - 1];
    assert forall j :: 0 <= j < |front| ==> front[j] < |ys|;
    if k < |idx| - 1 {
      PickAt(ys, front, k);
    } else if k > 0 {
      PickAt(ys, front, k - 1);
    }
  }

  /** One step of a filtering loop over `xs` that collects the parallel elements
      of `ys`: element `i` is appended exactly when `xs[i]` passes. */
  lemma PickStep<T, U>(xs: seq<T>, ys: seq<U>, p: T -> bool, i: nat, acc: seq<U>, ok: bool)
    requires |ys| == |xs| && i < |xs|
    requires acc == Pick(ys, KeptBy(xs, p, i)) && ok == p(xs[i])
    ensures (if ok then acc + [ys[i]] else acc) == Pick(ys, KeptBy(xs, p, i + 1))
  {
    var idx := KeptBy(xs, p, i);
    assert KeptBy(xs, p, i + 1) == idx + (if ok then [i] else []);
    if ok {
      assert (idx + [i])[..|idx|] == idx;
    } else {
      assert idx + [] == idx;
    }
  }

  /** What a filtering loop over all of `xs` produces: the elements of `ys` at
      the passing positions, one per position, in increasing order, with no
      passing position missed. */
  lemma PickKept<T, U>(xs: seq<T>, ys: seq<U>, p: T -> bool) returns (idx: seq<nat>)
    requires |ys| == |xs|
    ensures idx == KeptBy(xs, p, |xs|)
    ensures |Pick(ys, idx)| == |idx|
    ensures forall k :: 0 <= k < |idx| ==> idx[k] < |xs| && p(xs[idx[k]]) && Pick(ys, idx)[k] == ys[idx[k]]
    ensures forall k, l :: 0 <= k < l < |idx| ==> idx[k] < idx[l]
    ensures forall i :: 0 <= i < |xs| && p(xs[i]) ==> i in idx
  {
    idx := KeptBy(xs, p, |xs|);
    KeptByExact(xs, p, |xs|);
    assert forall j :: 0 <= j < |idx| ==> idx[j] < |ys|;
    if idx == [] {
      assert Pick(ys, idx) == [];
    } else {
      PickAt(ys, idx, 0);
    }
    forall k | 0 <= k < |idx| ensures Pick(ys, idx)[k] == ys[idx[k]] {
      PickAt(ys, idx, k);
    }
  }

  /** Growing a prefix by one element, after some `front`. */
  lemma TakeOneMore<T>(front: seq<T>, xs: seq<T>, k: nat)
    requires k < |xs|
    ensures front + xs[..k] + [xs[k]] == front + xs[..k + 1]
  {
    assert xs[..k + 1] == xs[..k] + [xs[k]];
  }

  lemma AppendAssoc<T>(a: seq<T>, b: seq<T>, c: seq<T>)
    ensures a + b + c == a + (b + c)
  {
  }

  /** The concatenation of the first `n` sequences of `xss`. */
  function Flatten<T>(xss: seq<seq<T>>, n: nat): seq<T>
    requires n <= |xss|
  {
    if n == 0 then [] else Flatten(xss, n - 1) + xss[n - 1]
  }

  /** Appending the next list extends a flattened prefix by one list. */
  lemma FlattenStep<T>(front: seq<T>, xss: seq<seq<T>>, n: nat, before: seq<T>, after: seq<T>)
    requires n < |xss| && before == front + Flatten(xss, n) && after == before + xss[n]
    ensures after == front + Flatten(xss, n + 1)
  {
    AppendAssoc(front, Flatten(xss, n), xss[n]);
  }

  /** Element `i` of a concatenation is element `k` of part `s`, for some `s < n`. */
  lemma {:induction false} FlattenAt<T>(xss: seq<seq<T>>, n: nat, i: nat) returns (s: nat, k: nat)
    requires n <= |xss| && i < |Flatten(xss, n)|
    ensures s < n && k < |xss[s]| && Flatten(xss, n)[i] == xss[s][k]
  {
    if n == 0 {
      assert false;
    } else {
      var front := Flatten(xss, n - 1);
      if i < |front| {
        s, k := FlattenAt(xss, n - 1, i);
      } else {
        s, k := n - 1, i - |front|;
      }
    }
  }

  /** Two concatenations of parts that correspond element by element under `r`
      correspond element by element themselves. */
  lemma {:induction false} FlattenPointwise<T, U>(xss: seq<seq<T>>, yss: seq<seq<U>>, n: nat, r: (T, U) -> bool)
    requires n <= |xss| == |yss|
    requires forall s :: 0 <= s < n ==> |xss[s]| == |yss[s]|
    requires forall s, k :: 0 <= s < n && 0 <= k < |xss[s]| && k < |yss[s]| ==> r(xss[s][k], yss[s][k])
    ensures |Flatten(xss, n)| == |Flatten(yss, n)|
    ensures forall i :: 0 <= i < |Flatten(xss, n)| ==> r(Flatten(xss, n)[i], Flatten(yss, n)[i])
  {
    if n > 0 {
      FlattenPointwise(xss, yss, n - 1, r);
      var a, b := Flatten(xss, n - 1), Flatten(yss, n - 1);
      forall i | 0 <= i < |Flatten(xss, n)| ensures r(Flatten(xss, n)[i], Flatten(yss, n)[i]) {
        if i >= |a| {
          assert Flatten(xss, n)[i] == xss[n - 1][i - |a|];
          assert Flatten(yss, n)[i] == yss[n - 1][i - |b|];
        }
      }
    }
  }
}
