/**
 * How Python's `re.finditer` and `re.sub` walk a text: the pattern is tried at
 * each position in turn; after a match the search resumes where the match
 * ended. The patterns of the pipeline never match the empty string, so every
 * match moves the search forward. The pattern itself is a parameter here: `at`
 * gives the match found at a position, if any.
 */
module Scan {
  import opened Wrappers

  /** `at` describes a pattern over a text of length `n`: a match found at `q`
      starts at `q` and ends after it, inside the text. */
  ghost predicate Advances<M>(n: nat, at: nat -> Option<M>, startOf: M -> nat, endOf: M -> nat) {
    forall q: nat :: q < n && at(q).Some? ==> startOf(at(q).value) == q < endOf(at(q).value) <= n
  }

  /** The matches `finditer` reports with the search resumed at `p`. */
  function ScanFrom<M>(n: nat, at: nat -> Option<M>, startOf: M -> nat, endOf: M -> nat, p: nat): seq<M>
    requires p <= n && Advances(n, at, startOf, endOf)
    decreases n - p
  {
    if p == n then []
    else match at(p)
      case Some(m) => [m] + ScanFrom(n, at, startOf, endOf, endOf(m))
      case None => ScanFrom(n, at, startOf, endOf, p + 1)
  }

  /** Each reported match is what the pattern gives where it starts, at or
      after `p`; and each one ends no later than the next one starts. */
  lemma {:induction false} ScanPlaced<M>(n: nat, at: nat -> Option<M>, startOf: M -> nat, endOf: M -> nat, p: nat)
    requires p <= n && Advances(n, at, startOf, endOf)
    ensures forall m :: m in ScanFrom(n, at, startOf, endOf, p) ==>
      p <= startOf(m) < endOf(m) <= n && at(startOf(m)) == Some(m)
    ensures forall k :: 0 <= k < |ScanFrom(n, at, startOf, endOf, p)| - 1 ==>
      endOf(ScanFrom(n, at, startOf, endOf, p)[k]) <= startOf(ScanFrom(n, at, startOf, endOf, p)[k + 1])
    decreases n - p
  {
    if p < n {
      match at(p)
      case Some(m) =>
        var rest := ScanFrom(n, at, startOf, endOf, endOf(m));
        ScanPlaced(n, at, startOf, endOf, endOf(m));
        assert ScanFrom(n, at, startOf, endOf, p) == [m] + rest;
        assert rest != [] ==> rest[0] in rest;
      case None =>
        ScanPlaced(n, at, startOf, endOf, p + 1);
    }
  }

  /** Matches that follow each other without overlap come in text order. */
  lemma {:induction false} ChainOrdered<M>(ms: seq<M>, startOf: M -> nat, endOf: M -> nat, k: nat, l: nat)
    requires forall i :: 0 <= i < |ms| ==> startOf(ms[i]) < endOf(ms[i])
    requires forall i :: 0 <= i < |ms| - 1 ==> endOf(ms[i]) <= startOf(ms[i + 1])
    requires k < l < |ms|
    ensures endOf(ms[k]) <= startOf(ms[l])
    decreases l - k
  {
    if k + 1 < l {
      ChainOrdered(ms, startOf, endOf, k + 1, l);
    }
  }

  /** Every position from `p` on where the pattern matches lies within one of
      the reported matches: it is that match's start unless an earlier match
      has already consumed it. */
  lemma {:induction false} ScanCover<M>(n: nat, at: nat -> Option<M>, startOf: M -> nat, endOf: M -> nat, p: nat, q: nat)
    returns (k: nat)
    requires Advances(n, at, startOf, endOf)
    requires p <= q < n && at(q).Some?
    ensures k < |ScanFrom(n, at, startOf, endOf, p)|
    ensures startOf(ScanFrom(n, at, startOf, endOf, p)[k]) <= q < endOf(ScanFrom(n, at, startOf, endOf, p)[k])
    decreases n - p
  {
    match at(p)
    case Some(m) =>
      var rest := ScanFrom(n, at, startOf, endOf, endOf(m));
      assert ScanFrom(n, at, startOf, endOf, p) == [m] + rest;
      if q < endOf(m) {
        k := 0;
      } else {
        var k' := ScanCover(n, at, startOf, endOf, endOf(m), q);
        k := k' + 1;
      }
    case None =>
      k := ScanCover(n, at, startOf, endOf, p + 1, q);
  }

  /** With no match from `p` on, nothing is reported. */
  lemma {:induction false} ScanNone<M>(n: nat, at: nat -> Option<M>, startOf: M -> nat, endOf: M -> nat, p: nat)
    requires p <= n && Advances(n, at, startOf, endOf)
    requires forall q :: p <= q < n ==> at(q).None?
    ensures ScanFrom(n, at, startOf, endOf, p) == []
    decreases n - p
  {
    if p < n {
      ScanNone(n, at, startOf, endOf, p + 1);
    }
  }

  /** With no match in `[p, q)`, the search resumed at `p` reports what the
      search resumed at `q` reports. */
  lemma {:induction false} ScanSkip<M>(n: nat, at: nat -> Option<M>, startOf: M -> nat, endOf: M -> nat, p: nat, q: nat)
    requires p <= q <= n && Advances(n, at, startOf, endOf)
    requires forall r :: p <= r < q ==> at(r).None?
    ensures ScanFrom(n, at, startOf, endOf, p) == ScanFrom(n, at, startOf, endOf, q)
    decreases q - p
  {
    if p < q {
      ScanSkip(n, at, startOf, endOf, p + 1, q);
    }
  }

  /** `re.search`: whether the pattern, tried at each position from `p` on,
      matches somewhere. `test` tells whether it matches at a position. */
  predicate Found(n: nat, test: nat -> bool, p: nat)
    requires p <= n
    decreases n - p
  {
    p < n && (test(p) || Found(n, test, p + 1))
  }

  /** The search succeeds exactly when some position from `p` on passes. */
  lemma {:induction false} FoundIff(n: nat, test: nat -> bool, p: nat)
    requires p <= n
    ensures Found(n, test, p) <==> exists q :: p <= q < n && test(q)
    decreases n - p
  {
    if p < n {
      FoundIff(n, test, p + 1);
    }
  }
}
