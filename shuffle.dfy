/**
  The per-sweep shuffle of the interior index list.

  Both `random.shuffle` and `np.random.shuffle` are the Fisher-Yates shuffle:
  for `i` from `n - 1` down to `1`, pick `j` uniformly in `[0, i]` and swap
  positions `i` and `j`. The random choices `j` are an input here (`js[i]` is the
  choice made at step `i`; `js[0]` is never used), so any permutation the
  generator could produce can be replayed.
*/
module Shuffling {

  /** `js` holds one admissible Fisher-Yates choice per position of an `n`-element list. */
  predicate ValidSwaps(js: seq<nat>, n: nat) {
    |js| == n && forall i :: 0 <= i < n ==> js[i] <= i
  }

  function Swap(s: seq<int>, i: nat, j: nat): seq<int>
    requires i < |s| && j < |s|
  {
    s[i := s[j]][j := s[i]]
  }

  /** The swaps of steps `i, i - 1, ..., 1`, in that order. */
  function SwapDown(s: seq<int>, js: seq<nat>, i: nat): seq<int>
    requires i < |s| && ValidSwaps(js, |s|)
    decreases i
  {
    if i == 0 then s else SwapDown(Swap(s, i, js[i]), js, i - 1)
  }

  /** The list after one full Fisher-Yates pass driven by the choices `js`. */
  function FisherYates(s: seq<int>, js: seq<nat>): seq<int>
    requires ValidSwaps(js, |s|)
  {
    if |s| == 0 then s else SwapDown(s, js, |s| - 1)
  }

  lemma SwapPermutes(s: seq<int>, i: nat, j: nat)
    requires i < |s| && j < |s|
    ensures multiset(Swap(s, i, j)) == multiset(s)
  {
    var u := s[i := s[j]];
    assert u[j] == s[j];
    assert multiset(u) == multiset(s) - multiset{s[i]} + multiset{s[j]};
    assert multiset(Swap(s, i, j)) == multiset(u) - multiset{s[j]} + multiset{s[i]};
  }

  lemma {:induction false} SwapDownPermutes(s: seq<int>, js: seq<nat>, i: nat)
    requires i < |s| && ValidSwaps(js, |s|)
    ensures |SwapDown(s, js, i)| == |s|
    ensures multiset(SwapDown(s, js, i)) == multiset(s)
    decreases i
  {
    if i > 0 {
      var t := Swap(s, i, js[i]);
      SwapPermutes(s, i, js[i]);
      SwapDownPermutes(t, js, i - 1);
    }
  }

  /**
    A shuffle only reorders the list: the result is a permutation of the input,
    so a shuffled index list still holds every interior site exactly as often.
  */
  lemma FisherYatesPermutes(s: seq<int>, js: seq<nat>)
    requires ValidSwaps(js, |s|)
    ensures |FisherYates(s, js)| == |s|
    ensures multiset(FisherYates(s, js)) == multiset(s)
  {
    if |s| > 0 {
      SwapDownPermutes(s, js, |s| - 1);
    }
  }

  /** Shuffles `a` in place, one swap per step, as the library routines do. */
  method Shuffle(a: array<int>, js: seq<nat>)
    requires ValidSwaps(js, a.Length)
    modifies a
    ensures a[..] == FisherYates(old(a[..]), js)
    ensures multiset(a[..]) == multiset(old(a[..]))
  {
    FisherYatesPermutes(a[..], js);
    if a.Length == 0 {
      return;
    }
    var i := a.Length - 1;
    while i > 0
      invariant 0 <= i < a.Length
      invariant SwapDown(a[..], js, i) == FisherYates(old(a[..]), js)
    {
      var j := js[i];
      ghost var before := a[..];
      a[i], a[j] := a[j], a[i];
      assert a[..] == Swap(before, i, j);
      i := i - 1;
    }
  }
}
