// random.shuffle, with the random source made explicit.
//
// Python's random.shuffle(x) walks i from len(x)-1 down to 1, draws j below i+1 and swaps
// x[i] and x[j].  Here the draws come from a stream `rand` read from position k onwards, so a
// shuffle consumes max(|x| - 1, 0) draws and every permutation is reachable.

module Shuffle {

  function Swap<T>(s: seq<T>, i: nat, j: nat): (r: seq<T>)
    requires i < |s| && j < |s|
    ensures |r| == |s|
  {
    s[i := s[j]][j := s[i]]
  }

  lemma SwapPermutes<T>(s: seq<T>, i: nat, j: nat)
    requires i < |s| && j < |s|
    ensures multiset(Swap(s, i, j)) == multiset(s)
  {
  }

  /** The swaps of random.shuffle for positions i, i-1, ..., 1. */
  function ShuffleDown<T>(s: seq<T>, i: nat, rand: nat -> nat, k: nat): (r: seq<T>)
    requires i < |s|
    ensures |r| == |s|
    decreases i
  {
    if i == 0 then s else ShuffleDown(Swap(s, i, rand(k) % (i + 1)), i - 1, rand, k + 1)
  }

  lemma {:induction false} ShuffleDownPermutes<T>(s: seq<T>, i: nat, rand: nat -> nat, k: nat)
    requires i < |s|
    ensures multiset(ShuffleDown(s, i, rand, k)) == multiset(s)
    decreases i
  {
    if i > 0 {
      var j := rand(k) % (i + 1);
      SwapPermutes(s, i, j);
      ShuffleDownPermutes(Swap(s, i, j), i - 1, rand, k + 1);
    }
  }

  /** The list random.shuffle leaves behind, reading its draws from rand(k), rand(k+1), ... */
  function Shuffled<T>(s: seq<T>, rand: nat -> nat, k: nat): (r: seq<T>)
    ensures |r| == |s| && multiset(r) == multiset(s)
  {
    if |s| == 0 then s else ShuffleDownPermutes(s, |s| - 1, rand, k); ShuffleDown(s, |s| - 1, rand, k)
  }

  /** The number of draws a shuffle of n elements consumes. */
  function Draws(n: nat): nat
  {
    if n == 0 then 0 else n - 1
  }

  lemma ShuffledMembers<T>(s: seq<T>, rand: nat -> nat, k: nat, x: T)
    ensures x in Shuffled(s, rand, k) <==> x in s
  {
    var r := Shuffled(s, rand, k);
    assert x in r <==> x in multiset(r);
    assert x in s <==> x in multiset(s);
  }

  /** random.shuffle on the caller's list, in place. */
  method ShuffleInPlace<T>(a: array<T>, rand: nat -> nat, k: nat) returns (k': nat)
    modifies a
    ensures a[..] == Shuffled(old(a[..]), rand, k)
    ensures k' == k + Draws(a.Length)
  {
    if a.Length == 0 {
      k' := k;
    } else {
      k' := SwapDown(a, rand, k);
    }
  }

  /** The loop of random.shuffle over a non-empty list. */
  method SwapDown<T>(a: array<T>, rand: nat -> nat, k: nat) returns (k': nat)
    requires a.Length > 0
    modifies a
    ensures a[..] == ShuffleDown(old(a[..]), a.Length - 1, rand, k)
    ensures k' == k + a.Length - 1
  {
    k' := k;
    var i: nat := a.Length - 1;
    while i > 0
      invariant i < a.Length
      invariant k' == k + (a.Length - 1 - i)
      invariant ShuffleDown(a[..], i, rand, k') == ShuffleDown(old(a[..]), a.Length - 1, rand, k)
    {
      var j := rand(k') % (i + 1);
      a[i], a[j] := a[j], a[i];
      i := i - 1;
      k' := k' + 1;
    }
  }
}
