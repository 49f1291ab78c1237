/**
 * The optional Fisher-Yates shuffle of the seating order. The random draw
 * `Math.floor(Math.random() * (i + 1))` becomes an explicit list of picks.
 */
module Shuffle {

  /** Exchange of positions `i` and `j` (a no-op when they are equal). */
  function Swap<T>(s: seq<T>, i: nat, j: nat): (r: seq<T>)
    requires i < |s| && j < |s|
    ensures |r| == |s| && r[i] == s[j] && r[j] == s[i]
    ensures forall k {:trigger r[k]} :: 0 <= k < |s| && k != i && k != j ==> r[k] == s[k]
  {
    s[i := s[j]][j := s[i]]
  }

  /** An exchange loses and duplicates nothing. */
  lemma SwapPermutes<T>(s: seq<T>, i: nat, j: nat)
    requires i < |s| && j < |s|
    ensures multiset(Swap(s, i, j)) == multiset(s)
  {
  }

  /** `picks[i]` is the draw made when the loop is at index `i`; each draw lies in 0..i. */
  predicate ValidPicks(picks: seq<nat>, n: nat) {
    |picks| == n && forall i :: 0 <= i < n ==> picks[i] <= i
  }

  /** The loop from index `i` down to 1; positions above `i` are never touched. */
  function ShuffleDown<T>(s: seq<T>, picks: seq<nat>, i: nat): (r: seq<T>)
    requires i < |s| && ValidPicks(picks, |s|)
    ensures |r| == |s|
    ensures forall k {:trigger r[k]} :: i < k < |s| ==> r[k] == s[k]
    decreases i
  {
    if i == 0 then s else ShuffleDown(Swap(s, i, picks[i]), picks, i - 1)
  }

  /** Each pass of the loop only exchanges, so the whole loop loses and duplicates nothing. */
  lemma {:induction false} ShuffleDownPermutes<T>(s: seq<T>, picks: seq<nat>, i: nat)
    requires i < |s| && ValidPicks(picks, |s|)
    ensures multiset(ShuffleDown(s, picks, i)) == multiset(s)
    decreases i
  {
    if i > 0 {
      SwapPermutes(s, i, picks[i]);
      ShuffleDownPermutes(Swap(s, i, picks[i]), picks, i - 1);
    }
  }

  /**
   * `for (i = n - 1; i > 0; i--) swap(i, j)` with `j` drawn from 0..i: the
   * result is a rearrangement of the input, nothing lost or duplicated, and
   * the last seat holds the element the first draw chose.
   */
  function FisherYates<T>(s: seq<T>, picks: seq<nat>): (r: seq<T>)
    requires ValidPicks(picks, |s|)
    ensures |r| == |s| && multiset(r) == multiset(s)
    ensures |s| > 0 ==> r[|s| - 1] == s[picks[|s| - 1]]
  {
    if |s| == 0 then s else ShuffleDownPermutes(s, picks, |s| - 1); ShuffleDown(s, picks, |s| - 1)
  }

  /** Applies `f` to every element. */
  function Map<T, U>(f: T -> U, s: seq<T>): (r: seq<U>)
    ensures |r| == |s| && forall i {:trigger r[i]} :: 0 <= i < |s| ==> r[i] == f(s[i])
  {
    seq(|s|, i requires 0 <= i < |s| => f(s[i]))
  }

  /** Looking at a field of each element commutes with one exchange. */
  lemma MapSwap<T, U>(f: T -> U, s: seq<T>, i: nat, j: nat)
    requires i < |s| && j < |s|
    ensures Map(f, Swap(s, i, j)) == Swap(Map(f, s), i, j)
  {
  }

  /** Shuffling and then looking at a field of each element is the same as shuffling the field values. */
  lemma {:induction false} ShuffleDownMap<T, U>(f: T -> U, s: seq<T>, picks: seq<nat>, i: nat)
    requires i < |s| && ValidPicks(picks, |s|)
    ensures Map(f, ShuffleDown(s, picks, i)) == ShuffleDown(Map(f, s), picks, i)
    decreases i
  {
    if i > 0 {
      var s' := Swap(s, i, picks[i]);
      var m := Map(f, s);
      MapSwap(f, s, i, picks[i]);
      ShuffleDownMap(f, s', picks, i - 1);
      calc {
        Map(f, ShuffleDown(s, picks, i));
        Map(f, ShuffleDown(s', picks, i - 1));
        ShuffleDown(Map(f, s'), picks, i - 1);
        { assert Map(f, s') == Swap(m, i, picks[i]); }
        ShuffleDown(Swap(m, i, picks[i]), picks, i - 1);
        ShuffleDown(m, picks, i);
      }
    }
  }

  /** The shuffle treats elements blindly: it commutes with any per-element view. */
  lemma FisherYatesMap<T, U>(f: T -> U, s: seq<T>, picks: seq<nat>)
    requires ValidPicks(picks, |s|)
    ensures Map(f, FisherYates(s, picks)) == FisherYates(Map(f, s), picks)
  {
    if |s| > 0 {
      ShuffleDownMap(f, s, picks, |s| - 1);
    }
  }

  /** Picks that always draw the loop's own index leave the order as it was. */
  lemma {:induction false} ShuffleDownIdentity<T>(s: seq<T>, picks: seq<nat>, i: nat)
    requires i < |s| && ValidPicks(picks, |s|)
    requires forall k :: 0 <= k < |s| ==> picks[k] == k
    ensures ShuffleDown(s, picks, i) == s
    decreases i
  {
    if i > 0 {
      assert Swap(s, i, picks[i]) == s;
      ShuffleDownIdentity(s, picks, i - 1);
    }
  }
}
