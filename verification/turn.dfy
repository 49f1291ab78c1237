/**
 * Turn advancement: the `do { i = (i + 1) % n } while (!participants[i].active)`
 * search for the next player still in the game.
 */
module Turn {
  import opened Roster

  /** One step of the search: the seat after `i`, wrapping round at `n`. */
  function Succ(i: nat, n: nat): (r: nat)
    requires n > 0
    ensures r < n
  {
    (i + 1) % n
  }

  /** The seat the search has reached after `k` steps from `from`. */
  function Walk(from: nat, k: nat, n: nat): (r: nat)
    requires from < n
    ensures r < n
  {
    if k == 0 then from else Succ(Walk(from, k - 1, n), n)
  }

  /** How many steps forward, round the table, it takes to go from seat `from` to seat `j` (a full lap when they are equal). */
  function Dist(from: nat, j: nat, n: nat): nat
    requires from < n
  {
    if j > from then j - from else j + n - from
  }

  /** Seat `j` comes strictly after `a` and strictly before `b` going round the table (every other seat when `a == b`). */
  predicate StrictlyBetween(a: nat, j: nat, b: nat) {
    if a < b then a < j < b else j > a || j < b
  }

  /**
   * Seat `r` is where the search from `from` stops: it is still in, and no
   * seat strictly between `from` and `r`, going round the table, is.
   */
  predicate IsNextActive(ps: seq<Participant>, from: nat, r: nat) {
    && r < |ps| && ps[r].active
    && forall j :: 0 <= j < |ps| && StrictlyBetween(from, j, r) ==> !ps[j].active
  }

  /** Before the last seat the search moves one seat on; from the last seat it wraps to seat 0. */
  lemma SuccWraps(i: nat, n: nat)
    requires i < n
    ensures Succ(i, n) == if i + 1 < n then i + 1 else 0
  {
  }

  /** Within one lap, the search is plain addition modulo the table size. */
  lemma {:induction false} WalkWithinLap(from: nat, k: nat, n: nat)
    requires from < n && k <= n
    ensures Walk(from, k, n) == if from + k < n then from + k else from + k - n
  {
    if k > 0 {
      WalkWithinLap(from, k - 1, n);
      SuccWraps(Walk(from, k - 1, n), n);
    }
  }

  /** Walking `Dist(from, j)` steps from `from` lands on `j`. */
  lemma WalkDist(from: nat, j: nat, n: nat)
    requires from < n && j < n
    ensures 1 <= Dist(from, j, n) <= n
    ensures Walk(from, Dist(from, j, n), n) == j
  {
    WalkWithinLap(from, Dist(from, j, n), n);
  }

  /** The seat reached after `k` steps holds a player who is still in. */
  predicate ActiveAfter(ps: seq<Participant>, from: nat, k: nat)
    requires from < |ps|
  {
    ps[Walk(from, k, |ps|)].active
  }

  /** Number of iterations of the do-while: the least `r >= k` whose seat is active, given none before `k` is. */
  function Steps(ps: seq<Participant>, from: nat, k: nat): (r: nat)
    requires from < |ps| && 1 <= k <= |ps|
    requires forall j :: 1 <= j < k ==> !ActiveAfter(ps, from, j)
    requires exists j :: k <= j <= |ps| && ActiveAfter(ps, from, j)
    ensures k <= r <= |ps|
    ensures ActiveAfter(ps, from, r)
    ensures forall j :: 1 <= j < r ==> !ActiveAfter(ps, from, j)
    decreases |ps| - k
  {
    if ActiveAfter(ps, from, k) then k else Steps(ps, from, k + 1)
  }

  /**
   * `nextTurn`'s new index: a seat that is still in, with no active seat
   * strictly between the old index and it going round the table. It is the
   * old index itself only when nobody else is in.
   */
  function NextIndex(ps: seq<Participant>, from: nat): (r: nat)
    requires from < |ps| && HasActive(ps)
    ensures IsNextActive(ps, from, r)
  {
    var t :| 0 <= t < |ps| && ps[t].active;
    WalkDist(from, t, |ps|);
    assert ActiveAfter(ps, from, Dist(from, t, |ps|));
    var k := Steps(ps, from, 1);
    var r := Walk(from, k, |ps|);
    assert forall j :: 0 <= j < |ps| && StrictlyBetween(from, j, r) ==> !ps[j].active by {
      forall j | 0 <= j < |ps| && StrictlyBetween(from, j, r)
        ensures !ps[j].active
      {
        WalkWithinLap(from, k, |ps|);
        WalkDist(from, j, |ps|);
        assert Dist(from, j, |ps|) < k;
        assert !ActiveAfter(ps, from, Dist(from, j, |ps|));
      }
    }
    r
  }

  /** With at least two players in, the turn always moves to a different seat. */
  lemma NextIndexMoves(ps: seq<Participant>, from: nat)
    requires from < |ps| && CountActive(ps) >= 2
    ensures HasActive(ps)
    ensures NextIndex(ps, from) != from
  {
    CountPositiveIff(ps);
    var r := NextIndex(ps, from);
    if r == from {
      assert forall j :: 0 <= j < |ps| && j != from ==> StrictlyBetween(from, j, r);
      CountAtMostOne(ps, from);
    }
  }

  /**
   * The two facts `NextIndex` promises pin it down: any active seat with no
   * active seat strictly between `from` and it is the one `NextIndex` picks.
   */
  lemma NextIndexUnique(ps: seq<Participant>, from: nat, r: nat)
    requires from < |ps| && IsNextActive(ps, from, r)
    ensures HasActive(ps)
    ensures NextIndex(ps, from) == r
  {
  }
}
