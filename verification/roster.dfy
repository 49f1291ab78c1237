/**
 * The participants of a game: who plays, in which seat, and who is still in.
 */
module Roster {
  import opened Text

  /** A seat at the table: its 1-based position, the trimmed name, and whether the player is still in. */
  datatype Participant = Participant(id: int, name: JsString, active: bool)

  /** Number of participants still in the game. */
  function CountActive(ps: seq<Participant>): (c: nat)
    ensures c <= |ps|
  {
    if ps == [] then 0 else (if ps[0].active then 1 else 0) + CountActive(ps[1..])
  }

  predicate HasActive(ps: seq<Participant>) {
    exists i :: 0 <= i < |ps| && ps[i].active
  }

  /** The roster with the participant in seat `i` knocked out and everything else as it was. */
  function Deactivate(ps: seq<Participant>, i: nat): seq<Participant>
    requires i < |ps|
  {
    ps[i := ps[i].(active := false)]
  }

  /** Seats are numbered 1, 2, ..., n in roster order. */
  predicate IdsInOrder(ps: seq<Participant>) {
    forall i :: 0 <= i < |ps| ==> ps[i].id == i + 1
  }

  /** A name as stored: already trimmed and not blank. */
  predicate IsName(s: JsString) {
    s != [] && IsTrimmed(s)
  }

  /** The names, in seat order. */
  function Names(ps: seq<Participant>): (ns: seq<JsString>)
    ensures |ns| == |ps|
    ensures forall i :: 0 <= i < |ps| ==> ns[i] == ps[i].name
  {
    seq(|ps|, i requires 0 <= i < |ps| => ps[i].name)
  }

  /** A participant record is created for each raw name, in the order entered, with the name trimmed. */
  function Enroll(raw: seq<JsString>): (ps: seq<Participant>)
    ensures |ps| == |raw|
    ensures IdsInOrder(ps)
    ensures forall i :: 0 <= i < |raw| ==> ps[i].name == Trim(raw[i]) && ps[i].active
  {
    seq(|raw|, i requires 0 <= i < |raw| => Participant(i + 1, Trim(raw[i]), true))
  }

  /** Seat numbers reassigned after the order is settled; names and flags stay where they are. */
  function Renumber(ps: seq<Participant>): (qs: seq<Participant>)
    ensures |qs| == |ps| && IdsInOrder(qs)
    ensures Names(qs) == Names(ps)
    ensures forall i :: 0 <= i < |ps| ==> qs[i].active == ps[i].active
  {
    seq(|ps|, i requires 0 <= i < |ps| => ps[i].(id := i + 1))
  }

  /** The active count is positive exactly when somebody is still in. */
  lemma {:induction false} CountPositiveIff(ps: seq<Participant>)
    ensures CountActive(ps) > 0 <==> HasActive(ps)
  {
    if ps != [] {
      CountPositiveIff(ps[1..]);
      if HasActive(ps[1..]) {
        var i :| 0 <= i < |ps[1..]| && ps[1..][i].active;
        assert ps[i + 1].active;
      }
      if HasActive(ps) && !ps[0].active {
        var i :| 0 <= i < |ps| && ps[i].active;
        assert ps[1..][i - 1].active;
      }
    }
  }

  /** Knocking out seat `i` lowers the count by one if that player was in, and leaves it alone otherwise. */
  lemma {:induction false} CountDeactivate(ps: seq<Participant>, i: nat)
    requires i < |ps|
    ensures CountActive(Deactivate(ps, i)) == CountActive(ps) - (if ps[i].active then 1 else 0)
  {
    if i == 0 {
      assert Deactivate(ps, i)[1..] == ps[1..];
    } else {
      CountDeactivate(ps[1..], i - 1);
      assert Deactivate(ps, i)[1..] == Deactivate(ps[1..], i - 1);
    }
  }

  /** If nobody but (possibly) seat `x` is in, at most one player is in. */
  lemma {:induction false} CountAtMostOne(ps: seq<Participant>, x: int)
    requires forall j :: 0 <= j < |ps| && j != x ==> !ps[j].active
    ensures CountActive(ps) <= 1
    ensures x < 0 || x >= |ps| ==> CountActive(ps) == 0
  {
    if ps != [] {
      assert forall j :: 0 <= j < |ps[1..]| && j != x - 1 ==> !ps[1..][j].active by {
        forall j | 0 <= j < |ps[1..]| && j != x - 1
          ensures !ps[1..][j].active
        {
          assert ps[1..][j] == ps[j + 1];
        }
      }
      CountAtMostOne(ps[1..], x - 1);
    }
  }

  /** Two different seats that are both in make at least two active players. */
  lemma {:induction false} CountAtLeastTwo(ps: seq<Participant>, i: nat, j: nat)
    requires i < j < |ps| && ps[i].active && ps[j].active
    ensures CountActive(ps) >= 2
  {
    if i == 0 {
      assert ps[1..][j - 1].active;
      CountPositiveIff(ps[1..]);
    } else {
      assert ps[1..][i - 1] == ps[i] && ps[1..][j - 1] == ps[j];
      CountAtLeastTwo(ps[1..], i - 1, j - 1);
    }
  }

  /** When everybody is in, the count is the roster size. */
  lemma {:induction false} CountAllActive(ps: seq<Participant>)
    requires forall i :: 0 <= i < |ps| ==> ps[i].active
    ensures CountActive(ps) == |ps|
  {
    if ps != [] {
      assert forall i :: 0 <= i < |ps[1..]| ==> ps[1..][i].active by {
        forall i | 0 <= i < |ps[1..]|
          ensures ps[1..][i].active
        {
          assert ps[1..][i] == ps[i + 1];
        }
      }
      CountAllActive(ps[1..]);
    }
  }

  /** With exactly one player in, that player is the only one: any two active seats coincide. */
  lemma SoleActive(ps: seq<Participant>, i: nat, j: nat)
    requires CountActive(ps) == 1
    requires i < |ps| && j < |ps| && ps[i].active && ps[j].active
    ensures i == j
  {
    if i < j {
      CountAtLeastTwo(ps, i, j);
    } else if j < i {
      CountAtLeastTwo(ps, j, i);
    }
  }
}
