/**
 * The game invariant `Valid` holds after setup and after every click, and
 * what it buys: the log stays within five words, the turn always sits with a
 * player who is still in, and a finished game has exactly one player left.
 */
module Invariants {
  import opened Text
  import opened Roster
  import opened Turn
  import History
  import Shuffle
  import opened Relay

  /** With at least two players in, passing the turn always hands it to somebody else. */
  lemma NextTurnMoves(g: Game)
    requires Coherent(g) && !g.isOver && g.activeCount >= 2
    ensures HasActive(g.participants) && NextTurn(g).current != g.current
  {
    NextIndexMoves(g.participants, g.current);
  }

  /** An elimination keeps the invariant, whichever follow-up the players choose. */
  lemma EliminatePreservesValid(g: Game, f: Followup)
    requires Valid(g) && !g.isOver
    ensures Valid(Eliminate(g, f))
  {
  }

  /**
   * Knocking a player out of a running game ends it exactly when that leaves
   * one player, and then exactly one player is in: the winner.
   */
  lemma EliminationLeavesOneWinner(g: Game, f: Followup)
    requires Valid(g) && !g.isOver
    ensures var r := Eliminate(g, f);
            && (r.isOver <==> g.activeCount == 2)
            && (r.isOver ==> CountActive(r.participants) == 1)
            && (r.isOver ==> exists w :: 0 <= w < |r.participants| && r.participants[w].active)
  {
    var r := Eliminate(g, f);
    EliminatePreservesValid(g, f);
    CountPositiveIff(r.participants);
  }

  /** In a finished game exactly one seat is still in. */
  lemma GameOverHasOneWinner(g: Game)
    requires Valid(g) && g.isOver
    ensures exists w :: 0 <= w < |g.participants| && g.participants[w].active
    ensures forall i, j ::
              0 <= i < |g.participants| && 0 <= j < |g.participants| && g.participants[i].active && g.participants[j].active
              ==> i == j
  {
    CountPositiveIff(g.participants);
    forall i, j | 0 <= i < |g.participants| && 0 <= j < |g.participants| &&
                  g.participants[i].active && g.participants[j].active
      ensures i == j
    {
      SoleActive(g.participants, i, j);
    }
  }

  /**
   * The first word of a round is pushed onto the log with no length check;
   * that is harmless, because the log is always empty at that point, so the
   * result is what the bounded push-and-shift would give.
   */
  lemma FirstWordStartsLog(g: Game, w: JsString)
    requires Coherent(g) && !g.isOver && RoundOk(g) && g.currentWord == []
    ensures Accept(g, w).history == [w]
    ensures History.Record(g.history, w) == [w]
  {
  }

  /** Accepting a fresh, long-enough word keeps the invariant. */
  lemma AcceptPreservesValid(g: Game, w: JsString)
    requires Valid(g) && !g.isOver
    requires |w| >= MinWordLength && w !in g.usedWords
    ensures Valid(Accept(g, w))
  {
  }

  /** Whatever is typed and whatever the players answer, a click keeps the invariant. */
  lemma SubmitPreservesValid(g: Game, raw: JsString, f: Followup)
    requires Valid(g)
    ensures Valid(Submit(g, raw, f).game)
  {
    var s := Submit(g, raw, f);
    if s.outcome.Eliminated? {
      EliminatePreservesValid(g, f);
    } else if s.outcome == Accepted {
      AcceptPreservesValid(g, Trim(raw));
    }
  }

  /** Setup, when it succeeds, produces a game that satisfies the invariant. */
  lemma InitGameValid(raw: seq<JsString>, shuffle: bool, picks: seq<nat>)
    requires shuffle ==> Shuffle.ValidPicks(picks, |raw|)
    ensures InitGame(raw, shuffle, picks).Ok? ==> Valid(InitGame(raw, shuffle, picks).value)
  {
    if InitGame(raw, shuffle, picks).Ok? {
      var g := InitGame(raw, shuffle, picks).value;
      var ps := g.participants;
      CountAllActive(ps);
      forall i | 0 <= i < |ps|
        ensures IsName(ps[i].name)
      {
        var trimmed := TrimmedNames(raw);
        assert Names(ps)[i] in multiset(Names(ps));
        assert ps[i].name in trimmed;
        var j :| 0 <= j < |trimmed| && trimmed[j] == ps[i].name;
        assert !IsBlank(raw[j]);
      }
    }
  }

  /** Without shuffling, names that need no trimming are seated exactly as entered, numbered from 1. */
  lemma SeatedAsEntered(raw: seq<JsString>)
    requires forall i :: 0 <= i < |raw| ==> Trim(raw[i]) == raw[i]
    ensures Seating(raw, false, []) == seq(|raw|, i requires 0 <= i < |raw| => Participant(i + 1, raw[i], true))
  {
  }

  /**
   * Two or more proper names, without shuffling, open a game with the
   * players in the order entered, seat 0 to play, everybody in and an empty
   * round.
   */
  lemma SetupInOrder(raw: seq<JsString>)
    requires |raw| >= MinPlayers && forall i :: 0 <= i < |raw| ==> IsName(raw[i])
    ensures InitGame(raw, false, []) ==
              Ok(Game(seq(|raw|, i requires 0 <= i < |raw| => Participant(i + 1, raw[i], true)), |raw|, 0, [], {}, [], false))
  {
    forall i | 0 <= i < |raw|
      ensures Trim(raw[i]) == raw[i]
    {
      TrimFixesExactlyTrimmed(raw[i]);
    }
    SeatedAsEntered(raw);
  }

  /** The game after a sequence of clicks, each with the text typed and the answer to any follow-up question. */
  function Play(g: Game, clicks: seq<(JsString, Followup)>): (r: Game)
    requires Valid(g)
    ensures Valid(r)
    decreases |clicks|
  {
    if clicks == [] then
      g
    else
      SubmitPreservesValid(g, clicks[0].0, clicks[0].1);
      Play(Submit(g, clicks[0].0, clicks[0].1).game, clicks[1..])
  }

  /**
   * Every game reachable from a successful setup satisfies the invariant: in
   * particular the log never holds more than five words, the turn sits with a
   * player still in while the game runs, and the count matches the roster.
   */
  lemma ReachableGamesAreValid(raw: seq<JsString>, shuffle: bool, picks: seq<nat>, clicks: seq<(JsString, Followup)>)
    requires shuffle ==> Shuffle.ValidPicks(picks, |raw|)
    ensures var setup := InitGame(raw, shuffle, picks);
            setup.Ok? ==>
              && Valid(setup.value)
              && var g := Play(setup.value, clicks);
                 && |g.history| <= History.Limit
                 && g.activeCount == CountActive(g.participants)
                 && (g.isOver <==> g.activeCount == 1)
                 && (!g.isOver ==> g.participants[g.current].active)
  {
    InitGameValid(raw, shuffle, picks);
  }
}
