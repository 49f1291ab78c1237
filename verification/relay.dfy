/**
 * The word-relay game: the game record and the transitions that the word
 * button, `nextTurn`, `startNewRound`, `handleElimination` and `initGame`
 * perform on it. Each transition is a pure function from the old record to
 * the new one; the yes/no questions the script asks the players become
 * explicit arguments.
 */
module Relay {
  import opened Text
  import opened Roster
  import opened Turn
  import History
  import Shuffle

  /** A game needs at least this many players. */
  const MinPlayers: nat := 2

  /** Shorter words are refused without penalty. */
  const MinWordLength: nat := 2

  /**
   * The game record. The script's separate `participantCount` is not kept: it
   * is set together with the roster and always equals its length.
   */
  datatype Game = Game(
    participants: seq<Participant>,
    activeCount: int,
    current: nat,
    currentWord: JsString,
    usedWords: set<JsString>,
    history: seq<JsString>,
    isOver: bool)

  /** The answer to "start a new round with the remaining players?" after an elimination that leaves two or more. */
  datatype Followup = NewRound | Continue

  /** Why a word was refused without penalty. */
  datatype RejectReason = EmptyWord | TooShort

  /** Why a player was knocked out. */
  datatype Violation = DuplicateWord | BrokenChain

  /** What a click on the word button did. */
  datatype Outcome =
    | Restart                          // the game was over: no word is read, setup starts again
    | Rejected(reason: RejectReason)   // same player retries, nothing changes
    | Accepted
    | Eliminated(violation: Violation)

  datatype Step = Step(game: Game, outcome: Outcome)

  /** Why setup gave up and reloaded the page. */
  datatype SetupError = TooFewPlayers | BlankName

  datatype Result<T, E> = Ok(value: T) | Err(error: E)

  /**
   * What the transitions rely on to run at all: the turn index is a seat, the
   * count matches the roster, and somebody is still in (otherwise the turn
   * search would never stop).
   */
  predicate Coherent(g: Game) {
    && g.current < |g.participants|
    && g.activeCount == CountActive(g.participants)
    && g.activeCount >= 1
  }

  /** The seating never changes after setup: at least two seats, numbered in order, each with a proper name. */
  predicate RosterOk(g: Game) {
    && |g.participants| >= MinPlayers
    && IdsInOrder(g.participants)
    && forall i :: 0 <= i < |g.participants| ==> IsName(g.participants[i].name)
  }

  /** The count matches the roster, the game is over exactly when one player is left, and until then the turn sits with a player who is in. */
  predicate TurnOk(g: Game) {
    && Coherent(g)
    && (g.isOver <==> g.activeCount == 1)
    && (!g.isOver ==> g.participants[g.current].active)
  }

  /**
   * The round state: the log holds at most five words, ends with the current
   * word, and only words used this round; the current word, the log and the
   * used words are empty together; every used word is at least two units long.
   */
  predicate RoundOk(g: Game) {
    && |g.history| <= History.Limit
    && (g.currentWord == [] <==> g.history == [])
    && (g.currentWord == [] <==> g.usedWords == {})
    && (g.history != [] ==> g.history[|g.history| - 1] == g.currentWord)
    && (forall k :: 0 <= k < |g.history| ==> g.history[k] in g.usedWords)
    && (forall w :: w in g.usedWords ==> |w| >= MinWordLength)
  }

  /** The invariant every game reachable from setup keeps. */
  predicate Valid(g: Game) {
    RosterOk(g) && TurnOk(g) && RoundOk(g)
  }

  /** The fields that make up a round: they are kept or cleared together. */
  predicate SameRound(a: Game, b: Game) {
    a.currentWord == b.currentWord && a.usedWords == b.usedWords && a.history == b.history
  }

  /**
   * `nextTurn`: nothing happens once the game is over; otherwise the turn
   * passes to the first seat still in after the current one, round the
   * table, and nothing else changes.
   */
  function NextTurn(g: Game): (r: Game)
    requires g.isOver || (g.current < |g.participants| && HasActive(g.participants))
    ensures g.isOver ==> r == g
    ensures r == g.(current := r.current)
    ensures !g.isOver ==> IsNextActive(g.participants, g.current, r.current)
  {
    if g.isOver then g else g.(current := NextIndex(g.participants, g.current))
  }

  /**
   * `startNewRound`: the current word, the used words and the log are cleared
   * and the turn passes on; the roster and the count are left alone.
   */
  function StartNewRound(g: Game): (r: Game)
    requires g.isOver || (g.current < |g.participants| && HasActive(g.participants))
    ensures r.currentWord == [] && r.usedWords == {} && r.history == []
    ensures r.participants == g.participants && r.activeCount == g.activeCount && r.isOver == g.isOver
    ensures g.isOver ==> r.current == g.current
    ensures !g.isOver ==> IsNextActive(g.participants, g.current, r.current)
  {
    NextTurn(g.(currentWord := [], usedWords := {}, history := []))
  }

  /**
   * `handleElimination`: the player whose turn it is goes out and the count
   * drops by one. At one player or fewer the game is over and nothing else
   * moves; otherwise the players' answer decides between a fresh round and
   * carrying on with the same word, and either way the turn passes to the
   * next seat still in.
   */
  function Eliminate(g: Game, f: Followup): (r: Game)
    requires Coherent(g)
    ensures |r.participants| == |g.participants|
    ensures r.participants[g.current] == g.participants[g.current].(active := false)
    ensures forall j :: 0 <= j < |g.participants| && j != g.current ==> r.participants[j] == g.participants[j]
    ensures r.activeCount == g.activeCount - 1
    ensures g.participants[g.current].active ==> r.activeCount == CountActive(r.participants)
    ensures r.isOver <==> g.isOver || r.activeCount <= 1
    ensures r.isOver && !g.isOver ==> r.current == g.current && SameRound(r, g)
    ensures !r.isOver ==> IsNextActive(r.participants, g.current, r.current)
    ensures !r.isOver && f == Continue ==> SameRound(r, g)
    ensures !r.isOver && f == NewRound ==> r.currentWord == [] && r.usedWords == {} && r.history == []
  {
    var ps := Deactivate(g.participants, g.current);
    var g1 := g.(participants := ps, activeCount := g.activeCount - 1);
    CountDeactivate(g.participants, g.current);
    if g1.activeCount <= 1 then
      g1.(isOver := true)
    else
      CountPositiveIff(ps);
      if f == NewRound then StartNewRound(g1) else NextTurn(g1)
  }

  /** The chain rule: the first word of a round may be anything; a later one starts with the unit the current word ends with. */
  predicate Chains(currentWord: JsString, w: JsString)
    requires w != []
  {
    currentWord == [] || currentWord[|currentWord| - 1] == w[0]
  }

  /**
   * An accepted word becomes the current word, is marked used, is added at the
   * end of the log (the oldest entry making way when the log would exceed
   * five words), and the turn passes on; the roster and count are untouched.
   */
  function Accept(g: Game, w: JsString): (r: Game)
    requires Coherent(g) && !g.isOver
    ensures r.currentWord == w
    ensures r.usedWords == g.usedWords + {w}
    ensures g.currentWord == [] ==> r.history == g.history + [w]
    ensures g.currentWord != [] ==> r.history == History.Record(g.history, w)
    ensures r.participants == g.participants && r.activeCount == g.activeCount && !r.isOver
    ensures IsNextActive(g.participants, g.current, r.current)
  {
    CountPositiveIff(g.participants);
    if g.currentWord == [] then
      NextTurn(g.(currentWord := w, history := g.history + [w], usedWords := g.usedWords + {w}))
    else
      NextTurn(g.(history := History.Record(g.history, w), currentWord := w, usedWords := g.usedWords + {w}))
  }

  /**
   * The checks of the word button, in the script's order, on the trimmed word
   * `w`: empty, then shorter than two units, are refused without penalty; a
   * word already used this round knocks the player out whatever the chain rule
   * says; otherwise the word is accepted exactly when it keeps the chain.
   */
  function Judge(currentWord: JsString, usedWords: set<JsString>, w: JsString): (o: Outcome)
    ensures o != Restart
    ensures o.Rejected? <==> |w| < MinWordLength
    ensures o == Rejected(EmptyWord) <==> w == []
    ensures |w| >= MinWordLength && w in usedWords ==> o == Eliminated(DuplicateWord)
    ensures |w| >= MinWordLength && w !in usedWords ==> (o == Accepted <==> Chains(currentWord, w))
    ensures |w| >= MinWordLength && w !in usedWords && !Chains(currentWord, w) ==> o == Eliminated(BrokenChain)
  {
    if w == [] then Rejected(EmptyWord)
    else if |w| < MinWordLength then Rejected(TooShort)
    else if w in usedWords then Eliminated(DuplicateWord)
    else if Chains(currentWord, w) then Accepted
    else Eliminated(BrokenChain)
  }

  /**
   * A click on the word button with `raw` in the text field. A finished game
   * reads no word. Otherwise the trimmed word is judged: a refused word changes
   * nothing, an accepted one is taken into the round, and a violation knocks
   * the current player out.
   */
  function Submit(g: Game, raw: JsString, f: Followup): (s: Step)
    requires g.isOver || Coherent(g)
    ensures g.isOver ==> s == Step(g, Restart)
    ensures !g.isOver ==> s.outcome == Judge(g.currentWord, g.usedWords, Trim(raw))
    ensures s.outcome.Rejected? ==> s.game == g
    ensures s.outcome == Accepted ==> s.game == Accept(g, Trim(raw))
    ensures s.outcome.Eliminated? ==> s.game == Eliminate(g, f)
  {
    if g.isOver then
      Step(g, Restart)
    else
      var w := Trim(raw);
      var o := Judge(g.currentWord, g.usedWords, w);
      if o == Accepted then Step(Accept(g, w), o)
      else if o.Eliminated? then Step(Eliminate(g, f), o)
      else Step(g, o)
  }

  /** Each raw name as it is stored. */
  function TrimmedNames(raw: seq<JsString>): (ns: seq<JsString>)
    ensures |ns| == |raw| && forall i :: 0 <= i < |raw| ==> ns[i] == Trim(raw[i])
  {
    Shuffle.Map(Trim, raw)
  }

  /**
   * The seating `initGame` settles on: one record per name, trimmed, all in,
   * optionally shuffled, then numbered 1..n. No name is lost or duplicated,
   * and without the shuffle the order is the order entered.
   */
  function Seating(raw: seq<JsString>, shuffle: bool, picks: seq<nat>): (ps: seq<Participant>)
    requires shuffle ==> Shuffle.ValidPicks(picks, |raw|)
    ensures |ps| == |raw| && IdsInOrder(ps)
    ensures forall i :: 0 <= i < |ps| ==> ps[i].active
    ensures multiset(Names(ps)) == multiset(TrimmedNames(raw))
    ensures !shuffle ==> Names(ps) == TrimmedNames(raw)
  {
    var enrolled := Enroll(raw);
    assert Names(enrolled) == TrimmedNames(raw);
    var order := if shuffle then Shuffle.FisherYates(enrolled, picks) else enrolled;
    NamesSurviveOrder(enrolled, shuffle, picks);
    var ps := Renumber(order);
    ps
  }

  /**
   * `initGame` with the count prompt answered by the number of names given,
   * the name prompts by `raw`, the shuffle question by `shuffle` and the
   * random draws by `picks`. Fewer than two players, or any blank name, is
   * refused; otherwise play opens at seat 0 of the settled seating with every
   * player in and an empty round.
   */
  function InitGame(raw: seq<JsString>, shuffle: bool, picks: seq<nat>): (r: Result<Game, SetupError>)
    requires shuffle ==> Shuffle.ValidPicks(picks, |raw|)
    ensures r == Err(TooFewPlayers) <==> |raw| < MinPlayers
    ensures r == Err(BlankName) <==> |raw| >= MinPlayers && exists i :: 0 <= i < |raw| && IsBlank(raw[i])
    ensures r.Ok? ==> r.value == Game(Seating(raw, shuffle, picks), |raw|, 0, [], {}, [], false)
  {
    if |raw| < MinPlayers then
      Err(TooFewPlayers)
    else if exists i :: 0 <= i < |raw| && IsBlank(raw[i]) then
      Err(BlankName)
    else
      Ok(Game(Seating(raw, shuffle, picks), |raw|, 0, [], {}, [], false))
  }

  /** Settling the seating order keeps every player in and loses or duplicates no name. */
  lemma NamesSurviveOrder(ps: seq<Participant>, shuffle: bool, picks: seq<nat>)
    requires shuffle ==> Shuffle.ValidPicks(picks, |ps|)
    ensures var order := if shuffle then Shuffle.FisherYates(ps, picks) else ps;
            && |order| == |ps|
            && multiset(Names(order)) == multiset(Names(ps))
            && (forall i :: 0 <= i < |order| ==> order[i] in ps)
  {
    if shuffle {
      var order := Shuffle.FisherYates(ps, picks);
      var name := (p: Participant) => p.name;
      Shuffle.FisherYatesMap(name, ps, picks);
      assert Shuffle.Map(name, order) == Names(order);
      assert Shuffle.Map(name, ps) == Names(ps);
      forall i | 0 <= i < |order|
        ensures order[i] in ps
      {
        assert order[i] in multiset(order);
      }
    }
  }
}
