/**
 * Worked examples: the chain rule on Korean words, a three-player game
 * played through to an elimination, setup refusals, and the log after six
 * accepted words. Hangul syllables are single UTF-16 code units.
 */
module Scenarios {
  import opened Text
  import opened Roster
  import opened Turn
  import History
  import opened Relay
  import Invariants

  const A: JsString := [0x41]
  const B: JsString := [0x42]
  const C: JsString := [0x43]

  /** 사과 */
  const Sagwa: JsString := [0xC0AC, 0xACFC]
  /** 과자 */
  const Gwaja: JsString := [0xACFC, 0xC790]
  /** 자두 */
  const Jadu: JsString := [0xC790, 0xB450]
  /** 과일 */
  const Gwail: JsString := [0xACFC, 0xC77C]

  /** Text that neither starts nor ends with white space is left alone by trimming. */
  lemma KeptByTrim(w: JsString)
    requires IsTrimmed(w)
    ensures Trim(w) == w
  {
  }

  /** After 사과, the word 과자 keeps the chain. */
  lemma ChainKept(g: Game, f: Followup)
    requires Coherent(g) && !g.isOver && g.currentWord == Sagwa && Gwaja !in g.usedWords
    ensures Submit(g, Gwaja, f).outcome == Accepted
  {
    KeptByTrim(Gwaja);
  }

  /** After 사과, the word 자두 breaks the chain and costs the player the game. */
  lemma ChainBroken(g: Game, f: Followup)
    requires Coherent(g) && !g.isOver && g.currentWord == Sagwa && Jadu !in g.usedWords
    ensures Submit(g, Jadu, f).outcome == Eliminated(BrokenChain)
  {
    KeptByTrim(Jadu);
  }

  /** Three players A, B and C in seats 1..3, everybody in. */
  function ThreeSeats(): seq<Participant> {
    [Participant(1, A, true), Participant(2, B, true), Participant(3, C, true)]
  }

  /**
   * The three-player game at its start (what setting up A, B and C without
   * shuffling gives), after 사과, after 과일, and after C repeats 사과.
   */
  function Opening(): Game { Game(ThreeSeats(), 3, 0, [], {}, [], false) }
  function AfterSagwa(): Game { Game(ThreeSeats(), 3, 1, Sagwa, {Sagwa}, [Sagwa], false) }
  function AfterGwail(): Game { Game(ThreeSeats(), 3, 2, Gwail, {Sagwa, Gwail}, [Sagwa, Gwail], false) }
  function AfterRepeat(): Game {
    Game(ThreeSeats()[2 := Participant(3, C, false)], 2, 0, Gwail, {Sagwa, Gwail}, [Sagwa, Gwail], false)
  }

  /** Setting up A, B and C without shuffling seats them in the order given and opens an empty round. */
  lemma SetupThree()
    ensures InitGame([A, B, C], false, []) == Ok(Opening())
  {
    Invariants.SetupInOrder([A, B, C]);
    assert seq(3, i requires 0 <= i < 3 => Participant(i + 1, [A, B, C][i], true)) == ThreeSeats();
  }

  /** Setup refuses a single player. */
  lemma SetupRefusesOne()
    ensures InitGame([A], false, []) == Err(TooFewPlayers)
  {
  }

  /** Setup refuses a name made only of an ASCII and an ideographic space. */
  lemma SetupRefusesBlank()
    ensures InitGame([A, [0x20, 0x3000]], false, []) == Err(BlankName)
  {
    var raw: seq<JsString> := [A, [0x20, 0x3000]];
    BlankIffAllTrimmable(raw[1]);
    assert IsBlank(raw[1]);
  }

  /** With all three in, the turn goes 0 to 1 to 2. */
  lemma ThreeSeatsTurnOrder()
    ensures HasActive(ThreeSeats())
    ensures NextIndex(ThreeSeats(), 0) == 1 && NextIndex(ThreeSeats(), 1) == 2
  {
    NextIndexUnique(ThreeSeats(), 0, 1);
    NextIndexUnique(ThreeSeats(), 1, 2);
  }

  /** With C out, the turn passes from C's seat back round to A. */
  lemma AfterRepeatTurn()
    ensures HasActive(AfterRepeat().participants)
    ensures NextIndex(AfterRepeat().participants, 2) == 0
  {
    NextIndexUnique(AfterRepeat().participants, 2, 0);
  }

  /** A opens with 사과: any first word chains, and the turn goes to B. */
  lemma FirstWord()
    ensures Submit(Opening(), Sagwa, Continue) == Step(AfterSagwa(), Accepted)
  {
    KeptByTrim(Sagwa);
    ThreeSeatsTurnOrder();
    AcceptFirst();
  }

  /** The state update behind `FirstWord`. */
  lemma AcceptFirst()
    requires HasActive(ThreeSeats()) && NextIndex(ThreeSeats(), 0) == 1
    ensures Accept(Opening(), Sagwa) == AfterSagwa()
  {
  }

  /** B answers 과일, which starts with the last syllable of 사과; the turn goes to C. */
  lemma SecondWord()
    ensures Submit(AfterSagwa(), Gwail, Continue) == Step(AfterGwail(), Accepted)
  {
    KeptByTrim(Gwail);
    ThreeSeatsTurnOrder();
    AcceptSecond();
  }

  /** The state update behind `SecondWord`. */
  lemma AcceptSecond()
    requires HasActive(ThreeSeats()) && NextIndex(ThreeSeats(), 1) == 2
    ensures Accept(AfterSagwa(), Gwail) == AfterGwail()
  {
  }

  /**
   * C repeats 사과, which also breaks the chain after 과일, and is out for the
   * duplicate, the rule applied first; carrying on hands the turn to A,
   * wrapping around, with the round as it was.
   */
  lemma RepeatedWord()
    ensures Submit(AfterGwail(), Sagwa, Continue) == Step(AfterRepeat(), Eliminated(DuplicateWord))
  {
    KeptByTrim(Sagwa);
    AfterRepeatTurn();
    EliminateThird();
  }

  /** The state update behind `RepeatedWord`. */
  lemma EliminateThird()
    requires HasActive(AfterRepeat().participants) && NextIndex(AfterRepeat().participants, 2) == 0
    ensures Eliminate(AfterGwail(), Continue) == AfterRepeat()
  {
  }

  /** Six accepted words in one round leave the last five in the log, oldest first. */
  lemma SixWordsInLog(w1: JsString, w2: JsString, w3: JsString, w4: JsString, w5: JsString, w6: JsString)
    ensures History.RecordAll([], [w1, w2, w3, w4, w5, w6]) == [w2, w3, w4, w5, w6]
  {
    History.RecordAllKeepsLatest([], [w1, w2, w3, w4, w5, w6]);
  }
}
