# Word relay: a Dafny model of the turn and elimination state machine

`js/word-relay.js` runs a word-chain game in the browser. Players take turns
typing a word. Each word must start with the last character of the previous
one and must not have been used before in the round. A player who breaks
either rule is out; the last player left wins. This project models that
script's game record and every transition on it as pure functions over an
immutable `Game` datatype, and proves what the script relies on and promises.

- **Text** (`text.dfy`): strings are sequences of UTF-16 code units
  (`CodeUnit`), because `length`, `s[0]` and `s.at(-1)` count and index
  code units. `Trim` is `String.prototype.trim`, with the white-space and
  line-terminator units of ECMA-262 written out.
- **Roster** (`roster.dfy`): participants, the active count, knocking one
  player out, and enrolling and renumbering seats.
- **Turn** (`turn.dfy`): the `do … while` search of `nextTurn`, specified
  as "the first seat still in, going round the table".
- **History** (`history.dfy`): the recent-word log, bounded at five.
- **Shuffle** (`shuffle.dfy`): the Fisher–Yates loop. The random draws are
  a list of picks with `picks[i] <= i`.
- **Relay** (`relay.dfy`): the game record and the transitions. These are
  `NextTurn`, `StartNewRound`, `Eliminate`, the word button (`Judge`,
  `Accept`, `Submit`) and setup (`InitGame`). The players' yes/no answers
  are arguments: `Followup` for "new round?" and a `bool` for "shuffle?".
- **Invariants** (`invariants.dfy`): the invariant `Valid`, proved to hold
  after setup and after every click. From it follow the bounded log, the
  turn sitting with an active player, and a single winner.
- **Scenarios** (`scenarios.dfy`): concrete games on Korean words.

## Model

| member | source | states |
|---|---|---|
| Text.Trim | js/word-relay.js:63 | The trimmed word is the infix of the input left after cutting a prefix and a suffix of white space, and it neither starts nor ends with white space |
| Text.TrimFixesExactlyTrimmed | js/word-relay.js:63 | Trimming leaves text unchanged exactly when the text neither starts nor ends with white space |
| Text.TrimIdempotent | js/word-relay.js:127-132 | Trimming a stored name again changes nothing |
| Text.BlankIffAllTrimmable | js/word-relay.js:127 | Text is blank (`!x.trim()`) exactly when every unit of it is white space |
| Roster.CountPositiveIff | js/word-relay.js:5 | The active count is positive exactly when some participant is active |
| Roster.CountDeactivate | js/word-relay.js:38-40 | Knocking out an active player lowers the number of active participants by exactly one |
| Roster.SoleActive | js/word-relay.js:44-45 | With one player left, any two active seats are the same seat |
| Roster.Enroll | js/word-relay.js:124-133 | One record per name entered, in order, with ids 1..n, the trimmed name, and everybody in |
| Roster.Renumber | js/word-relay.js:145-147 | After renumbering, ids are 1..n in seat order and names and flags stay in place |
| Turn.NextIndex | js/word-relay.js:17-22 | Whenever someone is in, the search stops; the new seat is in, and no seat strictly between the old and new seats, going round the table, is in |
| Turn.NextIndexMoves | js/word-relay.js:17-22 | With at least two players in, the turn moves to a different seat |
| Turn.NextIndexUnique | js/word-relay.js:17-22 | The first-active-seat-after property determines the new seat uniquely |
| Turn.WalkWithinLap | js/word-relay.js:19 | Within one lap, `k` steps of `(i + 1) % n` from `from` land on `from + k`, wrapped once |
| History.Record | js/word-relay.js:97-98 | A chained word goes at the end of the log, the log grows only while it holds fewer than five, and a log of at most five becomes the latest five of old log plus word |
| History.RecordAllKeepsLatest | js/word-relay.js:97-98 | However many words are accepted, the log holds exactly the latest five of them, oldest first |
| Shuffle.Swap | js/word-relay.js:140 | The exchange puts each element in the other's place and touches nothing else |
| Shuffle.ShuffleDownPermutes | js/word-relay.js:138-141 | The shuffle loop, for any draws with `j <= i`, loses and duplicates nothing |
| Shuffle.FisherYates | js/word-relay.js:136-142 | The shuffled roster is a permutation of the entered one, and the last seat holds the element of the first draw |
| Shuffle.FisherYatesMap | js/word-relay.js:138-141 | The shuffle treats elements blindly: shuffling then taking names is taking names then shuffling |
| Shuffle.ShuffleDownIdentity | js/word-relay.js:138-141 | Draws that always pick the loop's own index leave the order unchanged |
| Relay.NextTurn | js/word-relay.js:14-24 | Nothing happens once the game is over; otherwise only the turn index changes, to the next active seat |
| Relay.StartNewRound | js/word-relay.js:27-34 | The current word, used words and log are emptied; participants, flags and count are untouched; the turn passes to the next active seat |
| Relay.Eliminate | js/word-relay.js:37-54 | Only the current player is knocked out, and the count drops by one, staying equal to the number of active players. The game ends exactly when at most one is left. Otherwise the turn passes on, and "continue" keeps the round while "new round" clears it |
| Relay.Accept | js/word-relay.js:87-101 | The word becomes the current word and a used word. The first word of a round is pushed onto the log without a bound; a chained one goes through the bounded push. The roster is unchanged and the turn passes on |
| Relay.Judge | js/word-relay.js:66-105 | The checks, in order: empty and short words are refused, a used word is a violation whatever the chain rule says, and a fresh word is accepted exactly when it chains |
| Relay.Submit | js/word-relay.js:57-109 | A finished game reads no word. A refused word changes nothing. An accepted word is taken into the round, and a violation knocks the current player out |
| Relay.Seating | js/word-relay.js:124-147 | The seats hold exactly the trimmed names entered (as a multiset; in entry order without shuffling), numbered 1..n, everybody in |
| Relay.InitGame | js/word-relay.js:114-160 | Fewer than two players, and any blank name, are refused. Otherwise play opens at seat 0 with everybody in and an empty round |
| Relay.NamesSurviveOrder | js/word-relay.js:136-142 | Settling the order loses no name and adds none |
| Invariants.NextTurnMoves | js/word-relay.js:14-24 | With two or more players in, passing the turn hands it to somebody else |
| Invariants.EliminatePreservesValid | js/word-relay.js:37-54 | An elimination keeps the game invariant, whatever the players answer |
| Invariants.EliminationLeavesOneWinner | js/word-relay.js:44-46 | An elimination ends the game exactly when two were in, and then exactly one player is left |
| Invariants.GameOverHasOneWinner | js/word-relay.js:44-46 | In a finished game exactly one seat is still in |
| Invariants.FirstWordStartsLog | js/word-relay.js:87-92 | The first word's unbounded push gives the same log as the bounded push, because the log is empty then |
| Invariants.AcceptPreservesValid | js/word-relay.js:87-101 | Accepting a fresh word of at least two units keeps the game invariant |
| Invariants.SubmitPreservesValid | js/word-relay.js:57-109 | Whatever is typed and whatever the players answer, a click keeps the game invariant |
| Invariants.InitGameValid | js/word-relay.js:112-160 | A successful setup produces a game satisfying the invariant |
| Invariants.SeatedAsEntered | js/word-relay.js:124-147 | Without shuffling, names that need no trimming are seated as entered, numbered from 1 |
| Invariants.SetupInOrder | js/word-relay.js:112-160 | Without shuffling, two or more proper names open a game with players in entry order, seat 0 to play, everybody in, and an empty round |
| Invariants.Play | js/word-relay.js:57-109 | Any sequence of clicks from a valid game yields a valid game |
| Invariants.ReachableGamesAreValid | js/word-relay.js:2-11 | In every game reachable from setup, the log holds at most five words, the count matches the roster, the game is over exactly when one player is in, and until then the turn is with an active player |
| Scenarios.ChainKept | js/word-relay.js:95-101 | After 사과, the word 과자 is accepted |
| Scenarios.ChainBroken | js/word-relay.js:95-105 | After 사과, the word 자두 knocks the player out for breaking the chain |
| Scenarios.SetupThree | js/word-relay.js:112-160 | Setting up A, B, C without shuffling gives seats 1..3 in that order, seat 0 to play, and an empty round |
| Scenarios.SetupRefusesOne | js/word-relay.js:117-121 | Setup with a single player is refused |
| Scenarios.SetupRefusesBlank | js/word-relay.js:127-131 | A name made of an ASCII space and an ideographic space is refused as blank |
| Scenarios.FirstWord | js/word-relay.js:87-92 | In a fresh three-player game, 사과 is accepted, logged, and the turn goes to seat 1 |
| Scenarios.SecondWord | js/word-relay.js:95-101 | 과일 then chains on 사과, is logged after it, and the turn goes to seat 2 |
| Scenarios.RepeatedWord | js/word-relay.js:81-84 | Seat 2 repeating 사과 is out for the duplicate. The game goes on with two players, the turn wraps to seat 0, and the round is kept |
| Scenarios.SixWordsInLog | js/word-relay.js:97-98 | After six accepted words in a round, the log holds the last five, oldest first |

## Left out

- `js/ui.js` and every `updateUI`/`resetUI` call: DOM rendering over the state, with no rules of its own.
- `alert`, `prompt` and `confirm` calls. The two yes/no questions become arguments: `Followup` for "new round?" and `shuffle` for the seating order. The alert texts are not modelled.
- `Math.random`: replaced by the list of draws `picks`, each at most its loop index.
- The count prompt, `parseInt` and `isNaN`. The count is the number of names given, so a count that is not a number is not modelled. A cancelled name prompt (`null`) is modelled as empty text, which the same blank check refuses.
- `location.reload`, and clearing and focusing the text field: page and field handling. A refused setup is an `Err` value.
- The event listeners for click and Enter: both call the same handler, modelled once as `Submit`.
- The restart on a click after the game ends (`initGame` again): `Submit` returns outcome `Restart` and the game unchanged. The new setup is `InitGame`, called separately.
- `participantCount` is not a separate field. Setup sets it to the roster length, and nothing else writes it, so the model uses `|participants|`.
- Relay.NextTurn: requires someone to be in. With nobody active, the script's `do … while` never stops, and the invariant rules that state out.
- Relay.Eliminate, Relay.Accept, Relay.Submit: require `Coherent` (the turn index is a seat, the count matches the roster, someone is in), which every reachable game satisfies. Unreachable states with a stale count are not modelled.
- History.Record: states the latest-five property only for logs of at most five words, the only logs the game can hold.
- Characters outside the Basic Multilingual Plane are two code units here, as in the script. The length check and the chain rule compare code units, so such a character is split. The model keeps the script's behaviour and does not correct it.
