# Memory game session, modelled in Dafny

This project models the game logic of a browser memory-matching card game. The
logic lives in the `GameBoard` component. A deck of sixteen cards (face values 1
to 8, each twice) is shuffled and numbered. The player turns cards over two at a
time. A pair of equal values stays matched. A pair of different values is turned
back down one second later. Moves and seconds are counted. When the matched list
is as long as the deck, the game stops, the result goes onto the leaderboard and
the best score is lowered if the result beats it. As written, the win check then
runs again after every leaderboard update and adds the same result once more each
time, until the next restart (the third finding below).

Modules:

- `Cards` (`cards.dfy`): `shuffleCards`. The random comparator is replaced by a
  bijection on positions chosen by the caller.
- `Leaderboard` (`leaderboard.dfy`): `updateLeaderboard`. It appends the new
  entry and sorts by moves, stably, as `Array.prototype.sort` does.
- `GameSession` (`session.dfy`): the component state as a value, with one pure
  transition per event. The events are a card click, the deferred reset after a
  mismatch, a timer tick, the win check, the first deal and a restart. It also
  holds the session invariant `Consistent`, its preservation lemmas, lemmas over
  whole runs of events, and the three findings below with their corrections.
- `Board` (`board.dfy`): class `GameBoard`. Its fields are the component's state
  variables. Its methods apply the state setters one after another. Each method
  proves that `Consistent` still holds. Each method except `UpdateLeaderboard`
  proves that the new state equals the matching `GameSession` transition applied
  to the old state. `UpdateLeaderboard` is the step inside the win check that
  sets the leaderboard to `Leaderboard.UpdateLeaderboard` of the old one and
  changes nothing else.
- `Counting` (`counting.dfy`): a pigeonhole helper. It shows that n distinct ids
  below n cover every id below n.

Timers become explicit steps: `Tick` stands for the interval and
`ResolveMismatch` for the one-second timeout. Browser storage becomes
parameters: the constructor takes the stored best score and the stored
leaderboard. `Math.random` becomes the permutation parameter `perm`. The date
string becomes the `date` parameter. `Number.MAX_VALUE` as the initial best
score becomes the explicit value `BestScore.Unset`.

Two preconditions come from the caller. `HandleCardClick` requires the clicked
card to be a card of the deck, because the view only renders the deck's cards.
`DealFirst` requires the board to have no cards yet, because it models the mount
effect.

In three places the model follows the code where a reader might expect otherwise:

- The leaderboard is not truncated. Only its display is cut to five entries.
- The click guard does not reject the card that is already face up.
- The deferred reset carries no session token. It empties the face-up cards
  whenever it fires, even after a restart.

## Model

| member | source | states |
|---|---|---|
| `Cards.Shuffle` | src/components/GameBoard.js:8-10 | the deck has 2n cards, each card's id is its position (so the ids are 0..2n-1 without repeats), and the multiset of face values is two copies of the input values |
| `Cards.PermuteKeepsMultiset` | src/components/GameBoard.js:9 | reordering by any bijection on positions, which is what `sort` does whatever its comparator answers, keeps every element and its number of occurrences |
| `Cards.EachValueTwice` | src/components/GameBoard.js:8-17 | dealt from distinct values, each value lies on exactly two cards and every card shows one of the values |
| `Cards.GameDeckPairs` | src/components/GameBoard.js:9-17 | the game's deck shows each face value 1..8 on exactly two cards and no other value |
| `Cards.ShuffleIds` | src/components/GameBoard.js:9 | the set of ids of a dealt deck is exactly {0, ..., 2n-1} and no two cards share an id |
| `Leaderboard.InsertPermutes` | src/components/GameBoard.js:36 | one stable insertion step yields the old entries plus exactly the new one (as a multiset) |
| `Leaderboard.InsertKeepsSorted` | src/components/GameBoard.js:36 | an insertion step keeps a list sorted by moves |
| `Leaderboard.SortPermutes` | src/components/GameBoard.js:36 | the sort by `a.moves - b.moves` returns a permutation of its input |
| `Leaderboard.SortIsSorted` | src/components/GameBoard.js:36 | the sort returns a list sorted non-decreasingly by moves |
| `Leaderboard.UpdateLeaderboard` | src/components/GameBoard.js:34-39 | the new leaderboard is one entry longer, is a permutation of the old list plus the new entry (nothing truncated), and is sorted by moves |
| `Leaderboard.InsertKeepsTies` | src/components/GameBoard.js:36 | inserting into a sorted list places the new entry after every entry that ties with it on moves |
| `Leaderboard.SortIsStable` | src/components/GameBoard.js:36 | for every move count, the entries with that count keep their relative order through the sort |
| `Leaderboard.UpdateLeaderboardStable` | src/components/GameBoard.js:36 | after an update, the entries with any given move count are the old ones in their old order, followed by the new entry when it has that count |
| `Leaderboard.SortSorted` | src/components/GameBoard.js:36 | sorting a list that is already sorted by moves leaves it unchanged |
| `Leaderboard.UpdateSortedBoard` | src/components/GameBoard.js:34-39 | on a leaderboard that is already sorted, the update is one stable insertion of the new entry |
| `GameSession.Initial` | src/components/GameBoard.js:20-28 | on mount the board has no cards, nothing face up or matched, zero moves and seconds, the timer is on, and the best score and leaderboard are the stored ones |
| `GameSession.Deal` | src/components/GameBoard.js:41-43 | the mount effect deals a 16-card positional deck with every value of 1..8 twice and changes nothing else |
| `GameSession.Restart` | src/components/GameBoard.js:71-78 | restart leaves nothing face up or matched, moves and time at 0, the timer on, a fresh valid 16-card deck, and the best score and leaderboard unchanged |
| `GameSession.Click` | src/components/GameBoard.js:52-69 | a click never changes the deck, time, timer flag, best score or leaderboard; it adds at most one move, and the matched list only grows (the old list is a prefix of the new) |
| `GameSession.ResolveMismatch` | src/components/GameBoard.js:66 | the deferred reset empties the face-up cards and touches nothing else |
| `GameSession.Tick` | src/components/GameBoard.js:45-50 | a tick adds one second exactly when the game is active and changes nothing else |
| `GameSession.CheckWin` | src/components/GameBoard.js:80-90 | the win fires exactly when the matched list is as long as the deck; it then stops the timer and adds exactly one entry (moves, time, date) to the still-sorted leaderboard; otherwise nothing changes; the best score never gets worse, and it changes exactly when the game fired and strictly improved it, to the game's moves |
| `GameSession.ClickIgnored` | src/components/GameBoard.js:53 | with two cards face up or the clicked card already matched, a click changes nothing, however often it is repeated |
| `GameSession.ClickFirstFlip` | src/components/GameBoard.js:56 | the first flip of a pair only puts the card face up; moves are unchanged |
| `GameSession.ClickSecondFlip` | src/components/GameBoard.js:58-67 | the second flip adds exactly one move; equal values append both ids to the matched list and empty the face-up cards; different values leave the matched list alone and keep both cards face up until the deferred reset empties them |
| `GameSession.OneMovePerPair` | src/components/GameBoard.js:56-59 | from nothing face up, an accepted pair of clicks costs exactly one move, and its first click costs none |
| `GameSession.InitialConsistent` | src/components/GameBoard.js:20-25 | the mounted board satisfies the session invariant |
| `GameSession.DealConsistent` | src/components/GameBoard.js:41-43 | a board with no cards has nothing face up or matched, and dealing onto it keeps the invariant |
| `GameSession.RestartConsistent` | src/components/GameBoard.js:71-78 | a restarted session satisfies the invariant, and the win check, whatever its date, does not fire on it |
| `GameSession.ClickConsistent` | src/components/GameBoard.js:52-69 | clicking a card of the deck keeps the invariant: at most two cards face up and none of them matched, two face-up cards differ in value, matched ids are deck positions in pairs of equal value, and the matched list is at most twice the moves |
| `GameSession.ResolveMismatchConsistent` | src/components/GameBoard.js:66 | the deferred reset keeps the invariant |
| `GameSession.TickConsistent` | src/components/GameBoard.js:45-50 | a tick keeps the invariant |
| `GameSession.CheckWinConsistent` | src/components/GameBoard.js:80-90 | the win check keeps the invariant |
| `GameSession.RunConsistent` | src/components/GameBoard.js:45-90 | every run of clicks on the deck, resets, ticks and win checks keeps the invariant |
| `GameSession.RunKeepsMatched` | src/components/GameBoard.js:52-69 | within a session the matched list only grows (the old list is a prefix of the new) and moves never decrease |
| `GameSession.TicksWhileActive` | src/components/GameBoard.js:45-50 | while the game is active, n ticks add exactly n seconds |
| `GameSession.TicksAfterWin` | src/components/GameBoard.js:45-50 | once the win has fired, any number of ticks leaves the state unchanged, so the time stops |
| `GameSession.TicksFrozen` | src/components/GameBoard.js:46 | ticks of an inactive board change nothing |
| `GameSession.BestNeverIncreases` | src/components/GameBoard.js:85-88 | over any run of events, the best score is never worse than at the start |
| `GameSession.SelfClicksMatch` | src/components/GameBoard.js:53-63 | as written, on a dealt deck with nothing face up or matched, clicking each of the first k cards twice matches each card with itself: the matched list becomes [0, 0, 1, 1, ..., k-1, k-1], at one move per card |
| `GameSession.SelfClicksWin` | src/components/GameBoard.js:53-63 | as written, on a deck of 2k cards, double clicks on the first k cards make the matched list as long as the deck, none of the last k ids is matched, and the win check fires and records a game |
| `GameSession.SelfClickWinsEarly` | src/components/GameBoard.js:41-78 | as written, on every deck the game deals (after a restart from any state, and on the first deal after the mount's win check), clicking each of cards 0..7 twice fires the win and records a game although cards 8..15 were never turned over; on the first deal the leaderboard then holds two new entries |
| `GameSession.ClickDistinct` | src/components/GameBoard.js:53 | the corrected guard also ignores a click on a card that is already face up, and otherwise behaves as the written click |
| `GameSession.ClickDistinctConsistent` | src/components/GameBoard.js:53-63 | with the corrected guard, clicks on the deck keep the invariant and the matched list never holds an id twice |
| `GameSession.DistinctWinMatchesAll` | src/components/GameBoard.js:81 | under the corrected invariant, a matched list as long as the deck contains every card id |
| `GameSession.EmptyBoardWins` | src/components/GameBoard.js:80-90 | as written, the win check on the freshly mounted board (no cards), whatever the stored best score including 0, stops the timer, records a 0-move game and sets the best score to 0; no later game can beat that score, and after the first deal the timer stays at 0 |
| `GameSession.CheckWinNonEmpty` | src/components/GameBoard.js:81 | the corrected win check leaves a board with no cards unchanged and otherwise is the written check |
| `GameSession.CorrectedWin` | src/components/GameBoard.js:81 | with the corrected guard and win check, the mounted board is not won, and a win fires only on a dealt deck whose every card is matched |
| `GameSession.WinRefires` | src/components/GameBoard.js:80-90 | as written, runs of the win effect on a won board, one per date, leave the board won and stopped with the same moves and time, and add exactly one entry of that game per run, each with its run's date |
| `GameSession.CheckWinOnce` | src/components/GameBoard.js:80-90 | the corrected win check leaves a stopped game unchanged and otherwise is the check that ignores an empty board |
| `GameSession.CheckWinOnceIdempotent` | src/components/GameBoard.js:80-90 | a second run of the corrected check, with any date, changes nothing |
| `GameSession.WinRecordedOnce` | src/components/GameBoard.js:80-90 | however often the corrected effect runs, whatever the dates, the leaderboard grows by at most one entry, and by exactly one on a running, dealt, won board |
| `GameSession.CheckWinsOnceFixed` | src/components/GameBoard.js:80-90 | once the corrected check leaves a state unchanged for every date, any number of further runs leave it unchanged |
| `GameSession.RunCorrectedConsistent` | src/components/GameBoard.js:45-90 | every run of the corrected game (corrected guard and win check) on the dealt cards keeps the invariant with distinct matched ids |
| `GameSession.CorrectedRunWin` | src/components/GameBoard.js:53-90 | in every state the corrected game reaches after a restart, the win fires only when every card of the deck is matched |
| `Board.GameBoard.constructor` | src/components/GameBoard.js:20-28 | the new object is the mounted state with the stored best score and leaderboard, and it satisfies the invariant |
| `Board.GameBoard.DealFirst` | src/components/GameBoard.js:41-43 | the new state is `GameSession.Deal` of the old one; the invariant holds |
| `Board.GameBoard.HandleCardClick` | src/components/GameBoard.js:52-69 | the new state is `GameSession.Click` of the old one; the invariant holds |
| `Board.GameBoard.ResolveMismatch` | src/components/GameBoard.js:66 | the new state is `GameSession.ResolveMismatch` of the old one; the invariant holds |
| `Board.GameBoard.Tick` | src/components/GameBoard.js:45-50 | the new state is `GameSession.Tick` of the old one; the invariant holds |
| `Board.GameBoard.UpdateLeaderboard` | src/components/GameBoard.js:34-39 | the leaderboard becomes `Leaderboard.UpdateLeaderboard` of the old one with the new entry; nothing else changes |
| `Board.GameBoard.CheckWin` | src/components/GameBoard.js:80-90 | the new state is `GameSession.CheckWin` of the old one; the invariant holds |
| `Board.GameBoard.RestartGame` | src/components/GameBoard.js:71-78 | the new state is `GameSession.Restart` of the old one; the invariant holds |

## Left out

- Rendering is not modelled: the stats panel, the card grid, the modal and its
  open/close flag, and the "New Best Score" line. All of them are presentational.
- The leaderboard display cut to five entries is not modelled. The stored list
  is not truncated, and the model keeps it whole.
- `Card.js` and `App.js` are not modelled. They are view components without logic.
- Audio playback (the flip and match sounds) is not modelled. It is a foreign
  side effect with no influence on the state.
- `localStorage` reads and writes are not modelled. The constructor takes the
  stored best score and leaderboard as parameters.
- `JSON.parse` of stored data is not modelled. The model assumes the stored
  leaderboard is missing or a JSON array of entries. Stored text that is not
  valid JSON makes `JSON.parse` throw at mount (line 28). Any other truthy value
  that is not an array (an object, a number, a non-empty string, `true`) passes
  the `|| []` fallback and makes the first render throw at line 119, where
  `slice(0, 5).map` needs an array.
- The string type of a stored `bestScore` is not modelled. The model treats it
  as a number.
- `setInterval` and `setTimeout` are not modelled. They become the explicit
  steps `Tick` and `ResolveMismatch`. Nothing models the real delays or when the
  callbacks fire.
- `Math.random` and the comparator it feeds are not modelled. The caller chooses
  the resulting permutation. Uniformity of the shuffle is not modelled.
- `new Date().toLocaleString()` is not modelled. The date is an opaque string
  parameter.
- React batching, effect ordering and stale closures are not modelled. Each
  handler and effect is one atomic transition, and the caller decides when the
  win check runs. On a won board the code's win effect does not stop by itself:
  each run replaces the leaderboard, which renews the `updateLeaderboard`
  callback in the effect's dependency list, so the effect runs again and appends
  the same game again, with no bound, until `restartGame` empties the matched
  list. The model states this as the third finding (`GameSession.WinRefires`)
  rather than fixing a number of runs; each call of `CheckWin` on a won board
  records one more entry.
- JavaScript number limits are not modelled. `moves` and `time` are unbounded
  naturals, and the game never reaches 2^53.

## Findings

| source | as written | input that shows it | evidently intended | confidence | as-written member | corrected member |
|---|---|---|---|---|---|---|
| src/components/GameBoard.js:53-63 | The guard does not reject the card that is already face up. Clicking it again compares the card with itself. This counts as a match and appends its id twice, so the matched list can reach the deck's length while cards are still face down. | Any first deal. Click each of cards 0..7 twice in a row. The matched list is [0, 0, 1, 1, ..., 7, 7], as long as the deck, and the win fires with cards 8..15 never turned over. | A second click on the face-up card is ignored, so the win fires only when every card is matched. | high, not executed | `GameSession.SelfClickWinsEarly` | `GameSession.ClickDistinct` (proved in `GameSession.ClickDistinctConsistent`, `GameSession.DistinctWinMatchesAll`, `GameSession.CorrectedRunWin`) |
| src/components/GameBoard.js:80-90 | The win test `matchedCards.length === cards.length` also holds on the board before its first deal, when both lists are empty. At mount the effect sees that board. It records a 0-move game, sets and stores a best score of 0, and switches the timer off. The stored `"0"` is read back as a truthy string on the next load, so the same happens on every load: each one adds another 0-move entry and starts with the timer off. | Any page load: the effects run with `cards = []` and `matchedCards = []`. | A board with no cards is not a won game. | medium (depends on React running the win effect with the pre-deal state), not executed | `GameSession.EmptyBoardWins` | `GameSession.CheckWinNonEmpty` (proved in `GameSession.CorrectedWin`) |
| src/components/GameBoard.js:80-90 | `updateLeaderboard` (lines 34-39) is in the win effect's dependency list (line 90) and gets a new identity each time the leaderboard changes. On a won board each run of the effect changes the leaderboard, so the effect runs again, and line 84 appends the same game again. This repeats without bound until a restart. | Win any game. After the first entry is recorded, the effect runs again with the matched list still as long as the deck and appends a second copy, then a third, and so on. | A game is recorded once: the check does nothing once the game has stopped. | high, not executed | `GameSession.WinRefires` | `GameSession.CheckWinOnce` (proved in `GameSession.WinRecordedOnce`, `GameSession.CorrectedRunWin`) |

Following the code as written, the `GameBoard` class and the `GameSession`
transitions it is proved against reproduce all three behaviours. The corrected
definitions sit beside them in `GameSession`, and their intended properties are
proved there.
