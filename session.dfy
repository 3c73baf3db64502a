/**
 * The game session of the GameBoard component as values: the state the
 * component keeps, and one function per event that changes it (a card click,
 * the deferred reset after a mismatch, a timer tick, the win check, a restart).
 * Each function is one atomic transition of the component's state.
 */
module GameSession {
  import opened Counting
  import opened Cards
  import opened Leaderboard

  /** bestScore: `Unset` stands for the initial `Number.MAX_VALUE`. */
  datatype BestScore = Unset | Score(moves: int)

  /** A game finished in `moves` moves beats `best` only with strictly fewer moves. */
  predicate Improves(moves: int, best: BestScore)
  {
    best.Unset? || moves < best.moves
  }

  /** `now` is at least as good a best score as `before`: fewer or equal moves, or `before` was unset. */
  predicate NoWorse(now: BestScore, before: BestScore)
  {
    before.Unset? || (now.Score? && now.moves <= before.moves)
  }

  /** The component state: deck, face-up cards, ids of matched cards, counters, timer flag, best score, leaderboard. */
  datatype Session = Session(
    cards: seq<Card>,
    flipped: seq<Card>,
    matched: seq<int>,
    moves: nat,
    time: nat,
    active: bool,
    best: BestScore,
    leaderboard: seq<Entry>)

  /** The state of a freshly mounted board, before its first deal, with the stored best score and leaderboard. */
  function Initial(best: BestScore, leaderboard: seq<Entry>): (s: Session)
    ensures s.cards == [] && s.flipped == [] && s.matched == []
    ensures s.moves == 0 && s.time == 0 && s.active
    ensures s.best == best && s.leaderboard == leaderboard
  {
    Session([], [], [], 0, 0, true, best, leaderboard)
  }

  /** The mount effect: deal the first deck and change nothing else. */
  function Deal(s: Session, perm: seq<int>): (t: Session)
    requires IsPermutation(perm, 2 * |CardValues|)
    ensures t == s.(cards := t.cards)
    ensures |t.cards| == 16 && Positional(t.cards)
    ensures multiset(Faces(t.cards)) == multiset(CardValues + CardValues)
  {
    s.(cards := Shuffle(CardValues, perm))
  }

  /** restartGame: a fresh deck, nothing face up or matched, counters zero, timer running. */
  function Restart(s: Session, perm: seq<int>): (t: Session)
    requires IsPermutation(perm, 2 * |CardValues|)
    ensures t.flipped == [] && t.matched == [] && t.moves == 0 && t.time == 0 && t.active
    ensures |t.cards| == 16 && Positional(t.cards)
    ensures multiset(Faces(t.cards)) == multiset(CardValues + CardValues)
    ensures t.best == s.best && t.leaderboard == s.leaderboard
  {
    s.(cards := Shuffle(CardValues, perm), flipped := [], matched := [], moves := 0, time := 0, active := true)
  }

  /** The click guard: two cards already face up, or the clicked card already matched. */
  predicate Ignored(s: Session, card: Card)
  {
    |s.flipped| == 2 || card.id in s.matched
  }

  /** handleCardClick, with the match or mismatch decided on the second flip of a pair. */
  function Click(s: Session, card: Card): (t: Session)
    ensures t.cards == s.cards && t.time == s.time && t.active == s.active
    ensures t.best == s.best && t.leaderboard == s.leaderboard
    ensures t.moves == s.moves || t.moves == s.moves + 1
    ensures s.matched <= t.matched
  {
    if Ignored(s, card) then s
    else if |s.flipped| == 1 then
      if s.flipped[0].value == card.value then
        s.(flipped := [], moves := s.moves + 1, matched := s.matched + [s.flipped[0].id, card.id])
      else
        s.(flipped := s.flipped + [card], moves := s.moves + 1)
    else
      s.(flipped := s.flipped + [card])
  }

  /** The deferred reset after a mismatch: turn every face-up card down again. */
  function ResolveMismatch(s: Session): (t: Session)
    ensures t.flipped == [] && t == s.(flipped := [])
  {
    s.(flipped := [])
  }

  /** One second of the interval timer, which runs only while the game is active. */
  function Tick(s: Session): (t: Session)
    ensures t.time == if s.active then s.time + 1 else s.time
    ensures t == s.(time := t.time)
  {
    if s.active then s.(time := s.time + 1) else s
  }

  /** n seconds of the timer. */
  function Ticks(s: Session, n: nat): Session
    decreases n
  {
    if n == 0 then s else Ticks(Tick(s), n - 1)
  }

  /** The win effect: once every card counts as matched, stop the timer, record the game, update the best score. */
  function CheckWin(s: Session, date: string): (t: Session)
    ensures |s.matched| != |s.cards| ==> t == s
    ensures |s.matched| == |s.cards| <==> |t.leaderboard| == |s.leaderboard| + 1
    ensures |s.matched| == |s.cards| ==>
              && !t.active
              && multiset(t.leaderboard) == multiset(s.leaderboard) + multiset{Entry(s.moves, s.time, date)}
              && SortedByMoves(t.leaderboard)
              && t == s.(active := false, leaderboard := t.leaderboard, best := t.best)
    ensures NoWorse(t.best, s.best)
    ensures t.best != s.best <==> |s.matched| == |s.cards| && Improves(s.moves, s.best)
    ensures t.best != s.best ==> t.best == Score(s.moves)
  {
    if |s.matched| == |s.cards| then
      s.(active := false,
         leaderboard := UpdateLeaderboard(s.leaderboard, Entry(s.moves, s.time, date)),
         best := if Improves(s.moves, s.best) then Score(s.moves) else s.best)
    else
      s
  }

  // ---------------------------------------------------------------------------
  // Properties of single clicks

  /** A click the guard rejects changes nothing, however often it is repeated. */
  lemma {:induction false} ClickIgnored(s: Session, card: Card)
    requires Ignored(s, card)
    ensures Click(s, card) == s
    ensures Click(Click(s, card), card) == s
  {
  }

  /** The first flip of a pair shows the card and counts no move. */
  lemma {:induction false} ClickFirstFlip(s: Session, card: Card)
    requires !Ignored(s, card) && s.flipped == []
    ensures Click(s, card) == s.(flipped := [card])
  {
  }

  /**
   * The second flip of a pair counts one move; a pair of equal values is matched
   * at once, a pair of different values stays face up for the deferred reset.
   */
  lemma {:induction false} ClickSecondFlip(s: Session, card: Card)
    requires !Ignored(s, card) && |s.flipped| == 1
    ensures Click(s, card).moves == s.moves + 1
    ensures s.flipped[0].value == card.value ==>
              Click(s, card).matched == s.matched + [s.flipped[0].id, card.id] && Click(s, card).flipped == []
    ensures s.flipped[0].value != card.value ==>
              Click(s, card).matched == s.matched && Click(s, card).flipped == s.flipped + [card]
    ensures s.flipped[0].value != card.value ==> ResolveMismatch(Click(s, card)).flipped == []
  {
  }

  /** A pair attempt from a state with nothing face up costs exactly one move, whatever the outcome. */
  lemma {:induction false} OneMovePerPair(s: Session, first: Card, second: Card)
    requires s.flipped == [] && first.id !in s.matched && second.id !in s.matched
    ensures Click(s, first).moves == s.moves
    ensures Click(Click(s, first), second).moves == s.moves + 1
  {
  }

  // ---------------------------------------------------------------------------
  // The session invariant

  /**
   * What holds of every state reachable by clicks on the dealt cards: ids are
   * positions, at most two cards face up and none of them matched, two face-up
   * cards always differ in value, matched ids come in pairs of equal value, and
   * every matched pair cost at least one move.
   */
  ghost predicate Consistent(s: Session)
  {
    && Positional(s.cards)
    && |s.flipped| <= 2
    && (forall i :: 0 <= i < |s.flipped| ==> s.flipped[i] in s.cards && s.flipped[i].id !in s.matched)
    && (|s.flipped| == 2 ==> s.flipped[0].value != s.flipped[1].value)
    && (forall i :: 0 <= i < |s.matched| ==> 0 <= s.matched[i] < |s.cards|)
    && |s.matched| % 2 == 0
    && |s.matched| <= 2 * s.moves
    && (forall i :: 0 <= i < |s.matched| - 1 && i % 2 == 0 ==>
          s.cards[s.matched[i]].value == s.cards[s.matched[i + 1]].value)
  }

  /** A card of a positional deck sits at the position its id names. */
  lemma {:induction false} CardAtId(deck: seq<Card>, c: Card)
    requires Positional(deck) && c in deck
    ensures 0 <= c.id < |deck| && deck[c.id] == c
  {
  }

  /** Puts the first element of a non-empty sequence in front of the solver, so that a membership fact about it can be used. */
  lemma {:induction false} HasFirst<T>(xs: seq<T>)
    ensures xs != [] ==> xs[0] in xs
  {
  }

  lemma {:induction false} InitialConsistent(best: BestScore, leaderboard: seq<Entry>)
    ensures Consistent(Initial(best, leaderboard))
  {
  }

  /** Dealing onto the board before its first deal keeps the invariant: with no cards, nothing is face up or matched. */
  lemma {:induction false} DealConsistent(s: Session, perm: seq<int>)
    requires Consistent(s) && s.cards == []
    requires IsPermutation(perm, 2 * |CardValues|)
    ensures s.flipped == [] && s.matched == []
    ensures Consistent(Deal(s, perm))
  {
    HasFirst(s.flipped);
    HasFirst(s.matched);
  }

  lemma {:induction false} RestartConsistent(s: Session, perm: seq<int>)
    requires IsPermutation(perm, 2 * |CardValues|)
    ensures Consistent(Restart(s, perm))
    ensures forall date :: CheckWin(Restart(s, perm), date) == Restart(s, perm)
  {
  }

  /** Clicking any card of the deck keeps the invariant. */
  lemma {:induction false} ClickConsistent(s: Session, card: Card)
    requires Consistent(s) && card in s.cards
    ensures Consistent(Click(s, card))
  {
    var t := Click(s, card);
    CardAtId(s.cards, card);
    if !Ignored(s, card) && |s.flipped| == 1 {
      var f := s.flipped[0];
      CardAtId(s.cards, f);
      if f.value == card.value {
        assert t.matched == s.matched + [f.id, card.id];
        forall i | 0 <= i < |t.matched| - 1 && i % 2 == 0
          ensures t.cards[t.matched[i]].value == t.cards[t.matched[i + 1]].value
        {
          if i < |s.matched| {
            assert i + 1 < |s.matched|;
          }
        }
      }
    }
  }

  lemma {:induction false} ResolveMismatchConsistent(s: Session)
    requires Consistent(s)
    ensures Consistent(ResolveMismatch(s))
  {
  }

  lemma {:induction false} TickConsistent(s: Session)
    requires Consistent(s)
    ensures Consistent(Tick(s))
  {
  }

  lemma {:induction false} CheckWinConsistent(s: Session, date: string)
    requires Consistent(s)
    ensures Consistent(CheckWin(s, date))
  {
  }

  // ---------------------------------------------------------------------------
  // Runs of events between two restarts

  /** The events that reach a dealt board between two restarts. */
  datatype Event = Select(card: Card) | MismatchReset | TimerTick | WinCheck(date: string)

  function Step(s: Session, e: Event): (t: Session)
    ensures t.cards == s.cards
  {
    match e
    case Select(card) => Click(s, card)
    case MismatchReset => ResolveMismatch(s)
    case TimerTick => Tick(s)
    case WinCheck(date) => CheckWin(s, date)
  }

  function Run(s: Session, events: seq<Event>): (t: Session)
    ensures t.cards == s.cards
    decreases |events|
  {
    if events == [] then s else Run(Step(s, events[0]), events[1..])
  }

  /** Every event only clicks cards of the deck. */
  ghost predicate OnDeck(cards: seq<Card>, events: seq<Event>)
  {
    forall i :: 0 <= i < |events| ==> events[i].Select? ==> events[i].card in cards
  }

  /** Any run of events on the dealt cards keeps the invariant. */
  lemma {:induction false} RunConsistent(s: Session, events: seq<Event>)
    requires Consistent(s) && OnDeck(s.cards, events)
    ensures Consistent(Run(s, events))
    decreases |events|
  {
    if events != [] {
      var t := Step(s, events[0]);
      match events[0] {
        case Select(card) => ClickConsistent(s, card);
        case MismatchReset => ResolveMismatchConsistent(s);
        case TimerTick => TickConsistent(s);
        case WinCheck(date) => CheckWinConsistent(s, date);
      }
      assert OnDeck(t.cards, events[1..]) by {
        forall i | 0 <= i < |events| - 1 && events[1..][i].Select?
          ensures events[1..][i].card in t.cards
        {
          assert events[1..][i] == events[i + 1];
        }
      }
      RunConsistent(t, events[1..]);
    }
  }

  /** Matched ids only ever accumulate between two restarts: the list of a later state extends the earlier one. */
  lemma {:induction false} RunKeepsMatched(s: Session, events: seq<Event>)
    ensures s.matched <= Run(s, events).matched
    ensures s.moves <= Run(s, events).moves
    decreases |events|
  {
    if events != [] {
      var t := Step(s, events[0]);
      assert s.matched <= t.matched && s.moves <= t.moves;
      RunKeepsMatched(t, events[1..]);
    }
  }

  // ---------------------------------------------------------------------------
  // The timer and the win

  /** While the game is active, n ticks add n seconds. */
  lemma {:induction false} TicksWhileActive(s: Session, n: nat)
    requires s.active
    ensures Ticks(s, n) == s.(time := s.time + n)
    decreases n
  {
    if n > 0 {
      TicksWhileActive(Tick(s), n - 1);
    }
  }

  /** Once the win fires, the timer no longer advances: any number of ticks leaves the state as it is. */
  lemma {:induction false} TicksAfterWin(s: Session, date: string, n: nat)
    requires |s.matched| == |s.cards|
    ensures Ticks(CheckWin(s, date), n) == CheckWin(s, date)
  {
    if n > 0 {
      TicksAfterWin(s, date, n - 1);
    }
  }

  /** The best score only ever goes down: a chain of win checks never makes it worse than at the start. */
  lemma {:induction false} BestNeverIncreases(s: Session, events: seq<Event>)
    ensures NoWorse(Run(s, events).best, s.best)
    decreases |events|
  {
    if events != [] {
      var t := Step(s, events[0]);
      assert NoWorse(t.best, s.best);
      BestNeverIncreases(t, events[1..]);
      var u := Run(t, events[1..]);
      assert NoWorse(u.best, t.best);
    }
  }

  // ---------------------------------------------------------------------------
  // Finding 1: clicking the one face-up card again counts as a match.

  /** Clicks each of the first k cards of the deck twice in a row, in deck order. */
  function SelfClicks(s: Session, k: nat): (t: Session)
    requires k <= |s.cards|
    ensures t.cards == s.cards && t.active == s.active && t.leaderboard == s.leaderboard
    decreases k
  {
    if k == 0 then s
    else
      var u := SelfClicks(s, k - 1);
      Click(Click(u, s.cards[k - 1]), s.cards[k - 1])
  }

  /**
   * As written, on a positional deck with nothing face up or matched, clicking
   * each of the first k cards twice matches every one of them with itself: the
   * matched list becomes [0, 0, 1, 1, ..., k-1, k-1], at one move per card.
   */
  lemma {:induction false} SelfClicksMatch(s: Session, k: nat)
    requires Positional(s.cards) && s.flipped == [] && s.matched == []
    requires k <= |s.cards|
    ensures SelfClicks(s, k).flipped == []
    ensures SelfClicks(s, k).matched == seq(2 * k, i => i / 2)
    ensures SelfClicks(s, k).moves == s.moves + k
    decreases k
  {
    if k > 0 {
      SelfClicksMatch(s, k - 1);
      var u := SelfClicks(s, k - 1);
      var c := s.cards[k - 1];
      assert c.id == k - 1;
      assert c.id !in u.matched by {
        forall i | 0 <= i < |u.matched|
          ensures u.matched[i] < k - 1
        {
        }
      }
      var v := Click(u, c);
      assert v == u.(flipped := [c]);
      var w := Click(v, c);
      assert w.matched == u.matched + [k - 1, k - 1];
      assert w.matched == seq(2 * k, i => i / 2);
    }
  }

  /**
   * As written: on a positional deck of 2k cards with nothing face up or
   * matched, clicking each of the first k cards twice fires the win although
   * the last k cards were never turned over.
   */
  lemma {:induction false} SelfClicksWin(s: Session, k: nat, date: string)
    requires Positional(s.cards) && s.flipped == [] && s.matched == []
    requires |s.cards| == 2 * k
    ensures var t := SelfClicks(s, k);
            && |t.matched| == |t.cards|
            && (forall id :: k <= id < 2 * k ==> id !in t.matched)
            && !CheckWin(t, date).active
            && |CheckWin(t, date).leaderboard| == |s.leaderboard| + 1
  {
    SelfClicksMatch(s, k);
    var t := SelfClicks(s, k);
    forall id | k <= id < 2 * k
      ensures id !in t.matched
    {
      forall i | 0 <= i < |t.matched|
        ensures t.matched[i] < k
      {
      }
    }
  }

  /**
   * The same on every deck the game deals. After a restart from any state:
   * clicking each of cards 0..7 twice makes the matched list as long as the
   * deck, and the win fires and records one more game although cards 8..15 were
   * never turned over. On the first deal, which follows the win check of the
   * empty board at mount, the same clicks leave two new entries on the
   * leaderboard: the 0-move one from the mount and this one.
   */
  lemma {:induction false} SelfClickWinsEarly(s: Session, perm: seq<int>, date: string, best: BestScore, board: seq<Entry>, mountDate: string)
    requires IsPermutation(perm, 2 * |CardValues|)
    ensures var r := Restart(s, perm);
            var t := SelfClicks(r, 8);
            && Consistent(r)
            && |t.matched| == |t.cards| == 16
            && (forall id :: 8 <= id < 16 ==> id !in t.matched)
            && !CheckWin(t, date).active
            && |CheckWin(t, date).leaderboard| == |s.leaderboard| + 1
    ensures var m := Deal(CheckWin(Initial(best, board), mountDate), perm);
            var t := SelfClicks(m, 8);
            && |t.matched| == |t.cards| == 16
            && (forall id :: 8 <= id < 16 ==> id !in t.matched)
            && |CheckWin(t, date).leaderboard| == |board| + 2
  {
    var r := Restart(s, perm);
    RestartConsistent(s, perm);
    SelfClicksWin(r, 8, date);
    var m := Deal(CheckWin(Initial(best, board), mountDate), perm);
    assert |m.leaderboard| == |board| + 1;
    SelfClicksWin(m, 8, date);
  }

  /** The guard as evidently intended: also ignore a click on a card that is already face up. */
  function ClickDistinct(s: Session, card: Card): (t: Session)
    ensures card in s.flipped ==> t == s
    ensures card !in s.flipped ==> t == Click(s, card)
  {
    if card in s.flipped then s else Click(s, card)
  }

  /** The invariant of the corrected guard: in addition, no id is matched twice. */
  ghost predicate ConsistentDistinct(s: Session)
  {
    Consistent(s) && Distinct(s.matched)
  }

  lemma {:induction false} ClickDistinctConsistent(s: Session, card: Card)
    requires ConsistentDistinct(s) && card in s.cards
    ensures ConsistentDistinct(ClickDistinct(s, card))
  {
    ClickConsistent(s, card);
    var t := ClickDistinct(s, card);
    if card !in s.flipped && !Ignored(s, card) && |s.flipped| == 1 && s.flipped[0].value == card.value {
      var f := s.flipped[0];
      CardAtId(s.cards, card);
      CardAtId(s.cards, f);
      assert f.id != card.id;
      assert t.matched == s.matched + [f.id, card.id];
      forall i, j | 0 <= i < j < |t.matched|
        ensures t.matched[i] != t.matched[j]
      {
        if j < |s.matched| {
        } else if i < |s.matched| {
          assert t.matched[i] in s.matched;
        }
      }
    }
  }

  /** With the corrected guard, a matched list as long as the deck means every card of the deck is matched. */
  lemma {:induction false} DistinctWinMatchesAll(s: Session)
    requires ConsistentDistinct(s) && |s.matched| == |s.cards|
    ensures forall i :: 0 <= i < |s.cards| ==> i in s.matched
  {
    CoversRange(s.matched, |s.cards|);
  }

  // ---------------------------------------------------------------------------
  // Finding 2: the win check also fires on a board with no cards.

  /**
   * As written: on the freshly mounted board (no cards yet, nothing matched) the
   * win fires, records a game of 0 moves, sets the best score to 0, which no
   * later game can beat, and stops the timer, which the first deal does not restart.
   * A stored best score of 0, which every later load reads back, is included:
   * the same happens again on every load.
   */
  lemma {:induction false} EmptyBoardWins(best: BestScore, board: seq<Entry>, date: string, perm: seq<int>, n: nat)
    requires best.Unset? || best.moves >= 0
    requires IsPermutation(perm, 2 * |CardValues|)
    ensures var t := CheckWin(Initial(best, board), date);
            && !t.active
            && |t.leaderboard| == |board| + 1
            && t.best == Score(0)
            && (forall m: nat :: !Improves(m, t.best))
            && Ticks(Deal(t, perm), n).time == 0
  {
    var t := CheckWin(Initial(best, board), date);
    TicksFrozen(Deal(t, perm), n);
  }

  /** Ticks of an inactive board change nothing. */
  lemma {:induction false} TicksFrozen(s: Session, n: nat)
    requires !s.active
    ensures Ticks(s, n) == s
  {
    if n > 0 {
      TicksFrozen(s, n - 1);
    }
  }

  /** The win check as evidently intended: a board without cards is not a won game. */
  function CheckWinNonEmpty(s: Session, date: string): (t: Session)
    ensures |s.cards| == 0 ==> t == s
    ensures |s.cards| > 0 ==> t == CheckWin(s, date)
  {
    if |s.cards| == 0 then s else CheckWin(s, date)
  }

  /**
   * With both corrections, the win fires only on a dealt board whose every card
   * is matched, and never on the board before its first deal.
   */
  lemma {:induction false} CorrectedWin(s: Session, date: string, best: BestScore, board: seq<Entry>)
    requires ConsistentDistinct(s)
    ensures CheckWinNonEmpty(Initial(best, board), date) == Initial(best, board)
    ensures CheckWinNonEmpty(s, date) != s ==>
              |s.cards| > 0 && forall i :: 0 <= i < |s.cards| ==> i in s.matched
  {
    if CheckWinNonEmpty(s, date) != s {
      DistinctWinMatchesAll(s);
    }
  }

  // ---------------------------------------------------------------------------
  // Finding 3: the win effect runs again after every leaderboard update.

  /** Runs of the win effect, one per date, each on the state the previous run left. */
  function CheckWins(s: Session, dates: seq<string>): Session
    decreases |dates|
  {
    if dates == [] then s else CheckWins(CheckWin(s, dates[0]), dates[1..])
  }

  /** The entries of a game of the given moves and time, one per date. */
  function Entries(moves: int, time: int, dates: seq<string>): (r: seq<Entry>)
    ensures |r| == |dates|
    ensures forall i :: 0 <= i < |r| ==> r[i] == Entry(moves, time, dates[i])
    decreases |dates|
  {
    if dates == [] then [] else [Entry(moves, time, dates[0])] + Entries(moves, time, dates[1..])
  }

  /**
   * As written: the update of the leaderboard renews the callback the win
   * effect depends on, so the effect runs again, and on a won board every run
   * records the same game once more, under the date of that run. After the runs
   * the board is still won and stopped with the same moves and time, and the
   * leaderboard holds exactly one entry of that game per run on top of the old ones.
   */
  lemma {:induction false} WinRefires(s: Session, dates: seq<string>)
    requires |s.matched| == |s.cards|
    ensures var t := CheckWins(s, dates);
            && |t.leaderboard| == |s.leaderboard| + |dates|
            && multiset(t.leaderboard) == multiset(s.leaderboard) + multiset(Entries(s.moves, s.time, dates))
            && t.cards == s.cards && t.matched == s.matched && t.moves == s.moves && t.time == s.time
            && (dates != [] ==> !t.active)
    decreases |dates|
  {
    if dates != [] {
      var u := CheckWin(s, dates[0]);
      assert u.moves == s.moves && u.time == s.time;
      WinRefires(u, dates[1..]);
      var rest := Entries(s.moves, s.time, dates[1..]);
      assert Entries(s.moves, s.time, dates) == [Entry(s.moves, s.time, dates[0])] + rest;
      assert multiset([Entry(s.moves, s.time, dates[0])] + rest) == multiset{Entry(s.moves, s.time, dates[0])} + multiset(rest);
      if dates[1..] == [] {
        assert CheckWins(u, dates[1..]) == u;
      }
    }
  }

  /** The win check as evidently intended: a game that has stopped is not won again, and a board without cards is not won. */
  function CheckWinOnce(s: Session, date: string): (t: Session)
    ensures !s.active ==> t == s
    ensures s.active ==> t == CheckWinNonEmpty(s, date)
  {
    if s.active then CheckWinNonEmpty(s, date) else s
  }

  /** Runs of the corrected win effect, one per date. */
  function CheckWinsOnce(s: Session, dates: seq<string>): Session
    decreases |dates|
  {
    if dates == [] then s else CheckWinsOnce(CheckWinOnce(s, dates[0]), dates[1..])
  }

  /** A second run of the corrected check, whatever its date, changes nothing. */
  lemma {:induction false} CheckWinOnceIdempotent(s: Session, date: string, later: string)
    ensures CheckWinOnce(CheckWinOnce(s, date), later) == CheckWinOnce(s, date)
  {
  }

  /** However often the corrected effect runs, it records a won game exactly once. */
  lemma {:induction false} WinRecordedOnce(s: Session, dates: seq<string>)
    ensures |CheckWinsOnce(s, dates).leaderboard| <= |s.leaderboard| + 1
    ensures dates != [] && s.active && 0 < |s.matched| == |s.cards| ==>
              |CheckWinsOnce(s, dates).leaderboard| == |s.leaderboard| + 1
  {
    if dates != [] {
      var t := CheckWinOnce(s, dates[0]);
      forall d
        ensures CheckWinOnce(t, d) == t
      {
        CheckWinOnceIdempotent(s, dates[0], d);
      }
      CheckWinsOnceFixed(t, dates[1..]);
    }
  }

  /** Once the corrected check leaves a state unchanged for every date, further runs leave it unchanged. */
  lemma {:induction false} CheckWinsOnceFixed(t: Session, dates: seq<string>)
    requires forall d :: CheckWinOnce(t, d) == t
    ensures CheckWinsOnce(t, dates) == t
    decreases |dates|
  {
    if dates != [] {
      CheckWinsOnceFixed(t, dates[1..]);
    }
  }

  // ---------------------------------------------------------------------------
  // The corrected game: all three corrections together.

  /** One event with the corrected click guard and the corrected win check. */
  function StepCorrected(s: Session, e: Event): (t: Session)
    ensures t.cards == s.cards
  {
    match e
    case Select(card) => ClickDistinct(s, card)
    case MismatchReset => ResolveMismatch(s)
    case TimerTick => Tick(s)
    case WinCheck(date) => CheckWinOnce(s, date)
  }

  function RunCorrected(s: Session, events: seq<Event>): (t: Session)
    ensures t.cards == s.cards
    decreases |events|
  {
    if events == [] then s else RunCorrected(StepCorrected(s, events[0]), events[1..])
  }

  /** Every run of the corrected game on the dealt cards keeps the corrected invariant. */
  lemma {:induction false} RunCorrectedConsistent(s: Session, events: seq<Event>)
    requires ConsistentDistinct(s) && OnDeck(s.cards, events)
    ensures ConsistentDistinct(RunCorrected(s, events))
    decreases |events|
  {
    if events != [] {
      var t := StepCorrected(s, events[0]);
      match events[0] {
        case Select(card) => ClickDistinctConsistent(s, card);
        case MismatchReset => ResolveMismatchConsistent(s);
        case TimerTick => TickConsistent(s);
        case WinCheck(date) => CheckWinConsistent(s, date);
      }
      assert OnDeck(t.cards, events[1..]) by {
        forall i | 0 <= i < |events| - 1 && events[1..][i].Select?
          ensures events[1..][i].card in t.cards
        {
          assert events[1..][i] == events[i + 1];
        }
      }
      RunCorrectedConsistent(t, events[1..]);
    }
  }

  /**
   * In every state the corrected game reaches after a restart, the win fires
   * only when every card of the deck is matched.
   */
  lemma {:induction false} CorrectedRunWin(s: Session, perm: seq<int>, events: seq<Event>, date: string)
    requires IsPermutation(perm, 2 * |CardValues|)
    requires OnDeck(Shuffle(CardValues, perm), events)
    ensures var t := RunCorrected(Restart(s, perm), events);
            CheckWinOnce(t, date) != t ==> forall i :: 0 <= i < |t.cards| ==> i in t.matched
  {
    var r := Restart(s, perm);
    RestartConsistent(s, perm);
    assert ConsistentDistinct(r);
    RunCorrectedConsistent(r, events);
    var t := RunCorrected(r, events);
    if CheckWinOnce(t, date) != t {
      CorrectedWin(t, date, t.best, t.leaderboard);
    }
  }
}
