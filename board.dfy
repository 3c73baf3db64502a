/**
 * The GameBoard component as an object: its fields are the component's state
 * variables, and each method performs the updates its handler or effect makes,
 * one state setter after another.  Each method's postcondition ties the new
 * state to the transition of the same name in GameSession, and every method
 * keeps the session invariant `GameSession.Consistent`.
 */
module Board {
  import opened Cards
  import opened Leaderboard
  import opened GameSession

  class GameBoard {
    var cards: seq<Card>
    var flipped: seq<Card>
    var matched: seq<int>
    var moves: nat
    var time: nat
    var active: bool
    var best: BestScore
    var leaderboard: seq<Entry>

    /** The component state as a value. */
    function State(): Session
      reads this
    {
      Session(cards, flipped, matched, moves, time, active, best, leaderboard)
    }

    ghost predicate Valid()
      reads this
    {
      Consistent(State())
    }

    /** Mounting: empty board, counters zero, timer on; best score and leaderboard as read from storage. */
    constructor (storedBest: BestScore, storedLeaderboard: seq<Entry>)
      ensures State() == GameSession.Initial(storedBest, storedLeaderboard)
      ensures Valid()
    {
      cards := [];
      flipped := [];
      matched := [];
      moves := 0;
      time := 0;
      active := true;
      best := storedBest;
      leaderboard := storedLeaderboard;
      InitialConsistent(storedBest, storedLeaderboard);
    }

    /** The mount effect that deals the first deck. */
    method DealFirst(perm: seq<int>)
      requires Valid() && cards == []
      requires IsPermutation(perm, 2 * |CardValues|)
      modifies this
      ensures State() == GameSession.Deal(old(State()), perm)
      ensures Valid()
    {
      DealConsistent(State(), perm);
      cards := Shuffle(CardValues, perm);
    }

    /** handleCardClick. */
    method HandleCardClick(card: Card)
      requires Valid() && card in cards
      modifies this
      ensures State() == GameSession.Click(old(State()), card)
      ensures Valid()
    {
      ClickConsistent(State(), card);
      if |flipped| == 2 || card.id in matched {
        return;
      }
      var previous := flipped;
      flipped := previous + [card];
      if |previous| == 1 {
        moves := moves + 1;
        if previous[0].value == card.value {
          matched := matched + [previous[0].id, card.id];
          flipped := [];
        }
      }
    }

    /** The callback scheduled one second after a mismatch. */
    method ResolveMismatch()
      requires Valid()
      modifies this
      ensures State() == GameSession.ResolveMismatch(old(State()))
      ensures Valid()
    {
      flipped := [];
    }

    /** The interval callback, scheduled only while the game is active. */
    method Tick()
      requires Valid()
      modifies this
      ensures State() == GameSession.Tick(old(State()))
      ensures Valid()
    {
      if active {
        time := time + 1;
      }
    }

    /** updateLeaderboard: append the finished game and sort by moves. */
    method UpdateLeaderboard(gameMoves: int, gameTime: int, date: string)
      requires Valid()
      modifies this
      ensures leaderboard == Leaderboard.UpdateLeaderboard(old(leaderboard), Entry(gameMoves, gameTime, date))
      ensures State() == old(State()).(leaderboard := leaderboard)
      ensures Valid()
    {
      leaderboard := Leaderboard.UpdateLeaderboard(leaderboard, Entry(gameMoves, gameTime, date));
    }

    /** The win effect. */
    method CheckWin(date: string)
      requires Valid()
      modifies this
      ensures State() == GameSession.CheckWin(old(State()), date)
      ensures Valid()
    {
      CheckWinConsistent(State(), date);
      if |matched| == |cards| {
        active := false;
        UpdateLeaderboard(moves, time, date);
        if Improves(moves, best) {
          best := Score(moves);
        }
      }
    }

    /** restartGame. */
    method RestartGame(perm: seq<int>)
      requires IsPermutation(perm, 2 * |CardValues|)
      modifies this
      ensures State() == GameSession.Restart(old(State()), perm)
      ensures Valid()
    {
      RestartConsistent(State(), perm);
      cards := Shuffle(CardValues, perm);
      flipped := [];
      matched := [];
      moves := 0;
      time := 0;
      active := true;
    }
  }
}
