/**
 * The leaderboard kept by the game: `updateLeaderboard` appends an entry for the
 * finished game and sorts the whole list by ascending number of moves.  The
 * sort is the stable `Array.prototype.sort` with comparator `a.moves - b.moves`,
 * modelled as a stable insertion sort.  Nothing is ever truncated.
 */
module Leaderboard {

  /** One finished game; the date text is opaque to the model. */
  datatype Entry = Entry(moves: int, time: int, date: string)

  ghost predicate SortedByMoves(s: seq<Entry>)
  {
    forall i, j :: 0 <= i < j < |s| ==> s[i].moves <= s[j].moves
  }

  /** Puts e into s just after every entry with at most e.moves moves. */
  function InsertByMoves(s: seq<Entry>, e: Entry): (r: seq<Entry>)
    ensures |r| == |s| + 1
  {
    if s == [] then [e]
    else if e.moves < s[0].moves then [e] + s
    else [s[0]] + InsertByMoves(s[1..], e)
  }

  /** Insertion adds exactly e to the entries. */
  lemma {:induction false} InsertPermutes(s: seq<Entry>, e: Entry)
    ensures multiset(InsertByMoves(s, e)) == multiset(s) + multiset{e}
  {
    if s == [] {
    } else if e.moves < s[0].moves {
      assert InsertByMoves(s, e) == [e] + s;
    } else {
      var rest := InsertByMoves(s[1..], e);
      InsertPermutes(s[1..], e);
      assert InsertByMoves(s, e) == [s[0]] + rest;
      assert multiset(s) == multiset{s[0]} + multiset(s[1..]) by {
        assert s == [s[0]] + s[1..];
      }
    }
  }

  /** Every entry of the insertion result is e or an entry of s. */
  lemma {:induction false} InsertMembers(s: seq<Entry>, e: Entry)
    ensures forall x :: x in InsertByMoves(s, e) ==> x in s || x == e
  {
    if s != [] && e.moves >= s[0].moves {
      InsertMembers(s[1..], e);
      forall x | x in [s[0]] + InsertByMoves(s[1..], e)
        ensures x in s || x == e
      {
        if x != s[0] {
          assert x in InsertByMoves(s[1..], e);
        }
      }
    }
  }

  /** An entry with no more moves than any entry of a sorted list can go in front of it. */
  lemma {:induction false} ConsSorted(x: Entry, t: seq<Entry>)
    requires SortedByMoves(t)
    requires forall y :: y in t ==> x.moves <= y.moves
    ensures SortedByMoves([x] + t)
  {
    forall i, j | 0 <= i < j < |[x] + t|
      ensures ([x] + t)[i].moves <= ([x] + t)[j].moves
    {
      if i == 0 {
        assert ([x] + t)[j] == t[j - 1];
        assert t[j - 1] in t;
      } else {
        assert ([x] + t)[i] == t[i - 1];
        assert ([x] + t)[j] == t[j - 1];
      }
    }
  }

  /** Insertion keeps a list sorted by moves. */
  lemma {:induction false} InsertKeepsSorted(s: seq<Entry>, e: Entry)
    requires SortedByMoves(s)
    ensures SortedByMoves(InsertByMoves(s, e))
  {
    if s == [] {
    } else if e.moves < s[0].moves {
      forall y | y in s
        ensures e.moves <= y.moves
      {
        var i :| 0 <= i < |s| && s[i] == y;
      }
      ConsSorted(e, s);
    } else {
      var rest := InsertByMoves(s[1..], e);
      InsertKeepsSorted(s[1..], e);
      InsertMembers(s[1..], e);
      forall y | y in rest
        ensures s[0].moves <= y.moves
      {
        if y != e {
          var i :| 0 <= i < |s[1..]| && s[1..][i] == y;
          assert s[i + 1] == y;
        }
      }
      ConsSorted(s[0], rest);
    }
  }

  /** Stable sort by moves: entries are inserted one by one, in list order. */
  function SortByMoves(s: seq<Entry>): (r: seq<Entry>)
    ensures |r| == |s|
  {
    if s == [] then []
    else InsertByMoves(SortByMoves(s[..|s| - 1]), s[|s| - 1])
  }

  /** The sort returns a permutation of its input. */
  lemma {:induction false} SortPermutes(s: seq<Entry>)
    ensures multiset(SortByMoves(s)) == multiset(s)
  {
    if s != [] {
      SortPermutes(s[..|s| - 1]);
      InsertPermutes(SortByMoves(s[..|s| - 1]), s[|s| - 1]);
      assert s == s[..|s| - 1] + [s[|s| - 1]];
    }
  }

  /** The sort returns a list sorted by moves. */
  lemma {:induction false} SortIsSorted(s: seq<Entry>)
    ensures SortedByMoves(SortByMoves(s))
  {
    if s != [] {
      SortIsSorted(s[..|s| - 1]);
      InsertKeepsSorted(SortByMoves(s[..|s| - 1]), s[|s| - 1]);
    }
  }

  /** updateLeaderboard: the old list with the new entry, sorted by moves. */
  function UpdateLeaderboard(board: seq<Entry>, e: Entry): (r: seq<Entry>)
    ensures |r| == |board| + 1
    ensures multiset(r) == multiset(board + [e])
    ensures SortedByMoves(r)
  {
    SortPermutes(board + [e]);
    SortIsSorted(board + [e]);
    SortByMoves(board + [e])
  }

  /** The entries of s with exactly k moves, in list order. */
  function WithMoves(s: seq<Entry>, k: int): seq<Entry>
  {
    if s == [] then []
    else (if s[0].moves == k then [s[0]] else []) + WithMoves(s[1..], k)
  }

  lemma {:induction false} WithMovesCons(x: Entry, t: seq<Entry>, k: int)
    ensures WithMoves([x] + t, k) == (if x.moves == k then [x] else []) + WithMoves(t, k)
  {
    assert ([x] + t)[0] == x;
    assert ([x] + t)[1..] == t;
  }

  lemma {:induction false} WithMovesAppend(a: seq<Entry>, b: seq<Entry>, k: int)
    ensures WithMoves(a + b, k) == WithMoves(a, k) + WithMoves(b, k)
  {
    if a == [] {
      assert a + b == b;
    } else {
      WithMovesAppend(a[1..], b, k);
      assert a + b == [a[0]] + (a[1..] + b);
      WithMovesCons(a[0], a[1..] + b, k);
      assert a == [a[0]] + a[1..];
      WithMovesCons(a[0], a[1..], k);
    }
  }

  lemma {:induction false} WithMovesNone(s: seq<Entry>, k: int)
    requires forall i :: 0 <= i < |s| ==> s[i].moves > k
    ensures WithMoves(s, k) == []
  {
    if s != [] {
      WithMovesNone(s[1..], k);
    }
  }

  /** The entries of [e] with k moves. */
  function Tie(e: Entry, k: int): seq<Entry>
  {
    if e.moves == k then [e] else []
  }

  /** Insertion at the front of a sorted list keeps the ties in order. */
  lemma {:induction false} InsertTiesFront(s: seq<Entry>, e: Entry, k: int)
    requires SortedByMoves(s) && (s == [] || e.moves < s[0].moves)
    ensures WithMoves(InsertByMoves(s, e), k) == WithMoves(s, k) + Tie(e, k)
  {
    WithMovesCons(e, s, k);
    if e.moves == k {
      WithMovesNone(s, k);
    }
    assert InsertByMoves(s, e) == [e] + s;
  }

  /** Insertion past the head keeps the ties in order if it does so in the tail. */
  lemma {:induction false} InsertTiesStep(s: seq<Entry>, e: Entry, k: int)
    requires s != [] && s[0].moves <= e.moves
    requires WithMoves(InsertByMoves(s[1..], e), k) == WithMoves(s[1..], k) + Tie(e, k)
    ensures WithMoves(InsertByMoves(s, e), k) == WithMoves(s, k) + Tie(e, k)
  {
    var head := if s[0].moves == k then [s[0]] else [];
    var rest := InsertByMoves(s[1..], e);
    WithMovesCons(s[0], rest, k);
    calc {
      WithMoves(InsertByMoves(s, e), k);
      WithMoves([s[0]] + rest, k);
      head + WithMoves(rest, k);
      head + (WithMoves(s[1..], k) + Tie(e, k));
      (head + WithMoves(s[1..], k)) + Tie(e, k);
      WithMoves(s, k) + Tie(e, k);
    }
  }

  /** Inserting into a sorted list puts e after every entry that ties with it. */
  lemma {:induction false} InsertKeepsTies(s: seq<Entry>, e: Entry, k: int)
    requires SortedByMoves(s)
    ensures WithMoves(InsertByMoves(s, e), k) == WithMoves(s, k) + Tie(e, k)
  {
    if s == [] || e.moves < s[0].moves {
      InsertTiesFront(s, e, k);
    } else {
      InsertKeepsTies(s[1..], e, k);
      InsertTiesStep(s, e, k);
    }
  }

  /** The last entry of a list comes last among the entries with its move count. */
  lemma {:induction false} WithMovesSnoc(s: seq<Entry>, k: int)
    requires s != []
    ensures WithMoves(s, k) == WithMoves(s[..|s| - 1], k) + Tie(s[|s| - 1], k)
  {
    var last := s[|s| - 1];
    WithMovesAppend(s[..|s| - 1], [last], k);
    WithMovesCons(last, [], k);
    assert [last] + [] == [last];
    assert s == s[..|s| - 1] + [last];
  }

  /** The sort is stable: entries with equal moves keep their relative order. */
  lemma {:induction false} SortIsStable(s: seq<Entry>, k: int)
    ensures WithMoves(SortByMoves(s), k) == WithMoves(s, k)
  {
    if s != [] {
      var init := s[..|s| - 1];
      SortIsStable(init, k);
      SortIsSorted(init);
      InsertKeepsTies(SortByMoves(init), s[|s| - 1], k);
      WithMovesSnoc(s, k);
    }
  }

  /** An entry with at least as many moves as all others goes to the end. */
  lemma {:induction false} InsertLast(s: seq<Entry>, e: Entry)
    requires forall i :: 0 <= i < |s| ==> s[i].moves <= e.moves
    ensures InsertByMoves(s, e) == s + [e]
  {
    if s != [] {
      InsertLast(s[1..], e);
    }
  }

  /** Sorting a list that is already sorted by moves leaves it as it is. */
  lemma {:induction false} SortSorted(s: seq<Entry>)
    requires SortedByMoves(s)
    ensures SortByMoves(s) == s
  {
    if s != [] {
      var init := s[..|s| - 1];
      SortSorted(init);
      InsertLast(init, s[|s| - 1]);
    }
  }

  /**
   * The leaderboard grows by exactly the new entry, stays sorted, and keeps the
   * order of tied entries, with the new one after the older ones it ties with.
   */
  lemma {:induction false} UpdateLeaderboardStable(board: seq<Entry>, e: Entry, k: int)
    ensures WithMoves(UpdateLeaderboard(board, e), k) == WithMoves(board, k) + Tie(e, k)
  {
    SortIsStable(board + [e], k);
    WithMovesAppend(board, [e], k);
  }

  /** On a leaderboard that is already sorted, the update is a single stable insertion. */
  lemma {:induction false} UpdateSortedBoard(board: seq<Entry>, e: Entry)
    requires SortedByMoves(board)
    ensures UpdateLeaderboard(board, e) == InsertByMoves(board, e)
  {
    SortSorted(board);
    assert (board + [e])[..|board|] == board;
  }
}
