/**
 * The deck generator of the memory game: `shuffleCards` doubles the list of
 * face values, puts the doubled list into a random order and numbers the
 * cards by position.  The random comparator handed to `sort` is modelled by a
 * permutation of positions chosen by the caller: whatever the comparator
 * answers, `sort` only reorders the elements.
 */
module Cards {
  import opened Counting

  /** A card on the board: its position in the current deal and its face value. */
  datatype Card = Card(id: int, value: int)

  /** The eight face values every deal is made of. */
  const CardValues: seq<int> := [1, 2, 3, 4, 5, 6, 7, 8]

  /** `perm` is a bijection on the positions 0 .. n-1. */
  ghost predicate IsPermutation(perm: seq<int>, n: nat)
  {
    && |perm| == n
    && (forall i :: 0 <= i < n ==> 0 <= perm[i] < n)
    && (forall i, j :: 0 <= i < j < n ==> perm[i] != perm[j])
    && (forall k :: 0 <= k < n ==> k in perm)
  }

  /** The reordering a sort performs: position i of the result holds s[perm[i]]. */
  function Permute(s: seq<int>, perm: seq<int>): (r: seq<int>)
    requires forall i :: 0 <= i < |perm| ==> 0 <= perm[i] < |s|
  {
    seq(|perm|, i requires 0 <= i < |perm| => s[perm[i]])
  }

  /** The face values of a deck, in deck order. */
  function Faces(deck: seq<Card>): seq<int>
  {
    seq(|deck|, i requires 0 <= i < |deck| => deck[i].value)
  }

  /** Every card's id is its position in the deck. */
  ghost predicate Positional(deck: seq<Card>)
  {
    forall i :: 0 <= i < |deck| ==> deck[i].id == i
  }

  /** shuffleCards: two copies of every value, reordered, each card numbered by its position. */
  function Shuffle(values: seq<int>, perm: seq<int>): (deck: seq<Card>)
    requires IsPermutation(perm, 2 * |values|)
    ensures |deck| == 2 * |values|
    ensures Positional(deck)
    ensures multiset(Faces(deck)) == multiset(values + values)
  {
    var doubled := values + values;
    var sorted := Permute(doubled, perm);
    PermuteKeepsMultiset(doubled, perm);
    var deck := seq(|sorted|, i requires 0 <= i < |sorted| => Card(i, sorted[i]));
    assert Faces(deck) == sorted;
    deck
  }

  /** Dropping the position that holds the largest index leaves a bijection on one fewer. */
  lemma {:induction false} DropLargest(perm: seq<int>, j: nat, m: nat)
    requires IsPermutation(perm, m + 1) && j < |perm| && perm[j] == m
    ensures IsPermutation(perm[..j] + perm[j + 1..], m)
  {
    var rest := perm[..j] + perm[j + 1..];
    assert forall i :: 0 <= i < m ==> rest[i] == perm[if i < j then i else i + 1];
    forall k | 0 <= k < m
      ensures k in rest
    {
      assert k in perm;
      var i :| 0 <= i < |perm| && perm[i] == k;
      if i < j {
        assert rest[i] == k;
      } else {
        assert rest[i - 1] == k;
      }
    }
  }

  /** Reordering by `perm` equals reordering by `perm` without position j, with s[m] put back at j. */
  lemma {:induction false} PermuteSplit(s: seq<int>, perm: seq<int>, j: nat)
    requires |s| > 0 && IsPermutation(perm, |s|) && j < |perm| && perm[j] == |s| - 1
    requires IsPermutation(perm[..j] + perm[j + 1..], |s| - 1)
    ensures Permute(s, perm)
         == Permute(s[..|s| - 1], perm[..j] + perm[j + 1..])[..j] + [s[|s| - 1]]
          + Permute(s[..|s| - 1], perm[..j] + perm[j + 1..])[j..]
  {
    var rest := perm[..j] + perm[j + 1..];
    assert forall i :: 0 <= i < |s| - 1 ==> rest[i] == perm[if i < j then i else i + 1];
  }

  /** Taking the largest index out of the permutation takes one copy of the last element out of the result. */
  lemma {:induction false} PermuteDropMultiset(s: seq<int>, perm: seq<int>, j: nat)
    requires |s| > 0 && IsPermutation(perm, |s|) && j < |perm| && perm[j] == |s| - 1
    requires IsPermutation(perm[..j] + perm[j + 1..], |s| - 1)
    ensures multiset(Permute(s, perm))
         == multiset(Permute(s[..|s| - 1], perm[..j] + perm[j + 1..])) + multiset{s[|s| - 1]}
  {
    PermuteSplit(s, perm, j);
    var q := Permute(s[..|s| - 1], perm[..j] + perm[j + 1..]);
    assert q == q[..j] + q[j..];
  }

  /** Reordering by a bijection keeps every element and its number of occurrences. */
  lemma {:induction false} PermuteKeepsMultiset(s: seq<int>, perm: seq<int>)
    requires IsPermutation(perm, |s|)
    ensures multiset(Permute(s, perm)) == multiset(s)
    decreases |s|
  {
    if |s| > 0 {
      var m := |s| - 1;
      assert m in perm;
      var j :| 0 <= j < |perm| && perm[j] == m;
      DropLargest(perm, j, m);
      PermuteKeepsMultiset(s[..m], perm[..j] + perm[j + 1..]);
      PermuteDropMultiset(s, perm, j);
      assert s == s[..m] + [s[m]];
    }
  }

  /** Occurrences of v in a list of distinct values: one if it is there, none otherwise. */
  lemma {:induction false} DistinctCount(values: seq<int>, v: int)
    requires Distinct(values)
    ensures multiset(values)[v] == if v in values then 1 else 0
  {
    if values != [] {
      var init := values[..|values| - 1];
      DistinctCount(init, v);
      assert values == init + [values[|values| - 1]];
    }
  }

  /**
   * Dealt from distinct values, every value lies on exactly two cards and every
   * card shows one of the values.
   */
  lemma {:induction false} EachValueTwice(values: seq<int>, perm: seq<int>)
    requires Distinct(values) && IsPermutation(perm, 2 * |values|)
    ensures forall v :: v in values ==> multiset(Faces(Shuffle(values, perm)))[v] == 2
    ensures forall c :: c in Shuffle(values, perm) ==> c.value in values
  {
    var deck := Shuffle(values, perm);
    forall v | v in values
      ensures multiset(Faces(deck))[v] == 2
    {
      DistinctCount(values, v);
    }
    forall c | c in deck
      ensures c.value in values
    {
      var i :| 0 <= i < |deck| && deck[i] == c;
      assert Faces(deck)[i] == c.value;
      assert c.value in multiset(values + values);
    }
  }

  /** The ids of a dealt deck are exactly 0 .. 2n-1, each on one card. */
  lemma {:induction false} ShuffleIds(values: seq<int>, perm: seq<int>)
    requires IsPermutation(perm, 2 * |values|)
    ensures (set c | c in Shuffle(values, perm) :: c.id) == Range(2 * |values|)
    ensures forall i, j :: 0 <= i < j < 2 * |values| ==> Shuffle(values, perm)[i].id != Shuffle(values, perm)[j].id
  {
    var deck := Shuffle(values, perm);
    forall k | k in Range(2 * |values|)
      ensures k in (set c | c in deck :: c.id)
    {
      assert deck[k] in deck;
    }
  }

  lemma {:induction false} CardValuesDistinct()
    ensures Distinct(CardValues)
  {
  }

  /** The game's deck: each face value 1..8 lies on exactly two of its 16 cards, and no card shows another value. */
  lemma {:induction false} GameDeckPairs(perm: seq<int>)
    requires IsPermutation(perm, 2 * |CardValues|)
    ensures forall v :: 1 <= v <= 8 ==> multiset(Faces(Shuffle(CardValues, perm)))[v] == 2
    ensures forall c :: c in Shuffle(CardValues, perm) ==> 1 <= c.value <= 8
  {
    CardValuesDistinct();
    EachValueTwice(CardValues, perm);
    InCardValues();
  }

  lemma {:induction false} InCardValues()
    ensures forall v :: v in CardValues <==> 1 <= v <= 8
  {
    forall v | 1 <= v <= 8
      ensures v in CardValues
    {
      assert CardValues[v - 1] == v;
    }
  }
}
