/** The Fisher-Yates pass of `shuffle()` as a function of the random draws.
    `RANDOM.nextInt(n)` is not modelled; its results are supplied as a
    sequence, draw k being the index picked while the counter is nbTiles - k. */
module FisherYates {
  import opened Board

  /** The board with cells i and j exchanged. */
  function Swap(s: seq<int>, i: int, j: int): (r: seq<int>)
    requires 0 <= i < |s| && 0 <= j < |s|
    ensures |r| == |s|
  {
    s[i := s[j]][j := s[i]]
  }

  /** Draws the loop `while (n > 1)` consumes when it starts from n: one per
      pass, the one taken when the counter is n - k lying in [0, n - k), as
      `nextInt(n - k)` promises. */
  predicate ValidDraws(n: int, draws: seq<int>)
  {
    |draws| == (if n > 1 then n - 1 else 0) &&
    forall k :: 0 <= k < |draws| ==> 0 <= draws[k] < n - k
  }

  /** The board the shuffle loop leaves when it starts with counter n on s:
      each pass draws r below n, decrements n and exchanges cells r and n. */
  function ShuffleFrom(s: seq<int>, n: int, draws: seq<int>): (r: seq<int>)
    requires 0 <= n <= |s| && ValidDraws(n, draws)
    ensures |r| == |s|
    decreases n
  {
    if n <= 1 then s else ShuffleFrom(Swap(s, draws[0], n - 1), n - 1, draws[1..])
  }

  /** The shuffle only permutes the cells below n: the board keeps its
      multiset of tiles and every cell from n on is left as it was. */
  lemma {:induction false} ShufflePermutesPrefix(s: seq<int>, n: int, draws: seq<int>)
    requires 0 <= n <= |s| && ValidDraws(n, draws)
    ensures |ShuffleFrom(s, n, draws)| == |s|
    ensures multiset(ShuffleFrom(s, n, draws)) == multiset(s)
    ensures forall q :: n <= q < |s| ==> ShuffleFrom(s, n, draws)[q] == s[q]
    decreases n
  {
    if n > 1 {
      var t := Swap(s, draws[0], n - 1);
      assert multiset(t) == multiset(s);
      ShufflePermutesPrefix(t, n - 1, draws[1..]);
    }
  }

  /** One reset-and-shuffle attempt of `newGame()` on a board of n cells:
      the solved layout with its n - 1 tiles shuffled. */
  function Deal(n: nat, draws: seq<int>): (r: seq<int>)
    requires n >= 1 && ValidDraws(n - 1, draws)
    ensures |r| == n && r[n - 1] == 0
  {
    ShufflePermutesPrefix(SolvedBoard(n), n - 1, draws);
    SolvedBoardAt(n, n - 1);
    ShuffleFrom(SolvedBoard(n), n - 1, draws)
  }

  /** Every dealt board is an arrangement of 0 .. n-1. */
  lemma DealIsArrangement(n: nat, draws: seq<int>)
    requires n >= 1 && ValidDraws(n - 1, draws)
    ensures IsArrangement(Deal(n, draws))
  {
    ShufflePermutesPrefix(SolvedBoard(n), n - 1, draws);
    SolvedBoardIsArrangement(n);
  }

  /** Drawing r = n - 1 at every pass exchanges each cell with itself, so the
      shuffle can leave the board as it is. */
  lemma {:induction false} SelfDrawsKeepBoard(s: seq<int>, n: int, draws: seq<int>)
    requires 0 <= n <= |s| && ValidDraws(n, draws)
    requires forall k :: 0 <= k < |draws| ==> draws[k] == n - 1 - k
    ensures ShuffleFrom(s, n, draws) == s
    decreases n
  {
    if n > 1 {
      assert Swap(s, draws[0], n - 1) == s;
      SelfDrawsKeepBoard(s, n - 1, draws[1..]);
    }
  }

  /** The attempts the retry loop of `newGame()` may consume, each a valid
      set of draws for the nbTiles = n - 1 tiles. */
  predicate ValidAttempts(n: nat, attempts: seq<seq<int>>)
  {
    n >= 1 && forall a :: 0 <= a < |attempts| ==> ValidDraws(n - 1, attempts[a])
  }

  /** Some attempt deals a board that passes the parity rule: what the retry
      loop needs in order to stop. */
  ghost predicate SomeAttemptSolvable(n: nat, attempts: seq<seq<int>>)
    requires ValidAttempts(n, attempts)
  {
    exists a :: 0 <= a < |attempts| && Solvable(Deal(n, attempts[a]), n - 1)
  }

  /** The retry loop can always stop: when every draw picks the cell being
      swapped with, the deal is the solved layout, which passes the parity
      rule. So the requirement of `NewGame` can be met for every board. */
  lemma SelfDrawsAttemptSolvable(n: nat)
    requires n >= 1
    ensures var d := seq(if n > 2 then n - 2 else 0, k => n - 2 - k);
            ValidAttempts(n, [d]) && SomeAttemptSolvable(n, [d]) && Deal(n, d) == SolvedBoard(n)
  {
    var d := seq(if n > 2 then n - 2 else 0, k => n - 2 - k);
    assert ValidDraws(n - 1, d);
    SelfDrawsKeepBoard(SolvedBoard(n), n - 1, d);
    SolvedBoardIsSolvable(n);
    assert Solvable(Deal(n, [d][0]), n - 1);
  }
}
