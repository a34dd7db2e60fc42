/** Values of a 15-puzzle board: the solved layout, what it means for a board
    to hold every tile exactly once, the goal test and the inversion count
    that decides solvability. A board of `n` cells is a `seq<int>` of length
    `n` in row-major order; the value 0 is the blank. */
module Board {

  /** The layout `reset()` writes: cell i holds (i + 1) mod n, so the tiles
      1 .. n-1 come in order and the blank sits in the last cell. */
  function SolvedBoard(n: nat): (r: seq<int>)
    ensures |r| == n
    ensures n > 0 ==> r[n - 1] == 0
  {
    seq(n, i requires 0 <= i < n => (i + 1) % n)
  }

  /** 0, 1, ..., n-1: the values a board of n cells must hold. */
  function Range(n: nat): seq<int>
  {
    seq(n, i => i)
  }

  /** The board holds each of 0 .. |s|-1 exactly once, in some order. */
  ghost predicate IsArrangement(s: seq<int>)
  {
    multiset(s) == multiset(Range(|s|))
  }

  lemma ModBelow(a: int, n: int)
    requires 0 <= a < n
    ensures a % n == a
  {
  }

  /** Cell by cell, the solved layout is 1, 2, ..., n-1 followed by the blank. */
  lemma SolvedBoardAt(n: nat, i: int)
    requires 0 <= i < n
    ensures SolvedBoard(n)[i] == if i == n - 1 then 0 else i + 1
  {
    if i < n - 1 {
      ModBelow(i + 1, n);
    }
  }

  /** The solved layout holds every value 0 .. n-1 exactly once. */
  lemma SolvedBoardIsArrangement(n: nat)
    ensures IsArrangement(SolvedBoard(n))
  {
    if n > 0 {
      var tail := seq(n - 1, i => i + 1);
      forall i | 0 <= i < n
        ensures SolvedBoard(n)[i] == (tail + [0])[i]
      {
        SolvedBoardAt(n, i);
      }
      assert SolvedBoard(n) == tail + [0];
      assert Range(n) == [0] + tail;
    }
  }

  /** The goal test of `isSolved()`, read as the loop reads it: the last cell
      is the blank and every other cell i holds i + 1, exactly when the board
      is the solved layout. */
  lemma {:induction false} GoalTest(s: seq<int>)
    requires |s| > 0
    ensures (s[|s| - 1] == 0 && forall i :: 0 <= i < |s| - 1 ==> s[i] == i + 1)
            <==> s == SolvedBoard(|s|)
  {
    var n := |s|;
    if s[n - 1] == 0 && forall i :: 0 <= i < n - 1 ==> s[i] == i + 1 {
      forall i | 0 <= i < n
        ensures s[i] == SolvedBoard(n)[i]
      {
        SolvedBoardAt(n, i);
      }
    }
    if s == SolvedBoard(n) {
      SolvedBoardAt(n, n - 1);
      forall i | 0 <= i < n - 1
        ensures s[i] == i + 1
      {
        SolvedBoardAt(n, i);
      }
    }
  }

  /** Exchanging any two distinct cells of the solved layout unsolves it. */
  lemma {:induction false} TranspositionUnsolves(n: nat, i: int, j: int)
    requires 0 <= i < j < n
    ensures SolvedBoard(n)[i := SolvedBoard(n)[j]][j := SolvedBoard(n)[i]] != SolvedBoard(n)
  {
    SolvedBoardAt(n, i);
    SolvedBoardAt(n, j);
    var t := SolvedBoard(n)[i := SolvedBoard(n)[j]][j := SolvedBoard(n)[i]];
    assert t[i] != SolvedBoard(n)[i];
  }

  /** Every value below n occurs once in Range(n), and no other value occurs. */
  lemma {:induction false} RangeCount(n: nat, v: int)
    ensures multiset(Range(n))[v] == if 0 <= v < n then 1 else 0
  {
    if n > 0 {
      assert Range(n) == Range(n - 1) + [n - 1];
      RangeCount(n - 1, v);
      if v == n - 1 {
        RangeCount(n - 1, n - 1);
      }
    }
  }

  /** On an arrangement, the blank found at b is the only blank. */
  lemma {:induction false} BlankIsUnique(s: seq<int>, b: int, q: int)
    requires IsArrangement(s)
    requires 0 <= b < |s| && 0 <= q < |s|
    requires s[b] == 0 && s[q] == 0
    ensures b == q
  {
    if b != q {
      var i, j := if b < q then b else q, if b < q then q else b;
      assert s == s[..j] + s[j..];
      assert s[i] in s[..j];
      assert s[j] in s[j..];
      assert multiset(s)[0] == multiset(s[..j])[0] + multiset(s[j..])[0];
      RangeCount(|s|, 0);
      assert false;
    }
  }

  /** Number of the first k cells that hold a value greater than v. */
  function CountAbove(s: seq<int>, v: int, k: nat): (r: nat)
    requires k <= |s|
    ensures r <= k
  {
    if k == 0 then 0 else CountAbove(s, v, k - 1) + (if s[k - 1] > v then 1 else 0)
  }

  /** The inversion count `isSolvable()` accumulates over the first m cells:
      for every i < m, the number of j < i with s[j] > s[i]. */
  function Inversions(s: seq<int>, m: nat): (r: nat)
    requires m <= |s|
    ensures 2 * r <= m * (m - 1)
  {
    if m == 0 then 0 else Inversions(s, m - 1) + CountAbove(s, s[m - 1], m - 1)
  }

  /** The inversions themselves: the pairs j < i < m whose values are out of order. */
  ghost function InversionPairs(s: seq<int>, m: nat): set<(int, int)>
    requires m <= |s|
  {
    set j, i | 0 <= j < i < m && s[j] > s[i] :: (j, i)
  }

  /** The parity rule of `isSolvable()` over the first m cells. */
  predicate Solvable(s: seq<int>, m: nat)
    requires m <= |s|
  {
    Inversions(s, m) % 2 == 0
  }

  ghost function AbovePairs(s: seq<int>, i: int, k: nat): set<(int, int)>
    requires 0 <= i < |s| && k <= |s|
  {
    set j | 0 <= j < k && s[j] > s[i] :: (j, i)
  }

  lemma {:induction false} CountAboveCountsPairs(s: seq<int>, i: int, k: nat)
    requires 0 <= i < |s| && k <= |s|
    ensures CountAbove(s, s[i], k) == |AbovePairs(s, i, k)|
  {
    if k > 0 {
      CountAboveCountsPairs(s, i, k - 1);
      var prev := AbovePairs(s, i, k - 1);
      if s[k - 1] > s[i] {
        assert AbovePairs(s, i, k) == prev + {(k - 1, i)};
        assert (k - 1, i) !in prev;
      } else {
        assert AbovePairs(s, i, k) == prev;
      }
    }
  }

  /** The inversions among the first m cells are those among the first
      m - 1 together with the pairs that end at cell m - 1; the two parts share nothing. */
  lemma InversionPairsSplit(s: seq<int>, m: nat)
    requires 0 < m <= |s|
    ensures InversionPairs(s, m) == InversionPairs(s, m - 1) + AbovePairs(s, m - 1, m - 1)
    ensures InversionPairs(s, m - 1) !! AbovePairs(s, m - 1, m - 1)
  {
    var prev := InversionPairs(s, m - 1);
    var last := AbovePairs(s, m - 1, m - 1);
    forall p | p in InversionPairs(s, m)
      ensures p in prev + last
    {
      if p.1 < m - 1 {
        assert p in prev;
      } else {
        assert p in last;
      }
    }
    forall p | p in prev + last
      ensures p in InversionPairs(s, m)
    {
    }
    forall p | p in prev
      ensures p !in last
    {
    }
  }

  lemma DisjointUnionSize(a: set<(int, int)>, b: set<(int, int)>)
    requires a !! b
    ensures |a + b| == |a| + |b|
  {
  }

  /** The counter of `isSolvable()` is the number of inversion pairs. */
  lemma {:induction false} InversionsCountPairs(s: seq<int>, m: nat)
    requires m <= |s|
    ensures Inversions(s, m) == |InversionPairs(s, m)|
  {
    if m > 0 {
      var prev, last := InversionPairs(s, m - 1), AbovePairs(s, m - 1, m - 1);
      assert Inversions(s, m - 1) == |prev| by {
        InversionsCountPairs(s, m - 1);
      }
      assert CountAbove(s, s[m - 1], m - 1) == |last| by {
        CountAboveCountsPairs(s, m - 1, m - 1);
      }
      assert |InversionPairs(s, m)| == |prev| + |last| by {
        InversionPairsSplit(s, m);
        DisjointUnionSize(prev, last);
      }
    }
  }

  /** A board is solvable by the parity rule iff it has an even number of
      out-of-order pairs among its first m cells. */
  lemma SolvableIffEvenPairs(s: seq<int>, m: nat)
    requires m <= |s|
    ensures Solvable(s, m) <==> |InversionPairs(s, m)| % 2 == 0
  {
    InversionsCountPairs(s, m);
  }

  /** No inversions at all exactly when the first m cells are in ascending order. */
  lemma NoInversionsIffSorted(s: seq<int>, m: nat)
    requires m <= |s|
    ensures Inversions(s, m) == 0 <==> forall j, i :: 0 <= j < i < m ==> s[j] <= s[i]
  {
    InversionsCountPairs(s, m);
    if Inversions(s, m) == 0 {
      assert InversionPairs(s, m) == {};
    } else {
      var p :| p in InversionPairs(s, m);
    }
  }

  /** The layout `reset()` produces has no inversions among the tiles, so it
      passes the parity rule. */
  lemma SolvedBoardIsSolvable(n: nat)
    requires n > 0
    ensures Inversions(SolvedBoard(n), n - 1) == 0
    ensures Solvable(SolvedBoard(n), n - 1)
  {
    forall j, i | 0 <= j < i < n - 1
      ensures SolvedBoard(n)[j] <= SolvedBoard(n)[i]
    {
      SolvedBoardAt(n, j);
      SolvedBoardAt(n, i);
    }
    NoInversionsIffSorted(SolvedBoard(n), n - 1);
  }
}
