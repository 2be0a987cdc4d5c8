/**
 * The two board measures `shuffleBoard` uses to accept a shuffle: the difficulty band
 * (Manhattan distance and out-of-place count) and the inversion-parity test.
 */
module Difficulty {
  import opened Board

  /** Grid distance from position `i` to the home of the tile it holds; the blank counts 0. */
  function Distance(t: seq<int>, i: int): nat
    requires 0 <= i < |t|
  {
    if t[i] == 0 then 0
    else
      var here, home := Position(i), Position(t[i] - 1);
      Abs(here.row - home.row) + Abs(here.col - home.col)
  }

  /** Sum of `Distance` over the first `k` positions. */
  function Manhattan(t: seq<int>, k: int): nat
    requires 0 <= k <= |t|
  {
    if k == 0 then 0 else Manhattan(t, k - 1) + Distance(t, k - 1)
  }

  /** Number of picture tiles among the first `k` positions that are not at home. */
  function OutOfPlace(t: seq<int>, k: int): nat
    requires 0 <= k <= |t|
  {
    if k == 0 then 0
    else OutOfPlace(t, k - 1) + (if t[k - 1] != 0 && t[k - 1] != k then 1 else 0)
  }

  /**
   * `isTooDifficult`, with the thresholds `size * 0.4` and `size * 0.6` kept as exact
   * rationals: an integer count is below 4.8 iff it is at most 4, above 7.2 iff at least 8.
   */
  predicate TooDifficult(t: seq<int>) {
    var md, oop := Manhattan(t, |t|), OutOfPlace(t, |t|);
    md < 25 || md > 45 || 10 * oop < 4 * Size || 10 * oop > 6 * Size
  }

  /** `isTooDifficult` as the loop the source runs; it accepts exactly the band below. */
  method IsTooDifficult(t: seq<int>) returns (tooHard: bool)
    ensures tooHard == TooDifficult(t)
    ensures !tooHard <==> 25 <= Manhattan(t, |t|) <= 45 && 5 <= OutOfPlace(t, |t|) <= 7
  {
    var outOfPlace, manhattan := 0, 0;
    for i := 0 to |t|
      invariant manhattan == Manhattan(t, i) && outOfPlace == OutOfPlace(t, i)
    {
      if t[i] != 0 {
        var here, home := Position(i), Position(t[i] - 1);
        manhattan := manhattan + Abs(here.row - home.row) + Abs(here.col - home.col);
        if t[i] != i + 1 {
          outOfPlace := outOfPlace + 1;
        }
      }
    }
    tooHard := manhattan < 25 || manhattan > 45 || 10 * outOfPlace < 4 * Size || 10 * outOfPlace > 6 * Size;
  }

  /** Tiles already at home contribute neither distance nor out-of-place count. */
  lemma {:induction false} HomePrefixMeasures(t: seq<int>, k: int)
    requires 0 <= k <= |t|
    requires forall i :: 0 <= i < k ==> t[i] == i + 1
    ensures Manhattan(t, k) == 0 && OutOfPlace(t, k) == 0
  {
    if k > 0 {
      HomePrefixMeasures(t, k - 1);
      assert Position(k - 1) == Position(t[k - 1] - 1);
    }
  }

  /** The solved board lies outside the band, so a shuffle that leaves it solved is retried. */
  lemma InitialBoardTooDifficult()
    ensures TooDifficult(InitialBoard())
  {
    var b := InitialBoard();
    HomePrefixMeasures(b, Size - 1);
  }

  /**
   * On a board with one blank, every position either holds the blank, a tile at home or
   * a tile out of place: `OutOfPlace` and `CorrectCount` split the eleven picture tiles.
   */
  lemma {:induction false} OutOfPlacePlusCorrect(t: seq<int>, k: int)
    requires 0 <= k <= |t|
    ensures OutOfPlace(t, k) + CorrectCount(t[..k]) + multiset(t[..k])[0] == k
  {
    if k > 0 {
      OutOfPlacePlusCorrect(t, k - 1);
      assert t[..k] == t[..k - 1] + [t[k - 1]];
      assert t[..k][..k - 1] == t[..k - 1];
    }
  }

  /** For a real board the out-of-place count is eleven minus the tiles at home. */
  lemma OutOfPlaceOfValidBoard(t: seq<int>)
    requires ValidBoard(t)
    ensures OutOfPlace(t, |t|) == Size - 1 - CorrectCount(t)
  {
    ValidBoardFacts(t);
    OutOfPlacePlusCorrect(t, |t|);
    assert t[..|t|] == t;
  }

  // ----- inversion parity (`isSolvable`) -----

  /** 1 when `x` and `y` are both picture tiles and `x > y`: one inversion. */
  function Inverted(x: int, y: int): nat {
    if x != 0 && y != 0 && x > y then 1 else 0
  }

  /** Number of picture tiles in `s` smaller than the picture tile `x`. */
  function Above(x: int, s: seq<int>): nat {
    if |s| == 0 then 0 else Inverted(x, s[0]) + Above(x, s[1..])
  }

  /** Inversions among the picture tiles of `s`; the blank is ignored. */
  function Inversions(s: seq<int>): nat {
    if |s| == 0 then 0 else Above(s[0], s[1..]) + Inversions(s[1..])
  }

  /** The inner loop of `isSolvable`: inversions the tile at `i` forms with later tiles. */
  method CountAbove(t: seq<int>, i: int) returns (count: nat)
    requires 0 <= i < |t|
    ensures count == Above(t[i], t[i + 1..])
  {
    count := 0;
    for j := i + 1 to |t|
      invariant count == Above(t[i], t[i + 1..j])
    {
      assert t[i + 1..j + 1] == t[i + 1..j] + [t[j]];
      AboveAppend(t[i], t[i + 1..j], [t[j]]);
      if t[i] != 0 && t[j] != 0 && t[i] > t[j] {
        count := count + 1;
      }
    }
    assert t[i + 1..|t|] == t[i + 1..];
  }

  /** `isSolvable`: the nested loops of the source count exactly `Inversions`. */
  method IsSolvable(t: seq<int>) returns (solvable: bool)
    ensures solvable <==> Inversions(t) % 2 == 0
  {
    var inversions := 0;
    var i := 0;
    while i < |t| - 1
      invariant 0 <= i <= |t|
      invariant i > 0 ==> i <= |t| - 1
      invariant inversions + Inversions(t[i..]) == Inversions(t)
    {
      assert t[i..][1..] == t[i + 1..];
      var count := CountAbove(t, i);
      inversions := inversions + count;
      i := i + 1;
    }
    assert Inversions(t[i..]) == 0 by {
      assert |t[i..]| <= 1;
      if |t[i..]| == 1 {
        assert t[i..][1..] == [];
      }
    }
    solvable := inversions % 2 == 0;
  }

  /** Counting against a concatenation adds the two counts. */
  lemma {:induction false} AboveAppend(x: int, a: seq<int>, b: seq<int>)
    ensures Above(x, a + b) == Above(x, a) + Above(x, b)
  {
    if |a| > 0 {
      assert (a + b)[1..] == a[1..] + b;
      AboveAppend(x, a[1..], b);
    } else {
      assert a + b == b;
    }
  }

  /** Exchanging two neighbouring entries of `s` at `k` and `k + 1`. */
  function SwapNext(s: seq<int>, k: int): seq<int>
    requires 0 <= k < |s| - 1
  {
    s[..k] + [s[k + 1], s[k]] + s[k + 2..]
  }

  lemma SwapNextIsSwap(s: seq<int>, k: int)
    requires 0 <= k < |s| - 1
    ensures SwapNext(s, k) == Swap(s, k, k + 1)
  {
  }

  /** Reordering two neighbours does not change how many tiles lie below `x`. */
  lemma AboveSwapNext(x: int, s: seq<int>, k: int)
    requires 0 <= k < |s| - 1
    ensures Above(x, SwapNext(s, k)) == Above(x, s)
  {
    assert s == s[..k] + [s[k], s[k + 1]] + s[k + 2..];
    AboveAppend(x, s[..k] + [s[k], s[k + 1]], s[k + 2..]);
    AboveAppend(x, s[..k], [s[k], s[k + 1]]);
    AboveAppend(x, s[..k] + [s[k + 1], s[k]], s[k + 2..]);
    AboveAppend(x, s[..k], [s[k + 1], s[k]]);
    assert [s[k], s[k + 1]][..1] == [s[k]];
    assert [s[k + 1], s[k]][..1] == [s[k + 1]];
  }

  /**
   * Sliding the blank sideways swaps it with a neighbour in the row-major order, and
   * the blank takes part in no inversion: `isSolvable` is unchanged by a horizontal move.
   */
  lemma {:induction false} InversionsSwapBlank(s: seq<int>, k: int)
    requires 0 <= k < |s| - 1
    requires s[k] == 0 || s[k + 1] == 0
    ensures Inversions(SwapNext(s, k)) == Inversions(s)
  {
    var r := SwapNext(s, k);
    if k == 0 {
      var u := s[2..];
      assert s[1..] == [s[1]] + u && s[1..][1..] == u;
      assert r[1..] == [s[0]] + u && r[1..][1..] == u;
      AboveAppend(s[0], [s[1]], u);
      AboveAppend(s[1], [s[0]], u);
      assert [s[1]][..0] == [] && [s[0]][..0] == [];
    } else {
      assert r[1..] == SwapNext(s[1..], k - 1);
      InversionsSwapBlank(s[1..], k - 1);
      AboveSwapNext(s[0], s[1..], k - 1);
    }
  }

  /** A horizontal move of the blank keeps the result of `isSolvable`. */
  lemma HorizontalMoveKeepsParity(t: seq<int>, e: int, j: int)
    requires |t| == Size && 0 <= e < Size && t[e] == 0
    requires 0 <= j < Size && Adjacent(e, j) && Position(e).row == Position(j).row
    ensures Inversions(Swap(t, e, j)) == Inversions(t)
  {
    SameRowNeighbour(e, j);
    if j == e + 1 {
      InversionsSwapBlank(t, e);
      SwapNextIsSwap(t, e);
    } else {
      assert j == e - 1;
      InversionsSwapBlank(t, j);
      SwapNextIsSwap(t, j);
      SwapSymmetric(t, j, e);
    }
  }

  /** Neighbours in one row are next to each other in the row-major order. */
  lemma SameRowNeighbour(e: int, j: int)
    requires 0 <= e < Size && 0 <= j < Size && Adjacent(e, j) && Position(e).row == Position(j).row
    ensures j == e + 1 || j == e - 1
  {
  }

  lemma SwapSymmetric(t: seq<int>, i: int, j: int)
    requires 0 <= i < |t| && 0 <= j < |t|
    ensures Swap(t, i, j) == Swap(t, j, i)
  {
  }

  /** A tile forming no inversion with any later tile counts nothing. */
  lemma {:induction false} AboveNone(x: int, s: seq<int>)
    requires forall k :: 0 <= k < |s| ==> Inverted(x, s[k]) == 0
    ensures Above(x, s) == 0
  {
    if |s| > 0 {
      AboveNone(x, s[1..]);
    }
  }
  /** With no inversion across the cut, the inversions of the two halves add up. */
  lemma {:induction false} InversionsAppend(p: seq<int>, q: seq<int>)
    requires forall i, j :: 0 <= i < |p| && 0 <= j < |q| ==> Inverted(p[i], q[j]) == 0
    ensures Inversions(p + q) == Inversions(p) + Inversions(q)
  {
    if |p| == 0 {
      assert p + q == q;
    } else {
      assert (p + q)[1..] == p[1..] + q;
      AboveAppend(p[0], p[1..], q);
      AboveNone(p[0], q);
      InversionsAppend(p[1..], q);
    }
  }
  /** A sequence with no inverted pair has no inversions. */
  lemma {:induction false} NoInversions(s: seq<int>)
    requires forall i, j :: 0 <= i < j < |s| ==> Inverted(s[i], s[j]) == 0
    ensures Inversions(s) == 0
  {
    if |s| > 0 {
      AboveNone(s[0], s[1..]);
      NoInversions(s[1..]);
    }
  }
  /** The initial board passes `isSolvable`. */
  lemma InitialBoardSolvable()
    ensures Inversions(InitialBoard()) == 0
  {
    NoInversions(InitialBoard());
  }

  /** The board one vertical move away from solved: tile 8 moved down under the blank. */
  lemma OneVerticalMove()
    ensures Swap(InitialBoard(), 7, 11) == Ascending(7) + [0] + [9, 10, 11, 8]
  {
  }

  /** That board is a real board. */
  lemma OneVerticalMoveValid()
    ensures ValidBoard(Swap(InitialBoard(), 7, 11))
  {
    InitialBoardValid();
    SwapPermutes(InitialBoard(), 7, 11);
  }

  lemma FourTileInversions()
    ensures Inversions([9, 10, 11, 8]) == 3
  {
    assert Inversions([11, 8]) == 1;
  }

  /**
   * `isSolvable` ignores the row of the blank, which is not the parity rule for a grid of
   * even width: the board one vertical move of the blank away from solved (so certainly
   * solvable) has three inversions and is rejected.
   */
  lemma OneVerticalMoveRejected()
    ensures var t := Swap(InitialBoard(), 7, 11);
      t[7] == 0 && Adjacent(7, 11) && Inversions(t) == 3
  {
    OneVerticalMove();
    BelowIsAdjacent(7);
    OneVerticalMoveInversions(Swap(InitialBoard(), 7, 11));
  }

  /** The board one vertical move from solved has three inversions, all among its last four tiles. */
  lemma OneVerticalMoveInversions(t: seq<int>)
    requires t == Ascending(7) + [0] + [9, 10, 11, 8]
    ensures Inversions(t) == 3
  {
    var p, q := Ascending(7) + [0], [9, 10, 11, 8];
    assert forall j :: 0 <= j < |q| ==> q[j] >= 8;
    NoInversions(p);
    InversionsAppend(p, q);
    FourTileInversions();
  }
}
