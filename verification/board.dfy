/**
 * The 3 x 4 sliding-puzzle grid: a board is a sequence of twelve tile values in row-major
 * order, 1..11 for the picture tiles and 0 for the blank.
 */
module Board {

  const Rows: int := 3
  const Cols: int := 4
  const Size: int := Rows * Cols

  /** The tile values 0..n-1, each once. */
  function Tiles(n: nat): (m: multiset<int>)
    ensures |m| == n
  {
    if n == 0 then multiset{} else Tiles(n - 1) + multiset{n - 1}
  }

  lemma {:induction false} TilesMembers(n: nat, v: int)
    ensures v in Tiles(n) <==> 0 <= v < n
    ensures 0 <= v < n ==> Tiles(n)[v] == 1
  {
    if n > 0 {
      TilesMembers(n - 1, v);
    }
  }

  /** A permutation of 0..11: exactly one blank and every picture tile once. */
  predicate ValidBoard(t: seq<int>) {
    |t| == Size && multiset(t) == Tiles(|t|)
  }

  lemma ValidBoardFacts(t: seq<int>)
    requires ValidBoard(t)
    ensures |t| == Size
    ensures 0 in t
    ensures forall i :: 0 <= i < |t| ==> 0 <= t[i] < Size
    ensures multiset(t)[0] == 1
  {
    assert |multiset(t)| == |t|;
    forall i | 0 <= i < |t| ensures 0 <= t[i] < Size {
      assert t[i] in multiset(t);
      TilesMembers(Size, t[i]);
    }
    TilesMembers(Size, 0);
  }

  /** JavaScript's `%`: the remainder takes the sign of the dividend. */
  function JsRem(a: int, b: int): (r: int)
    requires b > 0
    ensures -b < r < b
    ensures a >= 0 ==> r == a % b
    ensures a <= 0 ==> r <= 0
  {
    if a >= 0 then a % b else -((-a) % b)
  }

  datatype Pos = Pos(row: int, col: int)

  /**
   * `getPosition`: row `Math.floor(i / cols)`, column `i % cols`. Dafny's `/` by a
   * positive divisor already floors; the column uses the truncating remainder, which
   * matters for the index -1 that `indexOf` returns for a missing value.
   */
  function Position(i: int): (p: Pos)
    ensures 0 <= i < Size ==> 0 <= p.row < Rows && 0 <= p.col < Cols && i == p.row * Cols + p.col
    ensures i < 0 ==> p.row < 0 && p.col <= 0
  {
    Pos(i / Cols, JsRem(i, Cols))
  }

  function Abs(x: int): nat {
    if x < 0 then -x else x
  }

  /** `isAdjacent`: the grid positions are at Manhattan distance one. */
  predicate Adjacent(i: int, j: int) {
    var p, q := Position(i), Position(j);
    Abs(p.row - q.row) + Abs(q.col - p.col) == 1
  }

  /** Adjacency is symmetric. */
  lemma AdjacentSymmetric(i: int, j: int)
    ensures Adjacent(i, j) <==> Adjacent(j, i)
  {
  }

  /** A position and the one a row below it are neighbours. */
  lemma BelowIsAdjacent(i: int)
    requires 0 <= i < Size - Cols
    ensures Adjacent(i, i + Cols)
  {
    assert (i + Cols) / Cols == i / Cols + 1;
    assert (i + Cols) % Cols == i % Cols;
  }

  /** An index that `indexOf` can return (-1 or a position of the board) is never adjacent to -1. */
  lemma NotAdjacentToMissing(j: int)
    requires j >= -1
    ensures !Adjacent(-1, j) && !Adjacent(j, -1)
  {
  }

  /**
   * `getValidMoves`: the in-grid neighbours of the blank at `e`, in the order
   * up, down, left, right. No wrap-around between the end of one row and the next.
   */
  function ValidMoves(e: int): (moves: seq<int>)
    ensures |moves| <= 4
    ensures 0 <= e < Size ==> 2 <= |moves|
    ensures 2 <= |moves| ==> moves[0] != moves[1]
  {
    var row, col := e / Cols, JsRem(e, Cols);
    var up := if row > 0 then [e - Cols] else [];
    var down := if row < Rows - 1 then [e + Cols] else [];
    var left := if col > 0 then [e - 1] else [];
    var right := if col < Cols - 1 then [e + 1] else [];
    up + down + left + right
  }

  /** Every valid move stays inside the grid and is a neighbour of the blank. */
  lemma ValidMovesInGrid(e: int)
    requires 0 <= e < Size
    ensures forall k :: 0 <= k < |ValidMoves(e)| ==> 0 <= ValidMoves(e)[k] < Size && Adjacent(e, ValidMoves(e)[k])
  {
  }

  /** Every in-grid neighbour of the blank is among its valid moves. */
  lemma NeighboursAreValidMoves(e: int, j: int)
    requires 0 <= e < Size && 0 <= j < Size
    ensures j in ValidMoves(e) <==> Adjacent(e, j)
  {
    ValidMovesInGrid(e);
    var p, q := Position(e), Position(j);
    if Adjacent(e, j) {
      if p.row == q.row + 1 {
        assert j == e - Cols;
      } else if q.row == p.row + 1 {
        assert j == e + Cols;
      } else if p.col == q.col + 1 {
        assert j == e - 1;
      } else {
        assert j == e + 1;
      }
    }
  }

  /** `s.filter(x => x !== v)`. */
  function Without(s: seq<int>, v: int): (r: seq<int>)
    ensures forall x :: x in r <==> x in s && x != v
    ensures |r| <= |s|
  {
    if |s| == 0 then []
    else
      var rest := Without(s[1..], v);
      assert forall x :: x in s <==> x == s[0] || x in s[1..];
      if s[0] == v then rest else [s[0]] + rest
  }

  /**
   * The moves a random walk may take from `e` when the blank was previously at `last`:
   * the valid moves without the immediate reverse.
   */
  function Candidates(e: int, last: int): (c: seq<int>)
    ensures 0 <= e < Size ==> 1 <= |c|
    ensures 0 <= e < Size ==> forall j :: j in c <==> 0 <= j < Size && Adjacent(e, j) && j != last
  {
    ValidMovesExact(e);
    var m := ValidMoves(e);
    var c := Without(m, last);
    assert 0 <= e < Size ==> m[0] in c || m[1] in c;
    c
  }

  /** For a blank inside the grid, the valid moves are exactly its in-grid neighbours. */
  lemma ValidMovesExact(e: int)
    ensures 0 <= e < Size ==> forall j :: j in ValidMoves(e) <==> 0 <= j < Size && Adjacent(e, j)
  {
    if 0 <= e < Size {
      forall j | 0 <= j < Size ensures j in ValidMoves(e) <==> Adjacent(e, j) {
        NeighboursAreValidMoves(e, j);
      }
    }
  }

  /** Exchanging the tiles at two positions. */
  function Swap(t: seq<int>, i: int, j: int): (r: seq<int>)
    requires 0 <= i < |t| && 0 <= j < |t|
    ensures |r| == |t| && r[i] == t[j] && r[j] == t[i]
    ensures forall k :: 0 <= k < |t| && k != i && k != j ==> r[k] == t[k]
  {
    t[i := t[j]][j := t[i]]
  }

  /** A swap rearranges the tiles without changing them; on a real board it keeps it real. */
  lemma SwapPermutes(t: seq<int>, i: int, j: int)
    requires 0 <= i < |t| && 0 <= j < |t|
    ensures multiset(Swap(t, i, j)) == multiset(t)
    ensures ValidBoard(t) ==> ValidBoard(Swap(t, i, j))
  {
  }

  /** Swapping the same two positions again undoes a swap. */
  lemma SwapUndo(t: seq<int>, i: int, j: int)
    requires 0 <= i < |t| && 0 <= j < |t|
    ensures Swap(Swap(t, i, j), j, i) == t
  {
    var r := Swap(Swap(t, i, j), j, i);
    assert forall k :: 0 <= k < |t| ==> r[k] == t[k];
  }

  /** `t.indexOf(v)`: the first position holding `v`, or -1. */
  function IndexOf(t: seq<int>, v: int): (r: int)
    ensures -1 <= r < |t|
    ensures r == -1 <==> v !in t
    ensures r >= 0 ==> t[r] == v && v !in t[..r]
  {
    if |t| == 0 then -1
    else if t[0] == v then 0
    else
      var r := IndexOf(t[1..], v);
      assert t[1..][..if r >= 0 then r else 0] == t[1..if r >= 0 then r + 1 else 1];
      assert r >= 0 ==> t[..r + 1] == [t[0]] + t[1..][..r];
      if r == -1 then -1 else r + 1
  }

  /** A full-size board with a blank somewhere: what a random walk needs to start. */
  predicate HasBlank(t: seq<int>) {
    |t| == Size && 0 in t
  }

  /** `tiles.indexOf(0)` on a board with a blank: its first blank position. */
  function Blank(t: seq<int>): (e: int)
    requires HasBlank(t)
    ensures 0 <= e < Size && t[e] == 0
  {
    IndexOf(t, 0)
  }

  /** The picture tiles 1..n in order. */
  function Ascending(n: nat): (s: seq<int>)
    ensures |s| == n && forall i :: 0 <= i < n ==> s[i] == i + 1
  {
    seq(n, i => i + 1)
  }

  lemma {:induction false} AscendingTiles(n: nat)
    ensures multiset(Ascending(n)) + multiset{0} == Tiles(n + 1)
  {
    if n > 0 {
      AscendingTiles(n - 1);
      assert Ascending(n) == Ascending(n - 1) + [n];
    }
  }

  /** `setupInitialBoard`: tiles 1..11 in order followed by the blank. */
  function InitialBoard(): (b: seq<int>)
    ensures |b| == Size && IsSolved(b) && b[Size - 1] == 0
  {
    Ascending(Size - 1) + [0]
  }

  /** The initial board holds every tile once. */
  lemma InitialBoardValid()
    ensures ValidBoard(InitialBoard())
  {
    AscendingTiles(Size - 1);
  }

  /** `isSolved`: every position but the last holds its own number. */
  predicate IsSolved(t: seq<int>) {
    forall i :: 0 <= i < |t| - 1 ==> t[i] == i + 1
  }

  /**
   * On a real board, being solved means being the initial board: the blank cannot sit
   * among the first eleven positions, so it is last.
   */
  lemma SolvedIsInitial(t: seq<int>)
    requires ValidBoard(t)
    ensures IsSolved(t) <==> t == InitialBoard()
  {
    ValidBoardFacts(t);
    var b := InitialBoard();
    if IsSolved(t) {
      var k :| 0 <= k < |t| && t[k] == 0;
      assert k == Size - 1;
      assert forall i :: 0 <= i < Size ==> t[i] == b[i];
    }
  }

  /** Number of positions `i` holding `i + 1`: the tiles in their solved place. */
  function CorrectCount(t: seq<int>): (n: nat)
    ensures n <= |t|
  {
    if |t| == 0 then 0
    else CorrectCount(t[..|t| - 1]) + (if t[|t| - 1] == |t| then 1 else 0)
  }

  /**
   * On a real board at most eleven tiles are in place, since the last position would
   * need a tile 12; a solved board has all eleven.
   */
  lemma {:induction false} CorrectCountOfValidBoard(t: seq<int>)
    requires ValidBoard(t)
    ensures CorrectCount(t) <= Size - 1
    ensures IsSolved(t) ==> CorrectCount(t) == Size - 1
  {
    ValidBoardFacts(t);
    assert t[Size - 1] != Size;
    assert t[..|t| - 1] == t[..Size - 1];
    if IsSolved(t) {
      CorrectCountOfPrefix(t, Size - 1);
    }
  }

  lemma {:induction false} CorrectCountOfPrefix(t: seq<int>, k: nat)
    requires k <= |t| && forall i :: 0 <= i < k ==> t[i] == i + 1
    ensures CorrectCount(t[..k]) == k
  {
    if k > 0 {
      assert t[..k][..k - 1] == t[..k - 1];
      CorrectCountOfPrefix(t, k - 1);
    }
  }
}
