/**
 * `shuffle` and `shuffleBoard`: a random walk of the blank that never steps straight back,
 * repeated until the board passes the parity and difficulty tests or ten walks were made.
 * `Math.random` is replaced by an oracle `draw`: the `k`-th random choice among `n`
 * candidates picks index `draw(k) % n`.
 */
module Shuffle {
  import opened Board
  import opened Difficulty

  /** Steps in one `shuffle` call. */
  const MaxShuffles: nat := 200

  /** Walks `shuffleBoard` makes at most. */
  const MaxAttempts: nat := 10

  /** Every position of `path` lies in the grid. */
  predicate InGrid(path: seq<int>) {
    forall i :: 0 <= i < |path| ==> 0 <= path[i] < Size
  }

  /**
   * `path` is a walk of the blank inside the grid whose every step goes to a neighbour
   * other than the position the blank came from; before `path[0]` it was at `last`.
   */
  predicate NoBacktrack(path: seq<int>, last: int) {
    1 <= |path| && InGrid(path)
    && (forall i :: 1 <= i < |path| ==> Adjacent(path[i - 1], path[i]))
    && (|path| > 1 ==> path[1] != last)
    && (forall i :: 2 <= i < |path| ==> path[i] != path[i - 2])
  }

  /** The board after sliding the blank along `path`: one swap per step. */
  function ApplyWalk(t: seq<int>, path: seq<int>): (r: seq<int>)
    requires |t| == Size && InGrid(path)
    ensures |r| == Size
    decreases |path|
  {
    if |path| <= 1 then t
    else
      var p := path[..|path| - 1];
      Swap(ApplyWalk(t, p), path[|path| - 2], path[|path| - 1])
  }

  /** Starting with the blank at `path[0]`, the walk leaves it at the end of the path. */
  lemma {:induction false} ApplyWalkMovesBlank(t: seq<int>, path: seq<int>)
    requires |t| == Size && InGrid(path) && 1 <= |path| && t[path[0]] == 0
    ensures ApplyWalk(t, path)[path[|path| - 1]] == 0
    decreases |path|
  {
    if |path| > 1 {
      var p := path[..|path| - 1];
      ApplyWalkMovesBlank(t, p);
    }
  }

  /** Each step swaps two tiles: a walk rearranges the board without changing its tiles. */
  lemma {:induction false} ApplyWalkPermutes(t: seq<int>, path: seq<int>)
    requires |t| == Size && InGrid(path)
    ensures multiset(ApplyWalk(t, path)) == multiset(t)
    decreases |path|
  {
    if |path| > 1 {
      var p := path[..|path| - 1];
      ApplyWalkPermutes(t, p);
      SwapPermutes(ApplyWalk(t, p), path[|path| - 2], path[|path| - 1]);
    }
  }

  /** Extending a walk by a candidate move keeps it a walk without backtracking, and one more swap. */
  lemma WalkStep(t: seq<int>, path: seq<int>, m: int)
    requires |t| == Size && NoBacktrack(path, -1)
    requires m in Candidates(path[|path| - 1], if |path| == 1 then -1 else path[|path| - 2])
    ensures NoBacktrack(path + [m], -1)
    ensures ApplyWalk(t, path + [m]) == Swap(ApplyWalk(t, path), path[|path| - 1], m)
  {
    assert (path + [m])[..|path|] == path;
  }

  /**
   * `shuffle`: 200 steps from the blank, choosing each time among the valid moves other
   * than the previous blank position (`-1` stands for the initial `null`, which no grid
   * position equals). The candidate list is never empty inside the grid, so the source's
   * `continue` never fires.
   */
  method Shuffle(t: seq<int>, draw: nat -> nat, k: nat) returns (r: seq<int>, path: seq<int>)
    requires HasBlank(t)
    ensures IsShuffle(t, path, r)
  {
    var e, last := Blank(t), -1;
    r, path := t, [e];
    for i := 0 to MaxShuffles
      invariant |path| == i + 1 && path[0] == Blank(t) && path[i] == e
      invariant NoBacktrack(path, -1) && last == (if i == 0 then -1 else path[i - 1])
      invariant r == ApplyWalk(t, path)
    {
      var c := Candidates(e, last);
      var m := c[draw(k + i) % |c|];
      WalkStep(t, path, m);
      r := Swap(r, e, m);
      last, e, path := e, m, path + [m];
    }
  }

  /** `after` is `before` shuffled once along `path`, as `shuffle` does. */
  predicate IsShuffle(before: seq<int>, path: seq<int>, after: seq<int>) {
    HasBlank(before) && |path| == MaxShuffles + 1 && path[0] == Blank(before)
    && NoBacktrack(path, -1) && after == ApplyWalk(before, path)
  }

  /** The condition that ends the `do ... while` loop of `shuffleBoard` early. */
  predicate Acceptable(t: seq<int>) {
    Inversions(t) % 2 == 0 && !TooDifficult(t)
  }

  /** `boards[i]` is `boards[i - 1]` (or `t` first) shuffled along `walks[i]`. */
  predicate Chain(t: seq<int>, walks: seq<seq<int>>, boards: seq<seq<int>>)
    decreases |boards|
  {
    |walks| == |boards| &&
    (|boards| == 0 ||
      var n := |boards| - 1;
      Chain(t, walks[..n], boards[..n]) && IsShuffle(if n == 0 then t else boards[n - 1], walks[n], boards[n]))
  }

  /** No board in `boards` is acceptable. */
  predicate AllRejected(boards: seq<seq<int>>)
    decreases |boards|
  {
    |boards| == 0 || (!Acceptable(boards[|boards| - 1]) && AllRejected(boards[..|boards| - 1]))
  }

  /**
   * What `shuffleBoard` promises about its result `r` from `t`: 1 to 10 shuffles, each of
   * the previous board, ending at `r`; an early stop leaves an acceptable board, and every
   * earlier board was rejected.
   */
  predicate ShuffledFrom(t: seq<int>, r: seq<int>, walks: seq<seq<int>>, boards: seq<seq<int>>) {
    && 1 <= |boards| <= MaxAttempts && r == boards[|boards| - 1] && Chain(t, walks, boards)
    && (|boards| < MaxAttempts ==> Acceptable(r))
    && AllRejected(boards[..|boards| - 1])
  }

  /** The loop condition of `shuffleBoard`, negated: `isSolvable() && !isTooDifficult()`. */
  method IsAcceptable(t: seq<int>) returns (ok: bool)
    ensures ok == Acceptable(t)
  {
    var solvable := IsSolvable(t);
    var tooHard := IsTooDifficult(t);
    ok := solvable && !tooHard;
  }

  /** A shuffle of a real board is a real board. */
  lemma ShuffleKeepsValid(before: seq<int>, path: seq<int>, after: seq<int>)
    requires ValidBoard(before) && IsShuffle(before, path, after)
    ensures ValidBoard(after)
  {
    ApplyWalkPermutes(before, path);
  }

  /** Recording one more shuffle of the last board extends the chain. */
  lemma ChainSnoc(t: seq<int>, walks: seq<seq<int>>, boards: seq<seq<int>>, path: seq<int>, next: seq<int>)
    requires Chain(t, walks, boards)
    requires IsShuffle(if |boards| == 0 then t else boards[|boards| - 1], path, next)
    ensures Chain(t, walks + [path], boards + [next])
  {
    var walks', boards' := walks + [path], boards + [next];
    assert boards'[..|boards|] == boards;
    assert walks'[..|boards|] == walks;
    assert boards'[|boards|] == next && walks'[|boards|] == path;
  }

  /** One more shuffle of the last board, recorded at the end of the chain. */
  method ShuffleAgain(t: seq<int>, r: seq<int>, walks: seq<seq<int>>, boards: seq<seq<int>>, draw: nat -> nat)
    returns (next: seq<int>, walks': seq<seq<int>>, boards': seq<seq<int>>)
    requires ValidBoard(r) && Chain(t, walks, boards)
    requires r == if |boards| == 0 then t else boards[|boards| - 1]
    ensures ValidBoard(next) && Chain(t, walks', boards') && boards' == boards + [next]
  {
    ValidBoardFacts(r);
    var path;
    next, path := Shuffle(r, draw, |boards| * MaxShuffles);
    ShuffleKeepsValid(r, path, next);
    ChainSnoc(t, walks, boards, path, next);
    boards', walks' := boards + [next], walks + [path];
  }

  /**
   * `shuffleBoard`: shuffle, and shuffle again while the board fails `isSolvable` or is
   * too difficult, giving up after the tenth shuffle. `boards` lists the board after each
   * shuffle and `walks` the blank's path in it; the last board is the result. An early
   * stop leaves an acceptable board, and every earlier board was rejected.
   */
  method ShuffleBoard(t: seq<int>, draw: nat -> nat) returns (r: seq<int>, boards: seq<seq<int>>, walks: seq<seq<int>>)
    requires ValidBoard(t)
    ensures 1 <= |boards| <= MaxAttempts && r == boards[|boards| - 1] && Chain(t, walks, boards)
    ensures |boards| < MaxAttempts ==> Acceptable(r)
    ensures AllRejected(boards[..|boards| - 1])
    ensures ValidBoard(r)
  {
    r, boards, walks := t, [], [];
    while true
      invariant |boards| < MaxAttempts && ValidBoard(r) && Chain(t, walks, boards)
      invariant r == if |boards| == 0 then t else boards[|boards| - 1]
      invariant AllRejected(boards)
      decreases MaxAttempts - |boards|
    {
      ghost var before := boards;
      r, walks, boards := ShuffleAgain(t, r, walks, boards, draw);
      assert boards[..|boards| - 1] == before;
      if |boards| >= MaxAttempts {
        break;
      }
      var ok := IsAcceptable(r);
      if ok {
        break;
      }
    }
  }

  /** An acceptable board is never the solved one: an early stop leaves a real shuffle. */
  lemma AcceptableNotSolved(t: seq<int>)
    requires Acceptable(t)
    ensures t != InitialBoard()
  {
    InitialBoardTooDifficult();
  }
}
