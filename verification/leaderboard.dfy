/**
 * The players' leaderboard page: one entry per completion record, an accuracy figure
 * for timed-out players, the ranking (completed players by time, then timed-out players
 * by tiles in place), each player's rank and the message shown to them.
 */
module Leaderboard {
  import opened Wrappers
  import opened Records
  import opened Sorting
  import opened JsMath
  import Board

  /** The `puzzleStates` entry of a player: the board and the move count, when present. */
  datatype PuzzleState = PuzzleState(tiles: Option<seq<int>>, moves: Option<int>)

  /** A row of the leaderboard. */
  datatype Player = Player(
    id: string,
    name: string,
    status: Status,
    time: Option<int>,
    moves: Option<int>,
    points: int,
    accuracy: int,
    tiles: Option<seq<int>>)

  /** `getCorrectTileCount`: the positions holding their home tile, 0 without a board. */
  function CorrectTileCount(tiles: Option<seq<int>>): (r: nat)
    ensures tiles.None? ==> r == 0
    ensures tiles.Some? ==> r == Board.CorrectCount(tiles.value)
  {
    if tiles.Some? then Board.CorrectCount(tiles.value) else 0
  }

  /** On a real board at most eleven tiles count as correct, the blank's position never. */
  lemma CorrectTileCountOfValidBoard(t: seq<int>)
    requires Board.ValidBoard(t)
    ensures CorrectTileCount(Some(t)) <= 11
  {
    Board.CorrectCountOfValidBoard(t);
  }

  /**
   * `calculateAccuracy`: 100 for a completed player. Otherwise the mean of the share of
   * the eleven tiles in place and a move score that loses two points per move down to 0,
   * rounded; a `null` move count reads as 0. So `r` is the integer nearest to
   * `(100 * correct / 11 + efficiency) / 2`, halves up.
   */
  function Accuracy(status: Status, tiles: Option<seq<int>>, moves: Option<int>): (r: int)
    ensures status == Completed ==> r == 100
    ensures status != Completed ==>
      var correct, efficiency := CorrectTileCount(tiles), MoveEfficiency(NullAsZero(moves));
      11 * (2 * r - 1) <= 100 * correct + 11 * efficiency < 11 * (2 * r + 1)
  {
    if status == Completed then 100
    else
      var correct := CorrectTileCount(tiles);
      var efficiency := MoveEfficiency(NullAsZero(moves));
      RoundRatio(100 * correct + 11 * efficiency, 22)
  }

  /** `Math.max(0, 100 - (moves / 50) * 100)`. */
  function MoveEfficiency(moves: int): (r: int)
    ensures 0 <= r && (moves >= 0 ==> r <= 100)
    ensures r == 0 <==> moves >= 50
  {
    if 100 - 2 * moves > 0 then 100 - 2 * moves else 0
  }

  /**
   * The accuracy of a player who did not complete is the one integer within a half of the
   * mean of the tile share and the move score.
   */
  lemma AccuracyIsNearestMean(status: Status, tiles: Option<seq<int>>, moves: Option<int>, q: int)
    requires status != Completed
    requires var correct, efficiency := CorrectTileCount(tiles), MoveEfficiency(NullAsZero(moves));
      11 * (2 * q - 1) <= 100 * correct + 11 * efficiency < 11 * (2 * q + 1)
    ensures Accuracy(status, tiles, moves) == q
  {
    var n := 100 * CorrectTileCount(tiles) + 11 * MoveEfficiency(NullAsZero(moves));
    RoundRatioUnique(n, 22, q);
  }

  /** With no more than eleven tiles in place and no negative move count, accuracy is a percentage. */
  lemma AccuracyBounds(status: Status, tiles: Option<seq<int>>, moves: Option<int>)
    requires CorrectTileCount(tiles) <= 11 && NullAsZero(moves) >= 0
    ensures 0 <= Accuracy(status, tiles, moves) <= 100
  {
    if status != Completed {
      var n := 100 * CorrectTileCount(tiles) + 11 * MoveEfficiency(NullAsZero(moves));
      RoundRatioMonotonic(0, n, 22);
      RoundRatioMonotonic(n, 100 * 22, 22);
      RoundRatioExact(0, 22);
      RoundRatioExact(100, 22);
    }
  }

  /** A timed-out player with every tile in place and no moves left to spare scores 50. */
  lemma AccuracyAllTilesNoMovesLeft(tiles: seq<int>, moves: int)
    requires Board.ValidBoard(tiles) && Board.IsSolved(tiles) && moves >= 50
    ensures Accuracy(Timeout, Some(tiles), Some(moves)) == 50
  {
    Board.CorrectCountOfValidBoard(tiles);
    RoundRatioExact(50, 22);
  }

  /**
   * The entry of one completion record: 10 points for a completed game and 0 otherwise,
   * accuracy 100 unless the player timed out with a puzzle state, whose board and move
   * count then give the accuracy and the tiles.
   */
  function PlayerOf(c: Completion, puzzleStates: map<string, PuzzleState>): (r: Player)
    ensures r.id == c.id && r.status == c.status && r.time == c.time && r.moves == c.moves
    ensures r.points == (if c.status == Completed then 10 else 0)
    ensures c.status == Timeout && c.id in puzzleStates ==>
      r.tiles == puzzleStates[c.id].tiles && r.accuracy == Accuracy(Unknown, puzzleStates[c.id].tiles, puzzleStates[c.id].moves)
    ensures !(c.status == Timeout && c.id in puzzleStates) ==> r.tiles.None? && r.accuracy == 100
  {
    var p := Player(c.id, c.name, c.status, c.time, c.moves, if c.status == Completed then 10 else 0, 100, None);
    if c.status == Timeout && c.id in puzzleStates then
      var state := puzzleStates[c.id];
      p.(accuracy := Accuracy(Unknown, state.tiles, state.moves), tiles := state.tiles)
    else p
  }

  /** `processPlayerData`: one entry per completion record, in order. */
  function ProcessPlayerData(completions: seq<Completion>, puzzleStates: map<string, PuzzleState>): (r: seq<Player>)
    ensures |r| == |completions|
    ensures forall i :: 0 <= i < |r| ==> r[i] == PlayerOf(completions[i], puzzleStates)
  {
    seq(|completions|, i requires 0 <= i < |completions| => PlayerOf(completions[i], puzzleStates))
  }

  /** Exactly the completed players earn points, ten each. */
  lemma PointsIffCompleted(completions: seq<Completion>, puzzleStates: map<string, PuzzleState>, i: int)
    requires 0 <= i < |completions|
    ensures var p := ProcessPlayerData(completions, puzzleStates)[i];
      (p.points > 0 <==> completions[i].status == Completed) && (p.points > 0 ==> p.points == 10)
  {
  }

  // ---------------------------------------------------------------------------------------
  // rankPlayers
  // ---------------------------------------------------------------------------------------

  predicate IsCompleted(p: Player) { p.status == Completed }

  predicate IsTimeout(p: Player) { p.status == Timeout }

  /**
   * The completed players' comparator: by time, then by moves (`null` reads as 0 in both
   * tests). `CompletedBeforeAsWritten` is the source's own test, which differs only for a
   * missing time facing a time of 0 (`CompletedBeforeAgrees`).
   */
  predicate CompletedBefore(a: Player, b: Player) {
    var ta, tb := NullAsZero(a.time), NullAsZero(b.time);
    if ta != tb then ta - tb <= 0 else NullAsZero(a.moves) - NullAsZero(b.moves) <= 0
  }

  /**
   * The comparator of leaderboard.js as written: the first test compares the stored times
   * with `!==`, so a `null` time and a time of 0 count as different there, while the
   * subtraction reads `null` as 0 and calls the pair a tie.
   */
  predicate CompletedBeforeAsWritten(a: Player, b: Player) {
    if a.time != b.time then NullAsZero(a.time) - NullAsZero(b.time) <= 0
    else NullAsZero(a.moves) - NullAsZero(b.moves) <= 0
  }

  /**
   * Unless one time is missing and the other is 0, the comparator as written and the one
   * the ranking uses agree. Every completed record the puzzle page writes carries a time.
   */
  lemma CompletedBeforeAgrees(a: Player, b: Player)
    requires !(a.time == None && b.time == Some(0)) && !(a.time == Some(0) && b.time == None)
    ensures CompletedBeforeAsWritten(a, b) <==> CompletedBefore(a, b)
  {
  }

  /**
   * With a missing time facing a time of 0 the comparator as written is not transitive: the
   * 9-move and 1-move players without a time both tie with the player at time 0, yet the
   * 1-move one must come first.
   */
  lemma CompletedBeforeAsWrittenNotTransitive()
    ensures var a := Player("a", "", Completed, None, Some(9), 10, 100, None);
      var b := Player("b", "", Completed, Some(0), Some(1), 10, 100, None);
      var c := Player("c", "", Completed, None, Some(1), 10, 100, None);
      && CompletedBeforeAsWritten(a, b) && CompletedBeforeAsWritten(b, c) && !CompletedBeforeAsWritten(a, c)
      && !TotalPreorder(CompletedBeforeAsWritten)
  {
    var a := Player("a", "", Completed, None, Some(9), 10, 100, None);
    var b := Player("b", "", Completed, Some(0), Some(1), 10, 100, None);
    var c := Player("c", "", Completed, None, Some(1), 10, 100, None);
    var le := CompletedBeforeAsWritten;
    assert le(a, b) && le(b, c) && !le(a, c);
  }

  /** The accuracy the ranking recomputes for a timed-out player. */
  function RankAccuracy(p: Player): int {
    Accuracy(p.status, p.tiles, p.moves)
  }

  /** The timed-out players' comparator: most tiles in place, then highest accuracy. */
  predicate TimeoutBefore(a: Player, b: Player) {
    var at, bt := CorrectTileCount(a.tiles), CorrectTileCount(b.tiles);
    if at != bt then bt - at <= 0 else RankAccuracy(b) - RankAccuracy(a) <= 0
  }

  lemma ComparatorsConsistent()
    ensures TotalPreorder(CompletedBefore) && TotalPreorder(TimeoutBefore)
  {
  }

  /**
   * `rankPlayers`: the completed players sorted, then the timed-out players sorted;
   * everyone else is left out.
   */
  function RankPlayers(players: seq<Player>): (r: seq<Player>)
    ensures multiset(r) == multiset(Filter(players, IsCompleted)) + multiset(Filter(players, IsTimeout))
  {
    Sort(Filter(players, IsCompleted), CompletedBefore) + Sort(Filter(players, IsTimeout), TimeoutBefore)
  }

  /** Each completed or timed-out player is ranked as often as it occurs, and nobody else is. */
  lemma RankPlayersCounts(players: seq<Player>)
    ensures forall p :: multiset(RankPlayers(players))[p] == (if p.status == Completed || p.status == Timeout then multiset(players)[p] else 0)
  {
    FilterMultiplicity(players, IsCompleted);
    FilterMultiplicity(players, IsTimeout);
  }

  /** The ranking holds exactly the completed and the timed-out players. */
  lemma RankPlayersMembers(players: seq<Player>, p: Player)
    ensures p in RankPlayers(players) <==> p in players && (p.status == Completed || p.status == Timeout)
  {
    var c, t := Filter(players, IsCompleted), Filter(players, IsTimeout);
    assert p in RankPlayers(players) <==> p in multiset(c) || p in multiset(t);
    if p in players && p.status == Completed {
      var i :| 0 <= i < |players| && players[i] == p;
      assert IsCompleted(players[i]);
    }
    if p in players && p.status == Timeout {
      var i :| 0 <= i < |players| && players[i] == p;
      assert IsTimeout(players[i]);
    }
    if p in c {
      var i :| 0 <= i < |c| && c[i] == p;
      assert IsCompleted(c[i]);
      assert p in multiset(players);
    }
    if p in t {
      var i :| 0 <= i < |t| && t[i] == p;
      assert IsTimeout(t[i]);
      assert p in multiset(players);
    }
  }

  /** Every completed player comes before every other. */
  predicate CompletedFirst(r: seq<Player>) {
    forall i, j :: 0 <= i < j < |r| && r[j].status == Completed ==> r[i].status == Completed
  }

  /** Completed players come by time, then by moves. */
  predicate CompletedInOrder(r: seq<Player>) {
    forall i, j :: 0 <= i < j < |r| && r[i].status == Completed && r[j].status == Completed ==>
      || NullAsZero(r[i].time) < NullAsZero(r[j].time)
      || (NullAsZero(r[i].time) == NullAsZero(r[j].time) && NullAsZero(r[i].moves) <= NullAsZero(r[j].moves))
  }

  /** Timed-out players come by tiles in place, most first, then by accuracy, highest first. */
  predicate TimeoutsInOrder(r: seq<Player>) {
    forall i, j :: 0 <= i < j < |r| && r[i].status == Timeout && r[j].status == Timeout ==>
      || CorrectTileCount(r[i].tiles) > CorrectTileCount(r[j].tiles)
      || (CorrectTileCount(r[i].tiles) == CorrectTileCount(r[j].tiles) && RankAccuracy(r[i]) >= RankAccuracy(r[j]))
  }

  /**
   * Completed players come first, by time and then moves; timed-out players follow, by
   * tiles in place, most first, and then by accuracy, highest first.
   */
  lemma RankPlayersOrdered(players: seq<Player>)
    ensures var r := RankPlayers(players);
      CompletedFirst(r) && CompletedInOrder(r) && TimeoutsInOrder(r)
  {
    var c, t := Filter(players, IsCompleted), Filter(players, IsTimeout);
    var sc, st := Sort(c, CompletedBefore), Sort(t, TimeoutBefore);
    ComparatorsConsistent();
    SortSorted(c, CompletedBefore);
    SortSorted(t, TimeoutBefore);
    AllSatisfy(c, sc, IsCompleted);
    AllSatisfy(t, st, IsTimeout);
    ConcatCompletedFirst(sc, st);
    ConcatCompletedInOrder(sc, st);
    ConcatTimeoutsInOrder(sc, st);
  }

  lemma ConcatCompletedFirst(sc: seq<Player>, st: seq<Player>)
    requires forall i :: 0 <= i < |sc| ==> IsCompleted(sc[i])
    requires forall i :: 0 <= i < |st| ==> IsTimeout(st[i])
    ensures CompletedFirst(sc + st)
  {
    var r := sc + st;
    forall i, j | 0 <= i < j < |r| && r[j].status == Completed
      ensures r[i].status == Completed
    {
      ConcatAt(sc, st, j);
      assert j < |sc|;
      assert r[i] == sc[i];
    }
  }

  lemma ConcatCompletedInOrder(sc: seq<Player>, st: seq<Player>)
    requires Sorted(sc, CompletedBefore)
    requires forall i :: 0 <= i < |st| ==> IsTimeout(st[i])
    ensures CompletedInOrder(sc + st)
  {
    var r := sc + st;
    forall i, j | 0 <= i < j < |r| && r[i].status == Completed && r[j].status == Completed
      ensures CompletedBefore(r[i], r[j])
    {
      ConcatAt(sc, st, j);
      assert j < |sc|;
      assert r[i] == sc[i] && r[j] == sc[j];
    }
  }

  lemma ConcatTimeoutsInOrder(sc: seq<Player>, st: seq<Player>)
    requires forall i :: 0 <= i < |sc| ==> IsCompleted(sc[i])
    requires Sorted(st, TimeoutBefore)
    ensures TimeoutsInOrder(sc + st)
  {
    var r := sc + st;
    forall i, j | 0 <= i < j < |r| && r[i].status == Timeout && r[j].status == Timeout
      ensures TimeoutBefore(r[i], r[j])
    {
      ConcatAt(sc, st, i);
      assert i >= |sc|;
      assert r[i] == st[i - |sc|] && r[j] == st[j - |sc|];
    }
  }

  /** An element of a concatenation comes from its first or its second part. */
  lemma ConcatAt(a: seq<Player>, b: seq<Player>, k: int)
    requires 0 <= k < |a + b|
    ensures k < |a| ==> (a + b)[k] == a[k]
    ensures k >= |a| ==> (a + b)[k] == b[k - |a|]
  {
  }

  /** A permutation of elements that all satisfy `p` has only such elements. */
  lemma AllSatisfy(s: seq<Player>, r: seq<Player>, p: Player -> bool)
    requires multiset(r) == multiset(s) && forall i :: 0 <= i < |s| ==> p(s[i])
    ensures forall i :: 0 <= i < |r| ==> p(r[i])
  {
    forall i | 0 <= i < |r| ensures p(r[i]) {
      assert r[i] in multiset(s);
      var k :| 0 <= k < |s| && s[k] == r[i];
    }
  }

  // ---------------------------------------------------------------------------------------
  // The displayed rank and the personal message
  // ---------------------------------------------------------------------------------------

  /**
   * The displayed rank: one more than the position of the first entry with the player's
   * id; `None` stands for the `-` shown when there is none (`findIndex` gives -1).
   */
  function RankOf(ranked: seq<Player>, id: string): (r: Option<nat>)
    ensures r.None? <==> forall k :: 0 <= k < |ranked| ==> ranked[k].id != id
    ensures r.Some? ==> 1 <= r.value <= |ranked| && ranked[r.value - 1].id == id
    ensures r.Some? ==> forall k :: 0 <= k < r.value - 1 ==> ranked[k].id != id
    decreases |ranked|
  {
    if |ranked| == 0 then None
    else if ranked[0].id == id then Some(1)
    else
      var rest := RankOf(ranked[1..], id);
      if rest.Some? then Some(rest.value + 1) else None
  }

  /** The message heading a player's result card. */
  datatype ResultMessage = TimesUp | Winner | SecondPlace | ThirdPlace | TopQuarter | TopHalf | Thanks

  /** `Math.ceil(n / d)` for a positive whole `d`. */
  function CeilDiv(n: int, d: int): (r: int)
    requires d > 0
    ensures d * (r - 1) < n <= d * r
  {
    (n + d - 1) / d
  }

  /**
   * `getResultMessage`: a player who did not complete has run out of time; otherwise the
   * podium places, then the top quarter and top half of all ranked players, rounded up.
   */
  function GetResultMessage(rank: int, status: Status, total: int): (r: ResultMessage)
    ensures status != Completed <==> r == TimesUp
    ensures status == Completed && 1 <= rank <= 3 ==> r == [Winner, SecondPlace, ThirdPlace][rank - 1]
  {
    if status != Completed then TimesUp
    else if rank == 1 then Winner
    else if rank == 2 then SecondPlace
    else if rank == 3 then ThirdPlace
    else if rank <= CeilDiv(total, 4) then TopQuarter
    else if rank <= CeilDiv(total, 2) then TopHalf
    else Thanks
  }

  /**
   * Below the podium, the top-quarter message goes to ranks `r` with `4r < n + 4` and the
   * top-half message to the other ranks with `2r < n + 2`.
   */
  lemma ResultMessageBands(rank: int, total: int)
    requires rank > 3
    ensures GetResultMessage(rank, Completed, total) == TopQuarter <==> 4 * rank < total + 4
    ensures GetResultMessage(rank, Completed, total) == TopHalf <==> 4 * rank >= total + 4 && 2 * rank < total + 2
    ensures GetResultMessage(rank, Completed, total) == Thanks <==> 2 * rank >= total + 2
  {
    var q, h := CeilDiv(total, 4), CeilDiv(total, 2);
    assert rank <= q <==> 4 * rank < total + 4;
    assert rank <= h <==> 2 * rank < total + 2;
  }
}
