/**
 * One player's game on a puzzle page: the `gameStarted` flag guarding `startGame`,
 * `moveTile`, `gameOver` and `handleWin`, the completion records those write, the saved
 * snapshot and its one-hour staleness guard, and the puzzle-number lookup.
 */
module Session {
  import opened Wrappers
  import opened Text
  import opened Board
  import opened Records
  import TimeSync
  import Shuffle

  /** The fields of the puzzle page that the game logic reads and writes. */
  datatype Session = Session(
    started: bool,
    tiles: seq<int>,
    moves: int,
    startTime: int,
    timeLimit: int,
    playerId: string,
    playerName: string)

  /** What the page can read from session storage; a missing key reads as "". */
  datatype Stored = Stored(playerId: string, playerName: string)

  // ---------------------------------------------------------------------------------------
  // startGame and moveTile
  // ---------------------------------------------------------------------------------------

  /**
   * `startGame`: nothing when a game runs. If the name or the id is missing, both are
   * re-read from session storage, and the game does not start when either is still
   * missing. Otherwise the game starts now with zero moves and `shuffleBoard` shuffles the
   * current board; `boards` and `walks` are that shuffle's boards and blank paths (empty
   * when no game starts). The page's board is always a real one: `setupInitialBoard` builds
   * it and every move keeps it so (`MoveKeepsValid`).
   */
  method StartGame(s: Session, stored: Stored, now: int, draw: nat -> nat)
    returns (r: Session, boards: seq<seq<int>>, walks: seq<seq<int>>)
    requires ValidBoard(s.tiles)
    ensures s.started ==> r == s && boards == []
    ensures r.started <==> s.started || (r.playerId != "" && r.playerName != "")
    ensures !s.started && (s.playerId == "" || s.playerName == "") ==>
      r.playerId == stored.playerId && r.playerName == stored.playerName
    ensures !s.started && s.playerId != "" && s.playerName != "" ==>
      r.playerId == s.playerId && r.playerName == s.playerName
    ensures !r.started ==> r.tiles == s.tiles && r.moves == s.moves && boards == []
    ensures !s.started && r.started ==>
      && r.moves == 0 && r.startTime == now
      && Shuffle.ShuffledFrom(s.tiles, r.tiles, walks, boards)
    ensures ValidBoard(r.tiles)
  {
    boards, walks := [], [];
    if s.started {
      return s, boards, walks;
    }
    var p := if s.playerName == "" || s.playerId == "" then s.(playerId := stored.playerId, playerName := stored.playerName) else s;
    if p.playerId == "" || p.playerName == "" {
      return p, boards, walks;
    }
    var shuffled;
    shuffled, boards, walks := Shuffle.ShuffleBoard(s.tiles, draw);
    assert Shuffle.ShuffledFrom(s.tiles, shuffled, walks, boards);
    r := p.(started := true, moves := 0, startTime := now, tiles := shuffled);
  }

  /**
   * `moveTile` for the tile showing `value`: ignored unless a game runs and the tile sits
   * next to the blank; otherwise the two swap and the move count goes up. The second
   * component says whether the board is now solved, which schedules `handleWin`.
   */
  function MoveTile(s: Session, value: int): (r: (Session, bool))
    ensures r.1 ==> r.0.started && IsSolved(r.0.tiles)
    ensures r.0.started == s.started && r.0.playerId == s.playerId && r.0.startTime == s.startTime
    ensures r.0.moves == s.moves || r.0.moves == s.moves + 1
    ensures r.0.moves == s.moves ==> r == (s, false)
    ensures r.0.moves == s.moves + 1 ==> s.started && |r.0.tiles| == |s.tiles|
  {
    if !s.started then (s, false)
    else
      var i, e := IndexOf(s.tiles, value), IndexOf(s.tiles, 0);
      if Adjacent(i, e) then
        NotAdjacentToMissing(i);
        NotAdjacentToMissing(e);
        var t := Swap(s.tiles, i, e);
        (s.(tiles := t, moves := s.moves + 1), IsSolved(t))
      else (s, false)
  }

  /** A tile that is not on the board, or the blank itself, never moves. */
  lemma MoveOfAbsentOrBlank(s: Session, value: int)
    requires value !in s.tiles || value == 0
    ensures MoveTile(s, value) == (s, false)
  {
    var i, e := IndexOf(s.tiles, value), IndexOf(s.tiles, 0);
    NotAdjacentToMissing(i);
    NotAdjacentToMissing(e);
  }

  /** A move rearranges a real board into a real board. */
  lemma MoveKeepsValid(s: Session, value: int)
    requires ValidBoard(s.tiles)
    ensures ValidBoard(MoveTile(s, value).0.tiles)
  {
    var i, e := IndexOf(s.tiles, value), IndexOf(s.tiles, 0);
    if s.started && Adjacent(i, e) {
      NotAdjacentToMissing(i);
      NotAdjacentToMissing(e);
      SwapPermutes(s.tiles, i, e);
    }
  }

  /** On a real board, clicking the tile at `i` next to the blank at `e` swaps the two. */
  lemma MoveAt(s: Session, value: int, i: int, e: int)
    requires s.started && ValidBoard(s.tiles)
    requires 0 <= i < |s.tiles| && 0 <= e < |s.tiles| && s.tiles[i] == value && s.tiles[e] == 0 && Adjacent(i, e)
    ensures var t := Swap(s.tiles, i, e);
      MoveTile(s, value) == (s.(tiles := t, moves := s.moves + 1), IsSolved(t))
  {
    UniqueIndex(s.tiles, value, i);
    UniqueIndex(s.tiles, 0, e);
  }

  /** On a real board, clicking a tile that is not next to the blank changes nothing. */
  lemma MoveNotAdjacent(s: Session, value: int, i: int, e: int)
    requires s.started && ValidBoard(s.tiles)
    requires 0 <= i < |s.tiles| && 0 <= e < |s.tiles| && s.tiles[i] == value && s.tiles[e] == 0 && !Adjacent(i, e)
    ensures MoveTile(s, value) == (s, false)
  {
    UniqueIndex(s.tiles, value, i);
    UniqueIndex(s.tiles, 0, e);
  }

  /** On a real board, clicking the tile just moved moves it back: the board is restored. */
  lemma MoveUndo(s: Session, value: int)
    requires ValidBoard(s.tiles)
    requires MoveTile(s, value).0.moves == s.moves + 1
    ensures var r := MoveTile(MoveTile(s, value).0, value).0;
      r.tiles == s.tiles && r.moves == s.moves + 2
  {
    var i, e := IndexOf(s.tiles, value), IndexOf(s.tiles, 0);
    NotAdjacentToMissing(i);
    NotAdjacentToMissing(e);
    var t := Swap(s.tiles, i, e);
    SwapPermutes(s.tiles, i, e);
    AdjacentSymmetric(i, e);
    var s1 := s.(tiles := t, moves := s.moves + 1);
    assert MoveTile(s, value).0 == s1;
    MoveAt(s1, value, e, i);
    SwapUndo(s.tiles, i, e);
  }

  /** On a real board every tile value occurs once, so `indexOf` finds its only position. */
  lemma UniqueIndex(t: seq<int>, v: int, k: int)
    requires ValidBoard(t) && 0 <= k < |t| && t[k] == v
    ensures IndexOf(t, v) == k
  {
    var r := IndexOf(t, v);
    assert v in t[..k + 1];
    if r < k {
      Distinct(t, r, k);
    }
  }

  /** Two positions of a real board hold different tiles. */
  lemma Distinct(t: seq<int>, i: int, j: int)
    requires ValidBoard(t) && 0 <= i < j < |t|
    ensures t[i] != t[j]
  {
    ValidBoardFacts(t);
    TilesMembers(Size, t[i]);
    var rest := t[..i] + t[i + 1..];
    assert t == t[..i] + [t[i]] + t[i + 1..];
    assert rest[j - 1] == t[j];
    assert multiset(t) == multiset(rest) + multiset{t[i]};
  }

  // ---------------------------------------------------------------------------------------
  // gameOver and handleWin
  // ---------------------------------------------------------------------------------------

  /** The record as a list: nothing, or the one written document. */
  function Written(rec: Option<Completion>): (r: seq<Completion>)
    ensures |r| <= 1 && (rec.Some? <==> |r| == 1)
  {
    if rec.Some? then [rec.value] else []
  }

  /**
   * `gameOver(timeout)`: nothing once the game has ended. Otherwise the game ends and a
   * completion record is written: a timeout carries no time and counts the tiles in place
   * out of all positions; a completion carries the time since the start.
   */
  function GameOver(s: Session, timeout: bool, now: int, puzzleNumber: Option<string>): (r: (Session, Option<Completion>))
    ensures !s.started ==> r == (s, None)
    ensures s.started ==> r.0 == s.(started := false) && r.1.Some?
    ensures s.started ==> var c := r.1.value;
      && c.id == s.playerId && c.moves == Some(s.moves)
      && (timeout ==> c.status == Timeout && c.time.None?
                      && c.progress == Some(Progress(Some(CorrectCount(s.tiles)), Some(|s.tiles|))))
      && (!timeout ==> c.status == Completed && c.time == Some(now - s.startTime) && c.progress.None?)
  {
    if !s.started then (s, None)
    else
      var c := Completion(
        s.playerId, s.playerName,
        if timeout then Timeout else Completed,
        if timeout then None else Some(now - s.startTime),
        Some(s.moves), puzzleNumber,
        if timeout then Some(Progress(Some(CorrectCount(s.tiles)), Some(|s.tiles|))) else None);
      (s.(started := false), Some(c))
  }

  /** A second `gameOver` writes nothing and changes nothing. */
  lemma GameOverIdempotent(s: Session, t1: bool, n1: int, p1: Option<string>, t2: bool, n2: int, p2: Option<string>)
    ensures var once := GameOver(s, t1, n1, p1).0;
      GameOver(once, t2, n2, p2) == (once, None)
  {
  }

  /**
   * The progress a timeout records for a real board: at most eleven of twelve positions
   * in place, and eleven when the board is solved.
   */
  lemma TimeoutProgressBounds(s: Session, now: int, puzzleNumber: Option<string>)
    requires s.started && ValidBoard(s.tiles)
    ensures var p := GameOver(s, true, now, puzzleNumber).1.value.progress.value;
      && 0 <= p.tilesCorrect.value <= Size - 1 && p.totalTiles == Some(Size)
      && (IsSolved(s.tiles) ==> p.tilesCorrect == Some(Size - 1))
  {
    CorrectCountOfValidBoard(s.tiles);
  }

  /**
   * `handleWin` as written: it ends the game and writes a completed record with the time
   * since the start, whether or not the game was still running. Without a player id (in
   * the page or in storage) the write fails and nothing reaches the `completions` store.
   */
  function HandleWin(s: Session, stored: Stored, now: int, puzzleNumber: Option<string>): (r: (Session, Option<Completion>))
    ensures !r.0.started
    ensures r.1.Some? <==> s.playerId != "" || stored.playerId != ""
    ensures r.1.Some? ==> r.1.value.status == Completed && r.1.value.time == Some(now - s.startTime)
  {
    var id := if s.playerId != "" then s.playerId else stored.playerId;
    var name := if s.playerName != "" then s.playerName else stored.playerName;
    var ended := s.(started := false);
    if id == "" then (ended, None)
    else (ended, Some(Completion(id, name, Completed, Some(now - s.startTime), Some(s.moves), puzzleNumber, None)))
  }

  /** `handleWin` with the guard `gameOver` has: nothing once the game has ended. */
  function HandleWinGuarded(s: Session, stored: Stored, now: int, puzzleNumber: Option<string>): (r: (Session, Option<Completion>))
    ensures !s.started ==> r == (s, None)
    ensures s.started ==> r == HandleWin(s, stored, now, puzzleNumber)
  {
    if !s.started then (s, None) else HandleWin(s, stored, now, puzzleNumber)
  }

  // ---------------------------------------------------------------------------------------
  // The event loop of one page
  // ---------------------------------------------------------------------------------------

  /**
   * What can happen while a game runs: a tile is clicked, the countdown's `onComplete`
   * runs `gameOver(true)`, or a `handleWin` scheduled 300 ms after a solving move fires.
   */
  datatype Event = Click(value: int) | Expire(now: int) | WinFires(now: int)

  /** The page's session, the `handleWin` calls still scheduled, and the records written. */
  datatype World = World(session: Session, pendingWins: nat, records: seq<Completion>)

  /** The environment a run reads: session storage and the page's puzzle number. */
  datatype Env = Env(stored: Stored, puzzleNumber: Option<string>)

  function Step(w: World, e: Event, guarded: bool, env: Env): (r: World)
    ensures |w.records| <= |r.records| <= |w.records| + 1
  {
    match e
    case Click(v) =>
      var (s, win) := MoveTile(w.session, v);
      World(s, w.pendingWins + if win then 1 else 0, w.records)
    case Expire(now) =>
      var (s, rec) := GameOver(w.session, true, now, env.puzzleNumber);
      World(s, w.pendingWins, w.records + Written(rec))
    case WinFires(now) =>
      if w.pendingWins == 0 then w
      else
        var (s, rec) :=
          if guarded then HandleWinGuarded(w.session, env.stored, now, env.puzzleNumber)
          else HandleWin(w.session, env.stored, now, env.puzzleNumber);
        World(s, w.pendingWins - 1, w.records + Written(rec))
  }

  function Run(w: World, events: seq<Event>, guarded: bool, env: Env): World
    decreases |events|
  {
    if |events| == 0 then w
    else Step(Run(w, events[..|events| - 1], guarded, env), events[|events| - 1], guarded, env)
  }

  /** One for a running game, none for an ended one: the records a game may still write. */
  function Owed(w: World): nat {
    if w.session.started then 1 else 0
  }

  /**
   * With the guard, a game writes at most one completion record however the clicks, the
   * countdown and the scheduled wins interleave.
   */
  lemma {:induction false} GuardedWritesAtMostOnce(w: World, events: seq<Event>, env: Env)
    ensures var r := Run(w, events, true, env);
      |r.records| + Owed(r) <= |w.records| + Owed(w)
    decreases |events|
  {
    if |events| > 0 {
      GuardedWritesAtMostOnce(w, events[..|events| - 1], env);
    }
  }

  /**
   * The countdown ends the game on the move that solves it, before the scheduled
   * `handleWin` fires: the source writes a timeout record and then overwrites it with a
   * completed one. `board` is the initial board with its last two positions swapped.
   */
  lemma WrittenWritesTwice(name: string, now: int)
    ensures var board := Swap(InitialBoard(), Size - 2, Size - 1);
      var w := World(Session(true, board, 0, 0, TimeSync.TimeLimit, "p1", name), 0, []);
      var r := Run(w, [Click(Size - 1), Expire(now), WinFires(now)], false, Env(Stored("", ""), None));
      |r.records| == 2 && r.records[0].status == Timeout && r.records[1].status == Completed
  {
    var board := Swap(InitialBoard(), Size - 2, Size - 1);
    var w := World(Session(true, board, 0, 0, TimeSync.TimeLimit, "p1", name), 0, []);
    var env := Env(Stored("", ""), None);
    var evs := [Click(Size - 1), Expire(now), WinFires(now)];
    SolvingClick(w.session);
    var w1 := Step(w, evs[0], false, env);
    assert w1.session.started && w1.pendingWins == 1 && w1.records == [];
    var w2 := Step(w1, evs[1], false, env);
    assert !w2.session.started && w2.pendingWins == 1 && |w2.records| == 1 && w2.records[0].status == Timeout;
    var w3 := Step(w2, evs[2], false, env);
    assert |w3.records| == 2 && w3.records[1].status == Completed;
    RunThree(w, evs, false, env);
  }

  /** The same events with the guard: only the timeout record is written. */
  lemma GuardedWritesOnce(name: string, now: int)
    ensures var board := Swap(InitialBoard(), Size - 2, Size - 1);
      var w := World(Session(true, board, 0, 0, TimeSync.TimeLimit, "p1", name), 0, []);
      var r := Run(w, [Click(Size - 1), Expire(now), WinFires(now)], true, Env(Stored("", ""), None));
      |r.records| == 1 && r.records[0].status == Timeout
  {
    var board := Swap(InitialBoard(), Size - 2, Size - 1);
    var w := World(Session(true, board, 0, 0, TimeSync.TimeLimit, "p1", name), 0, []);
    var env := Env(Stored("", ""), None);
    var evs := [Click(Size - 1), Expire(now), WinFires(now)];
    SolvingClick(w.session);
    var w1 := Step(w, evs[0], true, env);
    assert w1.session.started && w1.pendingWins == 1 && w1.records == [];
    var w2 := Step(w1, evs[1], true, env);
    assert !w2.session.started && |w2.records| == 1 && w2.records[0].status == Timeout;
    var w3 := Step(w2, evs[2], true, env);
    assert w3.records == w2.records;
    RunThree(w, evs, true, env);
  }

  /** A run of three events is three steps. */
  lemma RunThree(w: World, evs: seq<Event>, guarded: bool, env: Env)
    requires |evs| == 3
    ensures Run(w, evs, guarded, env)
      == Step(Step(Step(w, evs[0], guarded, env), evs[1], guarded, env), evs[2], guarded, env)
  {
    RunSnoc(w, evs[..2], evs[2], guarded, env);
    RunSnoc(w, evs[..1], evs[1], guarded, env);
    RunSnoc(w, [], evs[0], guarded, env);
    assert evs[..2] + [evs[2]] == evs;
    assert evs[..1] + [evs[1]] == evs[..2];
    assert [] + [evs[0]] == evs[..1];
  }

  /** One more event is one more step. */
  lemma RunSnoc(w: World, evs: seq<Event>, e: Event, guarded: bool, env: Env)
    ensures Run(w, evs + [e], guarded, env) == Step(Run(w, evs, guarded, env), e, guarded, env)
  {
    assert (evs + [e])[..|evs|] == evs;
  }

  /** Clicking tile 11 on the initial board with its last two positions swapped solves it. */
  lemma SolvingClick(s: Session)
    requires s.started && s.tiles == Swap(InitialBoard(), Size - 2, Size - 1)
    ensures MoveTile(s, Size - 1).1
  {
    var b := InitialBoard();
    InitialBoardValid();
    SwapPermutes(b, Size - 2, Size - 1);
    assert Adjacent(Size - 1, Size - 2);
    MoveAt(s, Size - 1, Size - 1, Size - 2);
    assert Swap(s.tiles, Size - 1, Size - 2) == b;
  }

  // ---------------------------------------------------------------------------------------
  // saveState and restoreState
  // ---------------------------------------------------------------------------------------

  /** The `puzzleStates` entry and `puzzleState` session item `saveState` writes. */
  datatype Snapshot = Snapshot(
    tiles: seq<int>,
    moves: int,
    gameStarted: bool,
    gameStartTime: int,
    timeLimit: int,
    timestamp: int,
    playerName: string,
    puzzleNumber: Option<string>)

  /** Snapshots older than this many milliseconds are not restored from the store. */
  const MaxSnapshotAge: int := 3600000

  /**
   * `saveState`: the player's id and name are taken from storage when the page has none;
   * without them, or with no tiles, nothing is written. Otherwise the snapshot carries the
   * board and the game data, with 0 read as missing (`this.x || default`).
   */
  function SaveState(s: Session, stored: Stored, now: int, puzzleNumber: Option<string>): (r: (Session, Option<Snapshot>))
    ensures r.1.Some? <==> |s.tiles| > 0 && r.0.playerId != "" && r.0.playerName != ""
    ensures r.1.Some? ==>
      r.1.value.tiles == s.tiles && r.1.value.timestamp == now && r.1.value.playerName == r.0.playerName
    ensures r.0.tiles == s.tiles && r.0.moves == s.moves && r.0.started == s.started
  {
    var id := if s.playerId != "" then s.playerId else stored.playerId;
    var s1 := s.(playerId := id);
    if id == "" then (s1, None)
    else
      var name := if s.playerName != "" then s.playerName else stored.playerName;
      var s2 := s1.(playerName := name);
      if name == "" then (s2, None)
      else if |s.tiles| == 0 then (s2, None)
      else
        (s2, Some(Snapshot(
          s.tiles, s.moves, s.started,
          if s.startTime != 0 then s.startTime else now,
          if s.timeLimit != 0 then s.timeLimit else TimeSync.TimeLimit,
          now, name, puzzleNumber)))
  }

  /** The result of reading `puzzleStates/<id>`: the entry, or a failed read. */
  datatype RemoteRead = ReadFailed | ReadOk(entry: Option<Snapshot>)

  /** The session continuing from a snapshot. */
  function Resume(s: Session, snap: Snapshot): (r: Session)
    ensures r.started && r.tiles == snap.tiles && r.moves == snap.moves
  {
    s.(tiles := snap.tiles, moves := snap.moves, started := true,
       startTime := snap.gameStartTime, timeLimit := snap.timeLimit)
  }

  /**
   * `restoreState`: without a player id nothing is restored. A stored entry is used only
   * when its timestamp is within the last hour; a missing or stale entry means no restore.
   * Only when the read itself fails does the page fall back to the `puzzleState` session
   * item, which needs the `imagePath` item too and is not checked for age.
   */
  function RestoreState(s: Session, storedId: string, remote: RemoteRead, saved: Option<Snapshot>, savedImagePath: string, now: int)
    : (r: (Session, bool))
    ensures r.1 ==> r.0.started
    ensures !r.1 ==> r.0.tiles == s.tiles && r.0.started == s.started
  {
    var id := if s.playerId != "" then s.playerId else storedId;
    var s1 := s.(playerId := id);
    if id == "" then (s1, false)
    else
      match remote
      case ReadOk(entry) =>
        if entry.Some? && entry.value.timestamp > now - MaxSnapshotAge then (Resume(s1, entry.value), true)
        else (s1, false)
      case ReadFailed =>
        if saved.Some? && savedImagePath != "" then (Resume(s1, saved.value), true)
        else (s1, false)
  }

  /** A successful read restores exactly when it holds an entry younger than an hour. */
  lemma RestoreOnlyFresh(s: Session, storedId: string, entry: Option<Snapshot>, saved: Option<Snapshot>, savedImagePath: string, now: int)
    requires s.playerId != "" || storedId != ""
    ensures RestoreState(s, storedId, ReadOk(entry), saved, savedImagePath, now).1
      <==> entry.Some? && entry.value.timestamp > now - MaxSnapshotAge
  {
  }

  /** A failed read falls back to the session item whatever its age. */
  lemma FallbackIgnoresAge(s: Session, storedId: string, snap: Snapshot, savedImagePath: string, now: int)
    requires s.playerId != "" || storedId != ""
    requires savedImagePath != ""
    ensures var r := RestoreState(s, storedId, ReadFailed, Some(snap), savedImagePath, now);
      r.1 && r.0.tiles == snap.tiles
  {
  }

  /**
   * Saving and restoring within the hour gives back the board, the move count and the
   * start time (the save time when the page had none), and the game runs again.
   */
  lemma SaveRestoreRoundTrip(s: Session, stored: Stored, saved: int, later: int, puzzleNumber: Option<string>, t: Session)
    requires SaveState(s, stored, saved, puzzleNumber).1.Some?
    requires saved <= later < saved + MaxSnapshotAge
    requires t.playerId != ""
    ensures var snap := SaveState(s, stored, saved, puzzleNumber).1;
      var r := RestoreState(t, "", ReadOk(snap), None, "", later);
      && r.1 && r.0.started && r.0.tiles == s.tiles && r.0.moves == s.moves
      && r.0.startTime == (if s.startTime != 0 then s.startTime else saved)
  {
  }

  // ---------------------------------------------------------------------------------------
  // getPuzzleNumberFromUrl
  // ---------------------------------------------------------------------------------------

  /**
   * `getPuzzleNumberFromUrl`: the digits of `puzzle<digits>.html` in the page's path, else
   * in the stored return URL, else the stored `puzzleNumber` item.
   */
  function PuzzleNumber(path: string, returnUrl: Option<string>, storedNumber: Option<string>): (r: Option<string>)
    ensures PuzzleNumberIn(path).Some? ==> r == PuzzleNumberIn(path)
    ensures PuzzleNumberIn(path).None? && returnUrl.Some? && PuzzleNumberIn(returnUrl.value).Some? ==>
      r == PuzzleNumberIn(returnUrl.value)
    ensures PuzzleNumberIn(path).None? && (returnUrl.None? || PuzzleNumberIn(returnUrl.value).None?) ==>
      r == storedNumber
  {
    var fromPath := PuzzleNumberIn(path);
    if fromPath.Some? then fromPath
    else
      var fromReturn := if returnUrl.Some? then PuzzleNumberIn(returnUrl.value) else None;
      if fromReturn.Some? then fromReturn else storedNumber
  }

  /** On the page `/puzzle<n>.html` the number is `n`, whatever storage holds. */
  lemma PuzzlePageNumber(n: nat, returnUrl: Option<string>, storedNumber: Option<string>)
    ensures PuzzleNumber("/" + PuzzlePrefix + NatToString(n) + PuzzleSuffix, returnUrl, storedNumber) == Some(NatToString(n))
  {
    var d := NatToString(n);
    var path := "/" + PuzzlePrefix + d + PuzzleSuffix;
    assert path == "/" + (PuzzlePrefix + d + PuzzleSuffix);
    assert StartsAt(path, PuzzlePrefix + d + PuzzleSuffix, 1) by {
      assert path[1..1 + |PuzzlePrefix + d + PuzzleSuffix|] == PuzzlePrefix + d + PuzzleSuffix;
    }
    MatchesAtOccurrence(path, 1, d);
    assert !MatchesAt(path, 0) by {
      assert path[0] == '/';
      assert !StartsAt(path, PuzzlePrefix, 0) by {
        assert path[0..|PuzzlePrefix|][0] == '/';
      }
    }
    LeftmostMatch(path, 1);
  }
}
