/**
 * The admin panel's logic once the store reads are done: the results ordering and score,
 * the per-player status merges, the retry loop around store writes, the game-state record
 * that starts an event, and the registration switch.
 */
module Admin {
  import opened Wrappers
  import opened Text
  import opened Records
  import opened Sorting
  import opened Clock
  import opened JsMath
  import Session
  import TimeSync

  // ---------------------------------------------------------------------------------------
  // sortLeaderboardData
  // ---------------------------------------------------------------------------------------

  /**
   * The comparator of `sortLeaderboardData`: two completed records by time (`null` counts
   * as 0), a completed record before any other, and two others by correct tiles, most
   * first, then by moves, fewest first (a missing count reads as 0).
   */
  function ResultOrder(a: Completion, b: Completion): int {
    if a.status == Completed && b.status == Completed then NullAsZero(a.time) - NullAsZero(b.time)
    else if a.status == Completed then -1
    else if b.status == Completed then 1
    else
      var ap, bp := TilesCorrectOf(a), TilesCorrectOf(b);
      if ap != bp then bp - ap else OrDefault(a.moves, 0) - OrDefault(b.moves, 0)
  }

  /** `a` may stay before `b`: the comparator does not ask for them to be swapped. */
  predicate MayPrecede(a: Completion, b: Completion) {
    ResultOrder(a, b) <= 0
  }

  /** The comparator is consistent, so the sort below is well defined. */
  lemma MayPrecedeIsTotalPreorder()
    ensures TotalPreorder(MayPrecede)
  {
  }

  /** `sortLeaderboardData`: the records rearranged by the comparator. */
  function SortLeaderboardData(data: seq<Completion>): (r: seq<Completion>)
    ensures multiset(r) == multiset(data)
  {
    Sort(data, MayPrecede)
  }

  /** The order the sorted results come out in, stated without the comparator. */
  predicate ResultsOrdered(r: seq<Completion>) {
    && (forall i, j :: 0 <= i < j < |r| && r[j].status == Completed ==> r[i].status == Completed)
    && (forall i, j :: 0 <= i < j < |r| && r[i].status == Completed && r[j].status == Completed ==>
          NullAsZero(r[i].time) <= NullAsZero(r[j].time))
    && (forall i, j :: 0 <= i < j < |r| && r[i].status != Completed && r[j].status != Completed ==>
          || TilesCorrectOf(r[i]) > TilesCorrectOf(r[j])
          || (TilesCorrectOf(r[i]) == TilesCorrectOf(r[j]) && OrDefault(r[i].moves, 0) <= OrDefault(r[j].moves, 0)))
  }

  /**
   * Every completed record comes before every other one; completed records come by time,
   * the rest by correct tiles, most first, and equal counts by moves, fewest first.
   */
  lemma SortLeaderboardDataOrdered(data: seq<Completion>)
    ensures ResultsOrdered(SortLeaderboardData(data))
  {
    MayPrecedeIsTotalPreorder();
    SortSorted(data, MayPrecede);
  }

  // ---------------------------------------------------------------------------------------
  // calculateScore and formatProgress
  // ---------------------------------------------------------------------------------------

  /**
   * `calculateScore`: 100 for a completed record, otherwise the percentage of correct
   * tiles, rounded, out of the recorded total (missing counts read as 0 and 11). The
   * rounding is to the nearest integer, halves up: `r - 1/2 <= 100 * correct / total < r + 1/2`.
   */
  function CalculateScore(c: Completion): (r: int)
    ensures c.status == Completed ==> r == 100
    ensures c.status != Completed && TotalTilesOf(c) > 0 ==>
      TotalTilesOf(c) * (2 * r - 1) <= 200 * TilesCorrectOf(c) < TotalTilesOf(c) * (2 * r + 1)
    ensures c.status != Completed && TotalTilesOf(c) < 0 ==>
      -TotalTilesOf(c) * (2 * r - 1) <= -200 * TilesCorrectOf(c) < -TotalTilesOf(c) * (2 * r + 1)
  {
    if c.status == Completed then 100
    else RoundRatio(100 * TilesCorrectOf(c), TotalTilesOf(c))
  }

  /** A timeout's score is the one integer within a half of its percentage of correct tiles. */
  lemma ScoreIsNearestPercentage(c: Completion, q: int)
    requires c.status != Completed && TotalTilesOf(c) > 0
    requires TotalTilesOf(c) * (2 * q - 1) <= 200 * TilesCorrectOf(c) < TotalTilesOf(c) * (2 * q + 1)
    ensures CalculateScore(c) == q
  {
    RoundRatioUnique(100 * TilesCorrectOf(c), TotalTilesOf(c), q);
  }

  /** A record with between none and all of its tiles correct scores between 0 and 100. */
  lemma ScoreBounds(c: Completion)
    requires 0 <= TilesCorrectOf(c) <= TotalTilesOf(c)
    ensures 0 <= CalculateScore(c) <= 100
  {
    if c.status != Completed {
      var t := TotalTilesOf(c);
      RoundRatioMonotonic(0, 100 * TilesCorrectOf(c), t);
      RoundRatioMonotonic(100 * TilesCorrectOf(c), 100 * t, t);
      RoundRatioExact(0, t);
      RoundRatioExact(100, t);
    }
  }

  /**
   * The timeout record `gameOver` writes for a real board scores at most 92: eleven of
   * twelve tiles is 91.67%, so a timeout never reaches the 100 of a completion.
   */
  lemma TimeoutScoreBelowCompletion(s: Session.Session, now: int, puzzleNumber: Option<string>)
    requires s.started && Board.ValidBoard(s.tiles)
    ensures 0 <= CalculateScore(Session.GameOver(s, true, now, puzzleNumber).1.value) <= 92
  {
    var c := Session.GameOver(s, true, now, puzzleNumber).1.value;
    Session.TimeoutProgressBounds(s, now, puzzleNumber);
    assert 0 <= TilesCorrectOf(c) <= 11 && TotalTilesOf(c) == 12;
    TwelveTileScore(TilesCorrectOf(c));
  }

  /** Up to eleven tiles of twelve round to at most 92 percent. */
  lemma TwelveTileScore(k: int)
    requires 0 <= k <= 11
    ensures 0 <= RoundRatio(100 * k, 12) <= 92
  {
    RoundRatioMonotonic(100 * k, 1100, 12);
    RoundRatioMonotonic(0, 100 * k, 12);
    RoundRatioExact(0, 12);
    assert RoundRatio(1100, 12) == 92;
  }

  /**
   * `formatProgress`: a completed record shows its time as `m:ss` (`null` renders as 0);
   * any other shows `<correct>/<total> tiles`.
   */
  function FormatProgress(c: Completion): string
  {
    if c.status == Completed then FormatTime(NullAsZero(c.time))
    else IntToString(TilesCorrectOf(c)) + "/" + IntToString(TotalTilesOf(c)) + " tiles"
  }

  /**
   * The export reads a completed record's progress text back with `convertTimeToSeconds`:
   * for a recorded time of zero or more it gives the whole seconds of that time.
   */
  lemma ProgressOfCompletedReadsBack(c: Completion)
    requires c.status == Completed && NullAsZero(c.time) >= 0
    ensures ConvertTimeToSeconds(FormatProgress(c)) == Some(NullAsZero(c.time) / MsPerSecond)
  {
    FormatTimeRoundTrip(NullAsZero(c.time));
  }

  /** Any other record's progress text holds no colon, so it never reads as a time. */
  lemma ProgressOfOthersIsNoTime(c: Completion)
    requires c.status != Completed
    ensures ConvertTimeToSeconds(FormatProgress(c)).None?
  {
    var r := FormatProgress(c);
    NoColonInNumber(TilesCorrectOf(c));
    NoColonInNumber(TotalTilesOf(c));
    assert ':' !in r;
    SplitSeparatorFree(r, "", ':');
    assert r + "" == r;
  }

  /** A number's decimal text holds no colon. */
  lemma NoColonInNumber(n: int)
    ensures ':' !in IntToString(n)
  {
    if n < 0 {
      assert IntToString(n) == "-" + NatToString(-n);
      assert ':' !in NatToString(-n) by {
        assert AllDigits(NatToString(-n));
      }
    } else {
      assert AllDigits(NatToString(n));
    }
  }

  // ---------------------------------------------------------------------------------------
  // getPlayerStatuses and updateAllStatuses
  // ---------------------------------------------------------------------------------------

  /** A completion status that ends a player's game. */
  predicate Finished(st: Status) {
    st == Completed || st == Timeout
  }

  /** The ids whose completion record ends their game. */
  function FinishedIds(completions: map<string, Status>): (r: set<string>)
    ensures forall id :: id in r <==> id in completions && Finished(completions[id])
  {
    set id | id in completions && Finished(completions[id])
  }

  /** The first stage of `getPlayerStatuses`: every lobby id is in the lobby. */
  function LobbyStatuses(lobby: set<string>): map<string, Status> {
    map id | id in lobby :: InLobby
  }

  /** The second stage: a completed or timed-out record sets the status it records. */
  function ApplyFinished(m: map<string, Status>, completions: map<string, Status>): map<string, Status> {
    map id | id in m.Keys + FinishedIds(completions) ::
      if id in completions && Finished(completions[id]) then completions[id] else m[id]
  }

  /** The third stage: a puzzle state marks a player as playing unless the status is set past the lobby. */
  function MarkPlaying(m: map<string, Status>, puzzleStates: set<string>): map<string, Status> {
    map id | id in m.Keys + puzzleStates ::
      if id in puzzleStates && (id !in m || m[id] == InLobby) then Playing else m[id]
  }

  /**
   * `getPlayerStatuses` once its three reads have succeeded: the lobby ids, the status
   * of each completion record, and the ids holding a puzzle state.
   */
  function PlayerStatuses(lobby: set<string>, completions: map<string, Status>, puzzleStates: set<string>)
    : (r: map<string, Status>)
    ensures r.Keys == lobby + FinishedIds(completions) + puzzleStates
    ensures forall id :: id in completions && Finished(completions[id]) ==> r[id] == completions[id]
    ensures forall id :: id in puzzleStates && id !in FinishedIds(completions) ==> r[id] == Playing
    ensures forall id :: id in lobby && id !in puzzleStates && id !in FinishedIds(completions) ==> r[id] == InLobby
  {
    MarkPlaying(ApplyFinished(LobbyStatuses(lobby), completions), puzzleStates)
  }

  /** A finished player is never shown as playing again, whatever puzzle state remains. */
  lemma FinishedNeverDowngraded(lobby: set<string>, completions: map<string, Status>, puzzleStates: set<string>, id: string)
    requires id in completions && Finished(completions[id])
    ensures var r := PlayerStatuses(lobby, completions, puzzleStates);
      id in r && Finished(r[id]) && r[id] != Playing
  {
  }

  /** A row of the admin's player list: the name, the status and the completion data. */
  datatype PlayerRow = PlayerRow(name: string, status: Status, result: Option<Completion>)

  /** `player.name || fallback` for a name that may be empty. */
  function NameOr(name: string, fallback: string): (r: string)
    ensures name != "" ==> r == name
    ensures name == "" ==> r == fallback
  {
    if name != "" then name else fallback
  }

  /** The first stage of `updateAllStatuses`: a row for each remembered name, status unknown. */
  function KnownRows(names: map<string, string>): (r: map<string, PlayerRow>)
    ensures r.Keys == names.Keys
    ensures forall id :: id in r ==> r[id] == PlayerRow(names[id], Unknown, None)
  {
    map id | id in names :: PlayerRow(names[id], Unknown, None)
  }

  /** The second stage: lobby players are in the lobby; new ones bring their lobby name. */
  function LobbyRows(m: map<string, PlayerRow>, lobby: map<string, string>): (r: map<string, PlayerRow>)
    ensures r.Keys == m.Keys + lobby.Keys
    ensures forall id :: id in m ==> r[id] == (if id in lobby then m[id].(status := InLobby) else m[id])
    ensures forall id :: id in lobby && id !in m ==> r[id] == PlayerRow(lobby[id], InLobby, None)
  {
    map id | id in m.Keys + lobby.Keys ::
      if id in m then (if id in lobby then m[id].(status := InLobby) else m[id])
      else PlayerRow(lobby[id], InLobby, None)
  }

  /**
   * The third stage: players with a puzzle state are playing; new ones are named by the
   * state, else by the remembered name, else `Unknown`.
   */
  function ActiveRows(m: map<string, PlayerRow>, active: map<string, string>, names: map<string, string>)
    : (r: map<string, PlayerRow>)
    ensures r.Keys == m.Keys + active.Keys
    ensures forall id :: id in m ==> r[id] == (if id in active then m[id].(status := Playing) else m[id])
    ensures forall id :: id in active && id !in m ==>
      r[id] == PlayerRow(NameOr(active[id], NameOr(Lookup(names, id), "Unknown")), Playing, None)
  {
    map id | id in m.Keys + active.Keys ::
      if id in m then (if id in active then m[id].(status := Playing) else m[id])
      else PlayerRow(NameOr(active[id], NameOr(Lookup(names, id), "Unknown")), Playing, None)
  }

  /** The last stage: a completion record updates its player's row, if there is one. */
  function CompletionRows(m: map<string, PlayerRow>, completions: map<string, Completion>): (r: map<string, PlayerRow>)
    ensures r.Keys == m.Keys
    ensures forall id :: id in m ==>
      r[id] == (if id in completions then m[id].(status := completions[id].status, result := Some(completions[id])) else m[id])
  {
    map id | id in m :: if id in completions
      then m[id].(status := completions[id].status, result := Some(completions[id]))
      else m[id]
  }

  /**
   * `updateAllStatuses`: rows for the remembered names, then for the lobby, then for the
   * puzzle states, and last the completion records, which change only rows that exist.
   */
  function UpdateAllStatuses(names: map<string, string>, lobby: map<string, string>, active: map<string, string>,
                             completions: map<string, Completion>): map<string, PlayerRow>
  {
    CompletionRows(ActiveRows(LobbyRows(KnownRows(names), lobby), active, names), completions)
  }

  /** Completion records never add a row: there is one per remembered, lobby or active id. */
  lemma UpdateAllStatusesKeys(names: map<string, string>, lobby: map<string, string>, active: map<string, string>,
                              completions: map<string, Completion>)
    ensures UpdateAllStatuses(names, lobby, active, completions).Keys == names.Keys + lobby.Keys + active.Keys
  {
  }

  /**
   * A completion record fixes a row's status and data; without one, the status is that of
   * the latest source mentioning the player: playing, else in the lobby, else unknown.
   */
  lemma UpdateAllStatusesStatus(names: map<string, string>, lobby: map<string, string>, active: map<string, string>,
                                completions: map<string, Completion>, id: string)
    requires id in names || id in lobby || id in active
    ensures var row := UpdateAllStatuses(names, lobby, active, completions)[id];
      && (id in completions ==> row.status == completions[id].status && row.result == Some(completions[id]))
      && (id !in completions ==> row.result.None? && row.status == StatusWithoutRecord(lobby, active, id))
  {
  }

  /** The status of a player without a completion record. */
  function StatusWithoutRecord(lobby: map<string, string>, active: map<string, string>, id: string): Status {
    if id in active then Playing else if id in lobby then InLobby else Unknown
  }

  /**
   * A row's name comes from the first source that mentions the player: the remembered
   * names, then the lobby, then the puzzle state, which falls back to `Unknown`.
   */
  lemma UpdateAllStatusesName(names: map<string, string>, lobby: map<string, string>, active: map<string, string>,
                              completions: map<string, Completion>, id: string)
    requires id in names || id in lobby || id in active
    ensures UpdateAllStatuses(names, lobby, active, completions)[id].name
      == if id in names then names[id] else if id in lobby then lobby[id] else NameOr(active[id], "Unknown")
  {
  }

  /** A completion record for a player the panel has never seen adds no row. */
  lemma UnknownCompletionDropped(names: map<string, string>, lobby: map<string, string>, active: map<string, string>,
                                 completions: map<string, Completion>, id: string)
    requires id in completions && id !in names && id !in lobby && id !in active
    ensures id !in UpdateAllStatuses(names, lobby, active, completions)
  {
  }

  // ---------------------------------------------------------------------------------------
  // withRetry
  // ---------------------------------------------------------------------------------------

  /**
   * `withRetry`: attempt `k` (from 1) gives `operation(k)`. The first success is returned;
   * after a failed attempt that is not the last, the loop waits `k` seconds. When every
   * attempt fails the last error is thrown, which is `undefined` (`None`) when there were
   * no attempts. `calls` counts the attempts made and `waited` the milliseconds slept.
   */
  method WithRetry<T, E>(operation: nat -> Result<T, E>, maxAttempts: int) returns (r: Result<T, Option<E>>, calls: nat, waited: nat)
    ensures calls <= if maxAttempts > 0 then maxAttempts else 0
    ensures forall k: nat :: 1 <= k < calls ==> operation(k).Err?
    ensures r.Ok? ==> 1 <= calls && operation(calls) == Ok(r.value)
    ensures r.Err? ==> calls == (if maxAttempts > 0 then maxAttempts else 0)
    ensures r.Err? && calls == 0 ==> r.error == None
    ensures r.Err? && calls > 0 ==> operation(calls).Err? && r.error == Some(operation(calls).error)
    ensures waited == 500 * calls * (calls - 1)
  {
    var lastError: Option<E> := None;
    calls, waited := 0, 0;
    var attempt: nat := 1;
    while attempt <= maxAttempts
      invariant 1 <= attempt && calls == attempt - 1
      invariant if maxAttempts >= 1 then attempt <= maxAttempts + 1 else attempt == 1
      invariant forall k: nat :: 1 <= k < attempt ==> operation(k).Err?
      invariant lastError == (if attempt == 1 then None else Some(operation(attempt - 1).error))
      invariant waited == if attempt <= maxAttempts then 500 * attempt * (attempt - 1) else 500 * calls * (calls - 1)
    {
      calls := attempt;
      var outcome := operation(attempt);
      if outcome.Ok? {
        return Ok(outcome.value), calls, waited;
      }
      lastError := Some(outcome.error);
      if attempt < maxAttempts {
        assert 500 * attempt * (attempt - 1) + attempt * 1000 == 500 * (attempt + 1) * attempt;
        waited := waited + attempt * 1000;
      }
      attempt := attempt + 1;
    }
    r := Err(lastError);
  }

  // ---------------------------------------------------------------------------------------
  // startEvent
  // ---------------------------------------------------------------------------------------

  /** A lobby entry: the team name and, if recorded, when it registered. */
  datatype LobbyEntry = LobbyEntry(name: string, registeredAt: Option<int>)

  /** A player of the started game. */
  datatype PlayerEntry = PlayerEntry(name: string, status: Status, startTime: int, registeredAt: int)

  /** The `gameState` record that starts the event. */
  datatype GameState = GameState(
    started: bool,
    puzzleNumber: string,
    startedAt: int,
    totalPlayers: nat,
    completedPlayers: nat,
    leaderboardPublished: bool,
    timeLimit: int,
    puzzleUrl: string,
    players: map<string, PlayerEntry>)

  /** Why `startEvent` stops: no current puzzle, an empty lobby, or the admin declined. */
  datatype StartError = NoPuzzle | EmptyLobby | Declined

  /** The page of puzzle `n`. */
  function PuzzleUrl(n: string): string {
    "/" + PuzzlePrefix + n + PuzzleSuffix
  }

  /**
   * `startEvent` once the current puzzle and the lobby are read: a falsy puzzle number or
   * an empty lobby stops it with a message, and so does declining the confirmation.
   * Otherwise every lobby player starts playing now, and the game state records the count.
   */
  function StartEvent(puzzleNumber: Option<string>, lobby: map<string, LobbyEntry>, confirmed: bool, now: int)
    : (r: Result<GameState, StartError>)
    ensures r == Err(NoPuzzle) <==> puzzleNumber.None? || puzzleNumber.value == ""
    ensures r == Err(EmptyLobby) <==> puzzleNumber.Some? && puzzleNumber.value != "" && |lobby| == 0
    ensures r == Err(Declined) <==> puzzleNumber.Some? && puzzleNumber.value != "" && |lobby| > 0 && !confirmed
    ensures r.Ok? ==>
      && r.value.started && r.value.puzzleNumber == puzzleNumber.value
      && r.value.totalPlayers == |lobby| && r.value.completedPlayers == 0
      && !r.value.leaderboardPublished && r.value.timeLimit == TimeSync.TimeLimit
      && r.value.players.Keys == lobby.Keys
    ensures r.Ok? ==> forall id :: id in lobby ==>
      r.value.players[id] == PlayerEntry(lobby[id].name, Playing, now, OrDefault(lobby[id].registeredAt, now))
  {
    if puzzleNumber.None? || puzzleNumber.value == "" then Err(NoPuzzle)
    else if |lobby| == 0 then Err(EmptyLobby)
    else if !confirmed then Err(Declined)
    else
      var players := map id | id in lobby :: PlayerEntry(lobby[id].name, Playing, now, OrDefault(lobby[id].registeredAt, now));
      Ok(GameState(true, puzzleNumber.value, now, |lobby|, 0, false, TimeSync.TimeLimit, PuzzleUrl(puzzleNumber.value), players))
  }

  /** A player sent to the started game's page reads back the event's puzzle number there. */
  lemma StartEventUrlReadsBack(n: nat, lobby: map<string, LobbyEntry>, now: int, returnUrl: Option<string>, storedNumber: Option<string>)
    requires |lobby| > 0
    ensures var r := StartEvent(Some(NatToString(n)), lobby, true, now);
      r.Ok? && Session.PuzzleNumber(r.value.puzzleUrl, returnUrl, storedNumber) == Some(NatToString(n))
  {
    Session.PuzzlePageNumber(n, returnUrl, storedNumber);
  }

  // ---------------------------------------------------------------------------------------
  // toggleRegistration
  // ---------------------------------------------------------------------------------------

  /** The `systemState/registration` record. */
  datatype Registration = Registration(isOpen: bool, lastUpdated: int)

  /**
   * Whether registration counts as open when read from the store with `?.isOpen ?? true`:
   * a missing record or a missing field means open.
   */
  function IsOpen(stored: Option<Option<bool>>): bool {
    if stored.Some? && stored.value.Some? then stored.value.value else true
  }

  /** `toggleRegistration`: the opposite of the current state, stamped with the time. */
  function ToggleRegistration(stored: Option<Option<bool>>, now: int): (r: Registration)
    ensures r.isOpen != IsOpen(stored) && r.lastUpdated == now
  {
    Registration(!IsOpen(stored), now)
  }

  /** Toggling twice restores the state registration was read in. */
  lemma ToggleTwice(stored: Option<Option<bool>>, t1: int, t2: int)
    ensures ToggleRegistration(Some(Some(ToggleRegistration(stored, t1).isOpen)), t2).isOpen == IsOpen(stored)
  {
  }
}
