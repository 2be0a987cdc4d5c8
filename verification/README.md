# slidz in Dafny

A model of the logic of slidz, a browser sliding-puzzle event. Teams register and wait in
a lobby. An admin starts the event. Each team solves a 3 x 4 picture puzzle against a
five-minute countdown. Then the results are ranked on a leaderboard. The model covers the
parts of the five page scripts that decide something:

- **Board and game session** (`script.js`): the grid, the moves, the shuffle and its
  acceptance tests, the `gameStarted` guard, the completion records, the saved snapshot
  and the puzzle-number lookup.
- **Admin panel** (`admin.js`): the results order and score, the status merges, the retry
  loop, the record that starts the event, and the registration switch.
- **Leaderboard page** (`leaderboard.js`): accuracy, ranking, rank and result message.
- **Countdown** (`timeSync.js`): the remaining time and the timer's ticks.
- **Registration page** (`registration.js`): the session check, the storage cleanups, the
  team-name guard and the attract-mode animation.

The store reads, the clock and `Math.random` are parameters. A store read becomes an
argument, a write becomes a returned value, `Date.now()` becomes `now`, and a random
choice becomes an oracle (`draw`, `choice`). Browser storage is a `map<string, string>`,
and a missing key reads as `""`. A JSON field that may be missing or `null` is an
`Option`.

Modules, one file each:

- `wrappers.dfy`: `Option` and `Result`.
- `text.dfy`: numbers as text, `split`, `padStart`, `trim` and the pattern
  `/puzzle(\d+)\.html/`.
- `board.dfy`: the grid.
- `difficulty.dfy`: the difficulty band and the inversion count.
- `shuffle.dfy`: `shuffle` and `shuffleBoard`.
- `clock.dfy`: `formatTime` and `convertTimeToSeconds`.
- `jsmath.dfy`: `Math.round` on exact ratios.
- `timesync.dfy`: the countdown.
- `records.dfy`: completion records.
- `sorting.dfy`: a stable insertion sort by a comparator.
- `session.dfy`: one player's game.
- `admin.dfy`, `leaderboard.dfy`, `registration.dfy`: the three pages.

## Model

| member | source | states |
|---|---|---|
| Board.Position | script.js:723-728 | An index inside the grid maps to its row and column, with row * 4 + column giving the index back. The index -1 maps to a negative row, using JavaScript's truncating remainder. |
| Board.AdjacentSymmetric | script.js:730-734 | Two positions are adjacent in either order or not at all. |
| Board.NotAdjacentToMissing | script.js:730-734 | The -1 that `indexOf` returns for a missing tile is adjacent to no index `indexOf` can return. So a click on a missing tile never moves. |
| Board.BelowIsAdjacent | script.js:730-734 | A position and the one a row below it are adjacent, whatever its column. |
| Board.ValidMoves | script.js:673-685 | A blank in the grid has between two and four valid moves, and the first two differ. |
| Board.ValidMovesInGrid | script.js:673-685 | Every valid move of a blank in the grid lies in the grid and is adjacent to the blank. No move wraps from one row end to the next row. |
| Board.NeighboursAreValidMoves | script.js:673-685 | For positions in the grid, `j` is a valid move from `e` exactly when `j` and `e` are adjacent. |
| Board.ValidMovesExact | script.js:673-685 | The valid moves of a blank in the grid are exactly its in-grid neighbours. |
| Board.Candidates | script.js:660 | The moves a walk may take are exactly the in-grid neighbours other than the previous blank position. From inside the grid there is always at least one. |
| Board.Without | script.js:660 | `filter(x => x !== v)` keeps exactly the elements other than `v`. |
| Board.Swap | script.js:746-747 | The two positions exchange their tiles and every other position is unchanged. |
| Board.SwapPermutes | script.js:746-747 | A swap keeps the multiset of tiles, so a permutation of 0..11 stays one. |
| Board.SwapUndo | script.js:746-747 | Swapping the same two positions a second time gives back the board before the first swap. |
| Board.IndexOf | script.js:741-742 | `indexOf` gives -1 exactly when the value is absent. Otherwise it gives the first position holding the value. |
| Board.InitialBoard | script.js:588-592 | The starting board has twelve positions, is solved and has the blank last. |
| Board.InitialBoardValid | script.js:588-592 | The starting board holds every tile 0..11 once. |
| Board.SolvedIsInitial | script.js:876-881 | On a real board, `isSolved` holds exactly for the starting board. |
| Board.CorrectCountOfValidBoard | leaderboard.js:141-145 | At most eleven positions of a real board hold their own tile, and a solved board has all eleven. |
| Board.TilesMembers | script.js:588-592 | The tile multiset of a size-`n` board holds each value 0..n-1 exactly once and nothing else. |
| Board.ValidBoardFacts | script.js:588-592 | A real board has twelve positions and one blank, and every tile is in 0..11. |
| Difficulty.IsTooDifficult | script.js:687-708 | The source's loop rejects a board unless its Manhattan sum is in 25..45 and 5 to 7 picture tiles are out of place. The thresholds 4.8 and 7.2 come from 0.4 * 12 and 0.6 * 12. |
| Difficulty.InitialBoardTooDifficult | script.js:687-708 | The solved board is outside the band. So a walk that returns to it is always retried. |
| Difficulty.OutOfPlaceOfValidBoard | script.js:687-708 | On a real board, the out-of-place count is eleven minus the number of tiles in place. |
| Difficulty.IsSolvable | script.js:860-870 | The nested loops accept a board exactly when the inversions among non-blank tiles are even. |
| Difficulty.CountAbove | script.js:863-867 | The inner loop counts the later picture tiles smaller than the tile at `i`. |
| Difficulty.HorizontalMoveKeepsParity | script.js:860-870 | Sliding the blank within its row leaves the inversion count, and so `isSolvable`, unchanged. |
| Difficulty.InversionsSwapBlank | script.js:860-870 | Exchanging the blank with the next entry in row-major order keeps the inversion count. |
| Difficulty.InitialBoardSolvable | script.js:860-870 | The starting board has no inversions, so `isSolvable` accepts it. |
| Difficulty.OneVerticalMoveRejected | script.js:860-870 | A board one vertical blank move from solved has three inversions, so `isSolvable` rejects a board that can be solved. |
| Difficulty.OneVerticalMoveInversions | script.js:860-868 | The tiles 1..7, the blank, then 9, 10, 11, 8 form exactly three inversions. |
| Difficulty.OneVerticalMoveValid | script.js:860-870 | That board is a real board. |
| Shuffle.Shuffle | script.js:654-671 | The 200 steps form a walk of the blank. It starts at the blank and stays in the grid. Each step goes to a neighbour, never straight back. The result is the board with the blank carried along that walk. |
| Shuffle.ApplyWalkPermutes | script.js:654-671 | A walk only rearranges the tiles. |
| Shuffle.ApplyWalkMovesBlank | script.js:654-671 | After the walk the blank sits at the walk's last position. |
| Shuffle.ShuffleKeepsValid | script.js:654-671 | Shuffling a real board gives a real board. |
| Shuffle.WalkStep | script.js:660-669 | Taking a candidate move extends a no-backtracking walk by one swap. |
| Shuffle.IsAcceptable | script.js:718 | The loop exits early exactly on a board that passes `isSolvable` and is not too difficult. |
| Shuffle.ShuffleBoard | script.js:710-721 | Shuffling happens 1 to 10 times, each time on the previous result. Every board before the last was rejected. If it stops before the tenth shuffle, the board is acceptable. The result is a real board. |
| Shuffle.AcceptableNotSolved | script.js:710-721 | An accepted board is never the solved board. |
| Clock.FormatTimeShape | admin.js:1180-1184 | A non-negative duration renders as the whole minutes, a colon, and two seconds digits. |
| Clock.ConvertTimeToSeconds | admin.js:1187-1190 | The result is a number exactly when the first two `:` fields are digit strings. The number is never negative. Otherwise it is `NaN`. |
| Clock.FormatTimeRoundTrip | admin.js:1180-1190 | For milliseconds ≥ 0, `convertTimeToSeconds(formatTime(ms))` is the whole seconds of `ms`. |
| Clock.MinutesSecondsRoundTrip | admin.js:1187-1190 | Minutes and padded seconds below 60 read back as minutes * 60 + seconds. |
| Clock.ConvertFields | admin.js:1187-1190 | Two digit fields worth `m` and `s`, joined by a colon, read back as `m * 60 + s` seconds. |
| Clock.ReadTwoFields | admin.js:1188-1189 | Digit fields worth `m` and `s` combine to `m * 60 + s`. |
| Text.DigitsValueOfNatToString | admin.js:1180-1190 | Reading back the decimal text of a number gives the number. |
| Text.SplitPair | admin.js:1188 | Splitting `a:b` at the colon gives `a` and `b` when neither holds a colon. |
| Text.PadStart2 | admin.js:1183 | `padStart(2, '0')` keeps a text of two or more characters. A shorter text gets zeros in front up to two characters. |
| Text.PuzzleNumberIn | script.js:576 | `match(/puzzle(\d+)\.html/)` finds no number exactly when the pattern occurs nowhere. Otherwise it captures the digits of the leftmost occurrence. |
| Text.MatchesAtOccurrence | script.js:576 | Every occurrence of `puzzle`, digits, `.html` is a match capturing exactly those digits. |
| Text.LeftmostMatch | script.js:576 | A match with no match before it is the one `match` captures, so its digits are the puzzle number. |
| Text.Trim | registration.js:155 | `trim()` is empty exactly for an all-blank name. Otherwise the result is the name between its leading and trailing blanks. |
| Text.Lookup | registration.js:7-16 | `getItem` of a missing key reads as empty. |
| Records.OrDefault | admin.js:1045-1050 | `x \|\| d` gives `d` for a missing value or 0, and `x` otherwise. |
| JsMath.RoundRatio | admin.js:600 | `Math.round(n / d)` is the integer within one half of `n / d`, rounding halves up. |
| JsMath.RoundRatioMonotonic | admin.js:600 | Rounding keeps the order of ratios. |
| JsMath.RoundRatioExact | admin.js:600 | A whole ratio rounds to itself. |
| JsMath.RoundRatioUnique | admin.js:600 | `Math.round` of a ratio is the only integer within one half of it. |
| TimeSync.RemainingTime | timeSync.js:13-16 | The time left is never negative. It is 0 exactly when five minutes have passed since the start, and otherwise the limit minus the time elapsed. |
| TimeSync.RemainingNonIncreasing | timeSync.js:13-16 | A later clock reading never leaves more time. |
| TimeSync.RemainingStaysZero | timeSync.js:13-16 | Once no time is left, none comes back. |
| TimeSync.RemainingAtMostLimit | timeSync.js:13-16 | After the start, at most five minutes are left. |
| TimeSync.CountdownText | timeSync.js:6-11 | A missing time shows `0:00`. |
| TimeSync.CountdownTextIsFormatTime | timeSync.js:6-11 | The falsy guard agrees with the general `m:ss` rendering, since zero renders as `0:00` anyway. |
| TimeSync.StartTimer | timeSync.js:18-21 | Without a timer element, nothing is scheduled. Otherwise a running interval starts that has not completed. |
| TimeSync.Tick | timeSync.js:23-38 | A cleared interval does nothing. A tick completes at most once more. The warning class is never removed. |
| TimeSync.StoppedTimerStaysStopped | timeSync.js:25-29 | After `clearInterval`, no later tick changes anything. |
| TimeSync.CompletesAtMostOnce | timeSync.js:25-29 | `onComplete` runs at most once, and not at all while the interval runs. |
| TimeSync.DeadlineEndsCountdown | timeSync.js:25-29 | A tick at or past the deadline leaves the interval cleared and showing `0:00`. `onComplete` has then run exactly once if it was given. |
| TimeSync.StoppedText | timeSync.js:25-29 | A cleared interval shows `0:00` and has run `onComplete` once if it was given. |
| TimeSync.WarningExactly | timeSync.js:35-37 | After a run, the warning class is present exactly when it was before, or when some tick of the running interval had between 0 and 60 seconds left. |
| Session.StartGame | script.js:1336-1361 | A running game is untouched. Otherwise the id and name are re-read from storage if either is missing. The game starts exactly when both are present, with zero moves and the start time now. Its board is the last of `shuffleBoard`'s one to ten shuffles of the current board, which is acceptable if fewer than ten were needed; every earlier shuffle was rejected (`Shuffle.ShuffledFrom`). The board stays a real board, and a game that does not start keeps its board. |
| Session.MoveTile | script.js:736-765 | A move keeps the running flag, the player and the start time. It adds at most one move, and a click that adds none changes nothing. A win is signalled only on a solved board of a running game. A click next to the blank moves (`Session.MoveAt`); any other click is ignored (`Session.MoveNotAdjacent`). |
| Session.MoveOfAbsentOrBlank | script.js:736-765 | Clicking the blank or a value not on the board changes nothing. |
| Session.MoveKeepsValid | script.js:736-765 | A move keeps a real board real. |
| Session.MoveAt | script.js:744-752 | On a real board in a running game, clicking the tile next to the blank swaps exactly those two positions and adds one move. It signals a win exactly when the result is solved. |
| Session.MoveNotAdjacent | script.js:740-744 | On a real board in a running game, clicking a tile that is not next to the blank changes neither the board nor the move count. |
| Session.MoveUndo | script.js:736-765 | Clicking the tile just moved again restores the board, at the cost of a second move. |
| Session.UniqueIndex | script.js:741-742 | On a real board, `indexOf` finds the only position of a tile. |
| Session.Distinct | script.js:741-742 | Two positions of a real board hold different tiles. |
| Session.GameOver | script.js:902-948 | Once the game has ended, `gameOver` writes nothing. Otherwise it ends the game and writes one record for the player. A timeout has no time, and its progress counts the positions holding their own tile out of all twelve positions. A completion has the time since the start. |
| Session.GameOverIdempotent | script.js:902-903 | A second `gameOver` changes nothing and writes nothing. |
| Session.TimeoutProgressBounds | script.js:912-932 | A timeout on a real board records 0 to 11 tiles correct out of 12, and 11 when the board is solved. |
| Session.HandleWin | script.js:950-979 | `handleWin` as written ends the game whether or not it was running. It writes a completed record with the time since the start exactly when a player id is known. |
| Session.HandleWinGuarded | script.js:902-903 | With the guard `gameOver` has, `handleWin` after the game has ended does nothing. |
| Session.Written | script.js:935-937 | A record produces one store write, and no record produces none. |
| Session.Step | script.js:736-765 | One event writes at most one record. |
| Session.GuardedWritesAtMostOnce | script.js:902-903 | With the guard, any interleaving of clicks, countdown expiry and scheduled wins writes at most one record per game. |
| Session.WrittenWritesTwice | script.js:950-952 | As written, a solving click, then expiry, then the scheduled `handleWin` writes a timeout record and then a completed one. |
| Session.GuardedWritesOnce | script.js:950-952 | The same events with the guard write only the timeout record. |
| Session.RunThree | script.js:736-765 | Three events are three steps. |
| Session.RunSnoc | script.js:736-765 | One more event is one more step. |
| Session.SolvingClick | script.js:757-760 | Clicking tile 11 on the solved board with its last two positions swapped solves it. |
| Session.SaveState | script.js:1175-1235 | A snapshot is written exactly when there are tiles and an id and name, read from storage if needed. It carries the board, the save time and the name. The game itself is unchanged. |
| Session.Resume | script.js:1260-1265 | Restoring takes the snapshot's board and move count, and the game runs again. |
| Session.RestoreState | script.js:1237-1304 | A restore leaves the game running. A failed restore leaves the board and the running flag as they were. |
| Session.RestoreOnlyFresh | script.js:1249 | After a successful read, a restore happens exactly when the entry is younger than an hour. |
| Session.FallbackIgnoresAge | script.js:1282-1299 | After a failed read, the session item is restored whatever its age. |
| Session.SaveRestoreRoundTrip | script.js:1175-1265 | Saving and then restoring within the hour gives back the board and the move count. The start time is the saved one, or the save time when there was none. The game runs again. |
| Session.PuzzleNumber | script.js:574-586 | The number comes from the page path if it matches, else from the stored return URL, else from the stored `puzzleNumber`. |
| Session.PuzzlePageNumber | script.js:574-577 | On the page `/puzzle<n>.html`, the number is `n`, whatever storage holds. |
| Sorting.Insert | admin.js:1035 | Insertion keeps the multiset and adds the new element. |
| Sorting.InsertSorted | admin.js:1035 | Inserting into a sorted list by a total preorder keeps it sorted. |
| Sorting.Sort | admin.js:1035 | The sort is a permutation of its input. |
| Sorting.SortSorted | admin.js:1035 | Under a total preorder, the sort's output is sorted. |
| Sorting.Filter | leaderboard.js:116-117 | Every kept element satisfies the predicate, every satisfying element is kept, and nothing is kept more often than it occurs. |
| Sorting.FilterMultiplicity | leaderboard.js:116-117 | Each satisfying element is kept exactly as often as it occurs, and no other element is kept. |
| Sorting.FilterConcat | leaderboard.js:116-117 | Filtering `a + b` gives the kept elements of `a` followed by those of `b`, so the input order is kept. |
| Sorting.FilterSingle | leaderboard.js:116-117 | A single element is kept exactly when it satisfies the predicate. |
| Admin.MayPrecedeIsTotalPreorder | admin.js:1035-1051 | The results comparator is total and transitive, with `null` times read as 0. |
| Admin.SortLeaderboardData | admin.js:1034-1052 | The sorted results are a permutation of the records. |
| Admin.SortLeaderboardDataOrdered | admin.js:1034-1052 | Every completed record precedes every other one. Completed records come by time. The rest come by correct tiles, most first, and then by moves, fewest first. |
| Admin.CalculateScore | admin.js:592-601 | A completed record scores 100. Otherwise the score is within one half of 100 * correct / total, rounding halves up. |
| Admin.ScoreIsNearestPercentage | admin.js:597-600 | The integer within one half of a timeout's percentage of correct tiles is its score. |
| Admin.ScoreBounds | admin.js:592-601 | With 0 to all of its tiles correct, a record scores between 0 and 100. |
| Admin.TimeoutScoreBelowCompletion | admin.js:592-601 | The timeout record of a real board scores at most 92, below a completion's 100. |
| Admin.TwelveTileScore | admin.js:592-601 | Eleven or fewer correct tiles out of twelve score between 0 and 92 percent. |
| Admin.ProgressOfCompletedReadsBack | admin.js:651-656 | A completed record's progress text, read back by `convertTimeToSeconds`, gives the whole seconds of its time. |
| Admin.ProgressOfOthersIsNoTime | admin.js:651-656 | Any other record's `n/m tiles` text never reads as a time. |
| Admin.NoColonInNumber | admin.js:655 | The decimal text of a number holds no colon. |
| Admin.FinishedIds | admin.js:361-367 | The finished ids are exactly those whose record is completed or timed out. |
| Admin.PlayerStatuses | admin.js:336-381 | The statuses cover the lobby, the finished ids and the ids with a puzzle state. A finished record sets its status. A puzzle state makes an unfinished player playing. A lobby player with neither stays in the lobby. |
| Admin.FinishedNeverDowngraded | admin.js:370-374 | A finished player is never shown as playing again. |
| Admin.NameOr | admin.js:179 | `name \|\| fallback` keeps a non-empty name. |
| Admin.KnownRows | admin.js:155-159 | Each remembered name gets a row with unknown status. |
| Admin.LobbyRows | admin.js:162-171 | Lobby ids become in-lobby, and new ids bring their lobby name. |
| Admin.ActiveRows | admin.js:174-183 | Ids with a puzzle state become playing. New ids are named by the state, else by the remembered name, else `Unknown`. |
| Admin.CompletionRows | admin.js:186-194 | Completion records update only existing rows, with their status and data. |
| Admin.UpdateAllStatusesKeys | admin.js:150-198 | There is one row per remembered, lobby or active id, and completions add none. |
| Admin.UpdateAllStatusesStatus | admin.js:150-198 | A completion record fixes a row's status and data. Without one, the status is playing if active, else in the lobby, else unknown. |
| Admin.UpdateAllStatusesName | admin.js:150-198 | A row's name comes from the remembered names, else the lobby, else the puzzle state or `Unknown`. |
| Admin.UnknownCompletionDropped | admin.js:186-194 | A completion for a player never seen adds no row. |
| Admin.WithRetry | admin.js:1014-1032 | At most `maxAttempts` calls are made, and all but the last failed. A success returns that call's value. After all attempts fail, the last error is thrown, or `undefined` if there were none. The waits total 1 + 2 + ... seconds, one between each pair of attempts. |
| Admin.StartEvent | admin.js:424-495 | The event stops for no puzzle number, an empty lobby or a declined confirmation, each exactly in its case. Otherwise the game state is started and records the lobby count, zero completed, an unpublished leaderboard and five minutes. Every lobby player is playing from now, with its registration time or now. |
| Admin.StartEventUrlReadsBack | admin.js:470-473 | A player sent to the event's puzzle page reads back the event's puzzle number there. |
| Admin.ToggleRegistration | admin.js:244-273 | The new state is the opposite of the stored one, where a missing state reads as open. It is stamped with now. |
| Admin.ToggleTwice | admin.js:244-273 | Toggling twice restores the original state. |
| Leaderboard.CorrectTileCount | leaderboard.js:141-145 | The correct-tile count is the number of positions holding their own tile, or 0 without a board. |
| Leaderboard.CorrectTileCountOfValidBoard | leaderboard.js:141-145 | A real board counts at most eleven. |
| Leaderboard.MoveEfficiency | leaderboard.js:81 | The move score is 0 to 100, and 0 exactly from 50 moves on. |
| Leaderboard.Accuracy | leaderboard.js:72-83 | A completed player has accuracy 100. Otherwise the accuracy is within one half of the mean of 100 * correct / 11 and the move score, rounding halves up. |
| Leaderboard.AccuracyIsNearestMean | leaderboard.js:75-83 | The integer within one half of that mean is the accuracy of a player who did not complete. |
| Leaderboard.AccuracyBounds | leaderboard.js:72-83 | With at most eleven tiles and a non-negative move count, accuracy is between 0 and 100. |
| Leaderboard.AccuracyAllTilesNoMovesLeft | leaderboard.js:72-83 | A timed-out solved board with 50 or more moves scores exactly 50. |
| Leaderboard.PlayerOf | leaderboard.js:89-108 | An entry keeps the record's id, status, time and moves, and has 10 points exactly when completed. A timeout with a puzzle state takes that state's board, and its accuracy comes from that board and move count. Every other entry has accuracy 100 and no board. |
| Leaderboard.ProcessPlayerData | leaderboard.js:85-112 | There is one entry per completion record, in order. |
| Leaderboard.PointsIffCompleted | leaderboard.js:96 | Exactly the completed players earn points, ten each. |
| Leaderboard.ComparatorsConsistent | leaderboard.js:120-135 | Both ranking comparators are total preorders. |
| Leaderboard.CompletedBeforeAgrees | leaderboard.js:120-123 | The source's `!==` time test and the ranking's comparator agree unless one time is missing and the other is 0. |
| Leaderboard.CompletedBeforeAsWrittenNotTransitive | leaderboard.js:120-123 | With times missing, 0 and missing, the source's comparator ties the first two and the last two but orders the last before the first, so it is not a total preorder. |
| Leaderboard.RankPlayers | leaderboard.js:114-139 | The ranking is a permutation of the completed and the timed-out players. |
| Leaderboard.RankPlayersMembers | leaderboard.js:114-139 | A player is ranked exactly when it completed or timed out. |
| Leaderboard.RankPlayersCounts | leaderboard.js:114-139 | Each completed or timed-out player appears in the ranking as often as in the input, and no other player appears. |
| Leaderboard.RankPlayersOrdered | leaderboard.js:114-139 | Completed players come first, by time and then moves. Timed-out players follow, by tiles in place, most first, and then by accuracy. |
| Leaderboard.RankOf | leaderboard.js:151-152 | The rank is absent exactly when no entry has the id. Otherwise it is one more than the first such entry's index. |
| Leaderboard.CeilDiv | leaderboard.js:213-214 | `Math.ceil(n / d)` is the least integer at least `n / d`. |
| Leaderboard.GetResultMessage | leaderboard.js:206-217 | A player who did not complete always gets the time's-up message. Ranks 1 to 3 get the podium messages. |
| Leaderboard.ResultMessageBands | leaderboard.js:213-216 | Below the podium, a rank r gets the top-25% message exactly when r ≤ ⌈n/4⌉. Otherwise it gets the top-50% message exactly when r ≤ ⌈n/2⌉, and the thanks message from there on. |
| Registration.CheckSessionExactly | registration.js:5-25 | A direct visit always registers anew. Otherwise a player may skip registration exactly when the game or the admin has started and the id, name and return URL are all stored. |
| Registration.CleanOldGameData | registration.js:268-288 | Both stores lose exactly `gameState`, `puzzleState`, `gameInProgress` and `gameStarted`, and every other value is unchanged. |
| Registration.CleanKeepsPreferences | registration.js:268-288 | The theme and preferences survive the cleanup. |
| Registration.CleanAllDeviceData | registration.js:32-76 | Local storage ends empty, and session storage holds `directAccess`. The return URL is kept exactly when the URL mentions `puzzle`. The number and image are kept exactly when the URL names a puzzle page. |
| Registration.MatchContainsPrefix | registration.js:40-45 | A URL naming a puzzle page mentions `puzzle`. |
| Registration.CleanedDeviceRegisters | registration.js:5-10 | A cleaned device always goes through registration. |
| Registration.JoinGame | registration.js:152-185 | Nothing happens exactly for an all-blank team name. Otherwise the direct-access flag goes, the new id and trimmed name are stored, and every other key keeps its value. |
| Registration.JoinThenCheck | registration.js:5-25 | After joining, the player may come back without registering exactly when the game or admin has started and a return URL is stored. |
| Registration.KeptKey | registration.js:165-184 | A key that joining does not touch reads the same after it. |
| Registration.AttractStep | registration.js:521-533 | A hidden page or a sliding tile leaves the animation alone. Otherwise the blank moves to an in-grid neighbour other than the previous position. |
| Registration.AttractStaysInGrid | registration.js:464-533 | However the frames go, the blank stays in the grid, and each move goes to a neighbour. |

## Left out

- **Stores, DOM and scheduling:**
  - The realtime store and the document store are left out. Their reads are inputs and their writes are outputs.
  - Cookies, the DOM, modals, CSS, touch handling, sounds and images are left out.
  - `setTimeout` and `setInterval` are left out. The interval is a sequence of tick times, the 300 ms win delay is a pending count, and the attract-mode `requestAnimationFrame` loop is one atomic step per frame.
- **Other files:** lobby.js, waiting.js, waiting_leaderboard.js, thankyou.js, firebaseConnection.js, config.js and vite.config.js are not part of this model.
- **Unused or broken code:**
  - The admin's `showLeaderboard` and the Excel export are left out.
  - The leaderboard's `toFixed` time text is left out.
  - The unused `init`, `initializePuzzle`, `listenForGameStart` and `handleGameCompletion` in script.js are left out.
  - The shadowed `getPuzzleNumberFromUrl` at script.js:382 is left out.
- **Floating point:** `Math.round` and `Math.ceil` are computed on exact ratios. IEEE rounding of values like 91.666… is not modelled.
- Text.JsNumber: `Number(...)` accepts only plain digit strings here. Signs, decimals, exponents and surrounding blanks are not modelled.
- Text.IsSpace: `trim` removes only space, tab, newline and carriage return here, not every Unicode blank.
- Shuffle.Shuffle: it requires a full board with a blank, as every caller in the source has. On a board without a blank, the source's walk from index -1 is not modelled. The source's `continue` for an empty candidate list never fires inside the grid.
- Difficulty.IsSolvable: it is modelled as written, counting inversions among picture tiles and ignoring the blank's row. This is not the solvability rule for a grid of even width. `OneVerticalMoveRejected` shows a solvable board it rejects. The model keeps this behaviour.
- Session.GameOver: the record is returned even when the player id is empty, where the source's store write fails and the record lands in session storage instead. The store write itself, `completedAt` and `lastMove` (clock strings) are left out.
- Session.StartGame: requires the board to be a real board, which `setupInitialBoard` builds (script.js:588-592) and every move keeps (Session.MoveKeepsValid). The UI updates, the `personalStartTime` write, `saveState` and `startTimer` are left out.
- Session.MoveTile: the `saveState` call after each move and the UI updates are not composed into it. `SaveState` is modelled on its own.
- Session.RestoreState:
  - The code falls back to the session item only when the store read throws, and that fallback has no age check. A stale or missing entry simply means no restore. The model follows the code.
  - An exception thrown after a fresh entry has been read (for example, from loading the image) is not modelled.
- Session.HandleWin: the session-storage copy of the result and the success modal are left out.
- Admin.ResultOrder: a `null` time in the completed comparison reads as 0, as JavaScript's subtraction does. An `undefined` time or move count would give `NaN`, which is not modelled. Ties keep the input order, since the sort is stable.
- Leaderboard.Accuracy: an `undefined` move count gives `NaN` in the source. It is modelled like `null`, as 0.
- Leaderboard.CompletedBefore: a missing time reads as 0 in both tests. The source's first test compares the stored times with `!==`, so a missing time and a time of 0 tie there (`null - 0` is 0) without comparing moves. That comparator is not transitive (`CompletedBeforeAsWrittenNotTransitive`), and the ranking would then depend on the engine's sort. The two agree in every other case (`CompletedBeforeAgrees`), and every completed record the puzzle page writes carries a time (script.js:961, 988). A missing move count reads as 0, as for `null`. `NaN` from `undefined` is not modelled.
- Admin.PlayerStatuses: it models the result after the three reads succeed. The `catch` that returns `{}` when a read fails is left out.
- Admin.StartEvent: a numeric puzzle number 0 is not modelled, because the number is a string here. The store writes of the game state and the player names, and `listenForCompletions`, are left out.
- Admin.ToggleRegistration: the panel's `updateRegistrationStatus` display reads a record without `isOpen` as closed, while the toggle reads it as open. Only the toggle is modelled.
- Registration.JoinGame: `stamp` stands for the clock reading and random suffix of the new id. The store write of the player record is left out.
- Leaderboard.GetResultMessage: the rank 0 of a player missing from the ranking is not reached, because the personal result card is only shown for a ranked player.

## Findings

| source | as written | input that shows it | evidently intended | confidence | as-written member | corrected member |
|---|---|---|---|---|---|---|
| script.js:950-952 | `handleWin` ends the game and writes a completed record without checking `gameStarted`. | A move solves the board. Then the countdown expires before the 300 ms delay has passed, and `gameOver(true)` writes a timeout record. The scheduled `handleWin` then writes a completed record over it. | Like `gameOver` (script.js:903), `handleWin` does nothing once the game has ended, so a game writes at most one result. | medium, not executed | Session.WrittenWritesTwice | Session.GuardedWritesAtMostOnce |
