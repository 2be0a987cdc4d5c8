/**
 * The records the pages exchange through the stores: completion records written when a
 * game ends, and the progress part of a timeout record. Missing JSON fields are `None`.
 */
module Records {
  import opened Wrappers

  /**
   * A player's status. The stores hold it as a string; every value other than the four
   * the pages compare against reads as `Unknown`.
   */
  datatype Status = InLobby | Playing | Completed | Timeout | Unknown

  /** How far a player got before time ran out. */
  datatype Progress = Progress(tilesCorrect: Option<int>, totalTiles: Option<int>)

  /**
   * A document of the `completions` collection, keyed by player id. `time` is `null` for a
   * timeout; `progress` is `timeoutProgress`, present only for a timeout.
   */
  datatype Completion = Completion(
    id: string,
    name: string,
    status: Status,
    time: Option<int>,
    moves: Option<int>,
    puzzleNumber: Option<string>,
    progress: Option<Progress>)

  /** JavaScript `x || d` on a number that may be missing: `null`, `undefined` and 0 give `d`. */
  function OrDefault(x: Option<int>, d: int): (r: int)
    ensures x.Some? && x.value != 0 ==> r == x.value
    ensures x.None? || x.value == 0 ==> r == d
  {
    if x.Some? && x.value != 0 then x.value else d
  }

  /** JavaScript `x - y` for numbers that may be `null`: `null` counts as 0. */
  function NullAsZero(x: Option<int>): (r: int)
    ensures x.Some? ==> r == x.value
    ensures x.None? ==> r == 0
  {
    x.GetOr(0)
  }

  /** `timeoutProgress?.tilesCorrect || 0`. */
  function TilesCorrectOf(c: Completion): int {
    if c.progress.Some? then OrDefault(c.progress.value.tilesCorrect, 0) else 0
  }

  /** `timeoutProgress?.totalTiles || 11`. */
  function TotalTilesOf(c: Completion): int {
    if c.progress.Some? then OrDefault(c.progress.value.totalTiles, 11) else 11
  }
}
