/**
 * The registration page's entry gate: whether a returning player may skip registration,
 * the two storage cleanups, the team-name guard of `joinGame`, and the attract-mode
 * animation, a random walk of the blank on the same 3x4 grid as the puzzle.
 * Browser storage is a map from keys to strings; `getItem` of a missing key reads as "".
 */
module Registration {
  import opened Wrappers
  import opened Text
  import Board

  // ---------------------------------------------------------------------------------------
  // checkSession
  // ---------------------------------------------------------------------------------------

  /**
   * `checkSession`: a direct visit (`directAccess` is `'true'`) always registers anew.
   * Otherwise the player skips registration when the game or the admin has started and
   * the player's id, name and return URL are all stored.
   */
  function CheckSession(session: map<string, string>): bool {
    if Lookup(session, "directAccess") == "true" then false
    else
      var started := Lookup(session, "gameStarted") == "true" || Lookup(session, "adminStarted") == "true";
      var hasPlayer := Lookup(session, "playerId") != "" && Lookup(session, "playerName") != "";
      started && hasPlayer && Lookup(session, "puzzleReturnUrl") != ""
  }

  /** The keys a returning player needs, and the flag that overrides them all. */
  lemma CheckSessionExactly(session: map<string, string>)
    ensures CheckSession(session) <==>
      && ("directAccess" !in session || session["directAccess"] != "true")
      && (("gameStarted" in session && session["gameStarted"] == "true") || ("adminStarted" in session && session["adminStarted"] == "true"))
      && "playerId" in session && session["playerId"] != ""
      && "playerName" in session && session["playerName"] != ""
      && "puzzleReturnUrl" in session && session["puzzleReturnUrl"] != ""
  {
  }

  // ---------------------------------------------------------------------------------------
  // cleanOldGameData and cleanAllDeviceData
  // ---------------------------------------------------------------------------------------

  /** The game-specific keys `cleanOldGameData` removes from both stores. */
  const GameKeys: set<string> := {"gameState", "puzzleState", "gameInProgress", "gameStarted"}

  /**
   * `cleanOldGameData`: the theme and preferences are read, the game keys are removed from
   * local and session storage, and a theme or preferences value that was set is written back.
   */
  function CleanOldGameData(local: map<string, string>, session: map<string, string>)
    : (r: (map<string, string>, map<string, string>))
    ensures forall k :: k in r.0 <==> k in local && k !in GameKeys
    ensures forall k :: k in r.1 <==> k in session && k !in GameKeys
    ensures forall k :: k in r.0 ==> r.0[k] == local[k]
    ensures forall k :: k in r.1 ==> r.1[k] == session[k]
  {
    var savedTheme := Lookup(local, "theme");
    var savedPreferences := Lookup(local, "preferences");
    var l := local - GameKeys;
    var s := session - GameKeys;
    var l := if savedTheme != "" then l["theme" := savedTheme] else l;
    var l := if savedPreferences != "" then l["preferences" := savedPreferences] else l;
    (l, s)
  }

  /** The theme and the preferences survive the cleanup unchanged. */
  lemma CleanKeepsPreferences(local: map<string, string>, session: map<string, string>)
    ensures var l := CleanOldGameData(local, session).0;
      Lookup(l, "theme") == Lookup(local, "theme") && Lookup(l, "preferences") == Lookup(local, "preferences")
  {
  }

  /** The image shown for puzzle `n`. */
  function PuzzleImageUrl(n: string): string {
    "/images/" + PuzzlePrefix + n + ".jpg"
  }

  /**
   * `cleanAllDeviceData` on the page at `url`: local storage is emptied and session
   * storage keeps only the direct-access flag and, when the URL mentions a puzzle, the
   * URL to return to, with the puzzle's number and image when the URL names its page.
   */
  function CleanAllDeviceData(url: string): (r: (map<string, string>, map<string, string>))
    ensures r.0 == map[]
    ensures "directAccess" in r.1 && r.1["directAccess"] == "true"
    ensures "puzzleReturnUrl" in r.1 <==> Contains(url, PuzzlePrefix)
    ensures "puzzleReturnUrl" in r.1 ==> r.1["puzzleReturnUrl"] == url
    ensures "puzzleNumber" in r.1 <==> PuzzleNumberIn(url).Some?
    ensures PuzzleNumberIn(url).Some? ==>
      && r.1["puzzleNumber"] == PuzzleNumberIn(url).value
      && "puzzleImageUrl" in r.1 && r.1["puzzleImageUrl"] == PuzzleImageUrl(PuzzleNumberIn(url).value)
    ensures r.1.Keys <= {"directAccess", "puzzleReturnUrl", "puzzleNumber", "puzzleImageUrl"}
  {
    var returnUrl := if Contains(url, PuzzlePrefix) then url else "";
    var number := if Contains(url, PuzzlePrefix) then PuzzleNumberIn(url) else None;
    MatchContainsPrefix(url);
    var session := map["directAccess" := "true"];
    var session := if returnUrl != "" then session["puzzleReturnUrl" := returnUrl] else session;
    var session :=
      if returnUrl != "" && number.Some? then
        session["puzzleNumber" := number.value]["puzzleImageUrl" := PuzzleImageUrl(number.value)]
      else session;
    (map[], session)
  }

  /** A URL naming a puzzle page mentions `puzzle`. */
  lemma MatchContainsPrefix(url: string)
    ensures PuzzleNumberIn(url).Some? ==> Contains(url, PuzzlePrefix)
  {
    if PuzzleNumberIn(url).Some? {
      var i :| 0 <= i && MatchesAt(url, i) && PuzzleNumberIn(url).value == Capture(url, i);
      assert StartsAt(url, PuzzlePrefix, i);
    }
  }

  /** A cleaned device always goes through registration. */
  lemma CleanedDeviceRegisters(url: string)
    ensures !CheckSession(CleanAllDeviceData(url).1)
  {
  }

  // ---------------------------------------------------------------------------------------
  // joinGame
  // ---------------------------------------------------------------------------------------

  /**
   * The session storage `joinGame` leaves for the team name typed: nothing happens when
   * the trimmed name is empty. Otherwise the direct-access flag is removed and the new
   * player's id, the trimmed name and the two registration flags are stored. The id is
   * `player_` followed by `stamp`, which stands for the clock reading and random suffix.
   */
  function JoinGame(session: map<string, string>, teamName: string, stamp: string): (r: Option<map<string, string>>)
    ensures r.None? <==> AllSpace(teamName)
    ensures r.Some? ==> "directAccess" !in r.value
    ensures r.Some? ==> Lookup(r.value, "playerName") == Trim(teamName) && Lookup(r.value, "playerId") == "player_" + stamp
    ensures r.Some? ==> forall k :: k in session && k !in JoinKeys ==> k in r.value && r.value[k] == session[k]
  {
    var name := Trim(teamName);
    if name == "" then None
    else
      var s := session - {"directAccess"};
      Some(s["playerId" := "player_" + stamp]["playerName" := name]["justRegistered" := "true"]["fromRegistration" := "true"])
  }

  /** The keys `joinGame` writes or removes. */
  const JoinKeys: set<string> := {"directAccess", "playerId", "playerName", "justRegistered", "fromRegistration"}

  /**
   * After joining, the player may come back without registering again exactly when the
   * game or the admin has started and a return URL is stored.
   */
  lemma JoinThenCheck(session: map<string, string>, teamName: string, stamp: string)
    requires !AllSpace(teamName)
    ensures var s := JoinGame(session, teamName, stamp).value;
      CheckSession(s) <==>
        && (Lookup(session, "gameStarted") == "true" || Lookup(session, "adminStarted") == "true")
        && Lookup(session, "puzzleReturnUrl") != ""
  {
    var s := JoinGame(session, teamName, stamp).value;
    KeptKey(session, teamName, stamp, "gameStarted");
    KeptKey(session, teamName, stamp, "adminStarted");
    KeptKey(session, teamName, stamp, "puzzleReturnUrl");
    assert Lookup(s, "playerName") != "" && Lookup(s, "playerId") != "";
  }

  /** A key `joinGame` does not touch reads the same after it. */
  lemma KeptKey(session: map<string, string>, teamName: string, stamp: string, k: string)
    requires !AllSpace(teamName) && k !in JoinKeys
    ensures Lookup(JoinGame(session, teamName, stamp).value, k) == Lookup(session, k)
  {
  }

  // ---------------------------------------------------------------------------------------
  // The attract-mode animation
  // ---------------------------------------------------------------------------------------

  /** The animation's state: where the blank is and where it was before the last move. */
  datatype Attract = Attract(empty: int, lastMove: int)

  /** The blank starts in the last position, with no previous move. */
  const AttractStart: Attract := Attract(Board.Size - 1, -1)

  /**
   * One frame of `animate`: nothing while the page is hidden or a tile is still sliding;
   * otherwise the blank moves to a random valid position other than the one it came from.
   * `choice` stands for `Math.random()`: the move taken is `candidates[choice % count]`.
   */
  function AttractStep(a: Attract, hidden: bool, animating: bool, choice: nat): (r: Attract)
    ensures hidden || animating ==> r == a
    ensures 0 <= a.empty < Board.Size && !hidden && !animating ==>
      && 0 <= r.empty < Board.Size && Board.Adjacent(a.empty, r.empty)
      && r.empty != a.lastMove && r.lastMove == a.empty
  {
    if hidden || animating then a
    else
      var moves := Board.Candidates(a.empty, a.lastMove);
      if |moves| == 0 then a
      else
        var next := moves[choice % |moves|];
        assert next in moves;
        Attract(next, a.empty)
  }

  /** One frame of the animation loop: page visibility, the sliding flag and the random pick. */
  datatype Frame = Frame(hidden: bool, animating: bool, choice: nat)

  /** The state after the frames, in order, from `a`. */
  function AttractRun(a: Attract, frames: seq<Frame>): Attract
    decreases |frames|
  {
    if |frames| == 0 then a
    else
      var f := frames[|frames| - 1];
      AttractStep(AttractRun(a, frames[..|frames| - 1]), f.hidden, f.animating, f.choice)
  }

  /** The blank is in the grid and, once it has moved, next to where it came from. */
  predicate AttractInvariant(a: Attract) {
    0 <= a.empty < Board.Size && (a.lastMove == -1 || (0 <= a.lastMove < Board.Size && Board.Adjacent(a.lastMove, a.empty)))
  }

  /**
   * However the frames go, the blank stays inside the grid and each move goes to a
   * neighbour of where it was.
   */
  lemma {:induction false} AttractStaysInGrid(frames: seq<Frame>)
    ensures AttractInvariant(AttractRun(AttractStart, frames))
    decreases |frames|
  {
    if |frames| > 0 {
      AttractStaysInGrid(frames[..|frames| - 1]);
      var a := AttractRun(AttractStart, frames[..|frames| - 1]);
      var f := frames[|frames| - 1];
      if !f.hidden && !f.animating {
        var r := AttractStep(a, f.hidden, f.animating, f.choice);
        Board.AdjacentSymmetric(a.empty, r.empty);
      }
    }
  }
}
