/**
 * The countdown shown on the puzzle page: five minutes from a start time, rendered as
 * `m:ss`, with a warning in the last minute and a completion callback when time runs out.
 * The clock is a parameter `now`; the 100 ms interval becomes a sequence of tick times.
 */
module TimeSync {
  import opened Wrappers
  import opened Clock

  /** Five minutes in milliseconds. */
  const TimeLimit: int := 5 * 60 * 1000

  /** The countdown warns from this many milliseconds before the end. */
  const WarningFrom: int := 60000

  /** `getRemainingTime`: the time left of the limit, never below zero. */
  function RemainingTime(startTime: int, now: int): (r: int)
    ensures r >= 0
    ensures r == 0 <==> now - startTime >= TimeLimit
    ensures r > 0 ==> r == TimeLimit - (now - startTime)
  {
    var left := TimeLimit - (now - startTime);
    if left > 0 then left else 0
  }

  /** Later readings of the clock never leave more time. */
  lemma RemainingNonIncreasing(startTime: int, now: int, later: int)
    requires now <= later
    ensures RemainingTime(startTime, later) <= RemainingTime(startTime, now)
  {
  }

  /** Once the limit has passed, no later reading leaves any time. */
  lemma RemainingStaysZero(startTime: int, now: int, later: int)
    requires now <= later && RemainingTime(startTime, now) == 0
    ensures RemainingTime(startTime, later) == 0
  {
  }

  /** The countdown never shows more than the limit once it has started. */
  lemma RemainingAtMostLimit(startTime: int, now: int)
    requires startTime <= now
    ensures RemainingTime(startTime, now) <= TimeLimit
  {
  }

  /**
   * The countdown's `formatTime`: a falsy argument (`None` for `null`, `undefined` or
   * `NaN`, or zero) shows `0:00`; anything else is rendered as `m:ss`.
   */
  function CountdownText(ms: Option<int>): (r: string)
    ensures ms.None? ==> r == "0:00"
  {
    if ms.None? || ms.value == 0 then "0:00" else FormatTime(ms.value)
  }

  /** The falsy guard agrees with the general rendering: zero renders as `0:00` anyway. */
  lemma CountdownTextIsFormatTime(ms: int)
    ensures CountdownText(Some(ms)) == FormatTime(ms)
  {
    if ms == 0 {
      assert Text.NatToString(0) == "0";
      assert Text.PadStart2("0") == "00";
    }
  }

  /**
   * The observable state of one `startTimer` interval: whether it still runs, the element's
   * text, whether the `warning` class is present, and how often `onComplete` has run.
   */
  datatype Timer = Timer(running: bool, text: string, warning: bool, completions: nat)

  /**
   * `startTimer`: without a timer element nothing is scheduled (`null`); otherwise a running
   * interval over an element showing `text`, with or without the warning class.
   */
  function StartTimer(hasElement: bool, text: string, warning: bool): (r: Option<Timer>)
    ensures r.None? <==> !hasElement
    ensures r.Some? ==> r.value.running && r.value.completions == 0 && r.value.text == text
  {
    if hasElement then Some(Timer(true, text, warning, 0)) else None
  }

  /**
   * One firing of the interval at time `now`. A cleared interval does nothing. When no time
   * is left the interval is cleared, `0:00` is shown and `onComplete` runs if given.
   * Otherwise the remaining time is shown and the warning class is added in the last minute;
   * `classList.add` never removes it again.
   */
  function Tick(timer: Timer, startTime: int, now: int, hasCallback: bool): (r: Timer)
    ensures !timer.running ==> r == timer
    ensures r.completions <= timer.completions + 1
    ensures timer.warning ==> r.warning
  {
    if !timer.running then timer
    else
      var remaining := RemainingTime(startTime, now);
      if remaining <= 0 then
        timer.(running := false, text := "0:00", completions := timer.completions + if hasCallback then 1 else 0)
      else
        timer.(text := CountdownText(Some(remaining)), warning := timer.warning || remaining <= WarningFrom)
  }

  /** The interval firing at each time of `nows` in turn. */
  function Run(timer: Timer, startTime: int, nows: seq<int>, hasCallback: bool): Timer
    decreases |nows|
  {
    if |nows| == 0 then timer
    else Tick(Run(timer, startTime, nows[..|nows| - 1], hasCallback), startTime, nows[|nows| - 1], hasCallback)
  }

  /** A cleared interval never fires again. */
  lemma {:induction false} StoppedTimerStaysStopped(timer: Timer, startTime: int, nows: seq<int>, hasCallback: bool)
    requires !timer.running
    ensures Run(timer, startTime, nows, hasCallback) == timer
    decreases |nows|
  {
    if |nows| > 0 {
      StoppedTimerStaysStopped(timer, startTime, nows[..|nows| - 1], hasCallback);
    }
  }

  /**
   * `onComplete` runs at most once per interval, and only after it has been cleared;
   * while the interval runs it has not run at all.
   */
  lemma {:induction false} CompletesAtMostOnce(timer: Timer, startTime: int, nows: seq<int>, hasCallback: bool)
    requires timer.running && timer.completions == 0
    ensures var r := Run(timer, startTime, nows, hasCallback);
      r.completions <= 1 && (r.running ==> r.completions == 0)
    decreases |nows|
  {
    if |nows| > 0 {
      CompletesAtMostOnce(timer, startTime, nows[..|nows| - 1], hasCallback);
    }
  }

  /**
   * A tick at or after the deadline ends the countdown: whatever came before, the interval
   * is cleared and shows `0:00`, and `onComplete` has run exactly once if given.
   */
  lemma {:induction false} DeadlineEndsCountdown(timer: Timer, startTime: int, nows: seq<int>, hasCallback: bool)
    requires timer.running && timer.completions == 0
    requires |nows| > 0 && RemainingTime(startTime, nows[|nows| - 1]) == 0
    ensures var r := Run(timer, startTime, nows, hasCallback);
      !r.running && r.text == "0:00" && r.completions == (if hasCallback then 1 else 0)
  {
    var before := Run(timer, startTime, nows[..|nows| - 1], hasCallback);
    CompletesAtMostOnce(timer, startTime, nows[..|nows| - 1], hasCallback);
    if !before.running {
      StoppedText(timer, startTime, nows[..|nows| - 1], hasCallback);
    }
  }

  /** Once cleared, the interval shows `0:00` and has run `onComplete` once if given. */
  lemma {:induction false} StoppedText(timer: Timer, startTime: int, nows: seq<int>, hasCallback: bool)
    requires timer.running && timer.completions == 0
    ensures var r := Run(timer, startTime, nows, hasCallback);
      !r.running ==> r.text == "0:00" && r.completions == (if hasCallback then 1 else 0)
    decreases |nows|
  {
    if |nows| > 0 {
      var p := nows[..|nows| - 1];
      StoppedText(timer, startTime, p, hasCallback);
      CompletesAtMostOnce(timer, startTime, p, hasCallback);
    }
  }

  /** A tick at which the interval was running and the remaining time was in the last minute. */
  predicate WarnedAt(timer: Timer, startTime: int, nows: seq<int>, hasCallback: bool, j: int)
    requires 0 <= j < |nows|
  {
    var remaining := RemainingTime(startTime, nows[j]);
    Run(timer, startTime, nows[..j], hasCallback).running && 0 < remaining <= WarningFrom
  }

  /**
   * The warning class is present after a run exactly when it was present before or some
   * tick of the still-running interval saw between zero and one minute left.
   */
  lemma {:induction false} WarningExactly(timer: Timer, startTime: int, nows: seq<int>, hasCallback: bool)
    ensures Run(timer, startTime, nows, hasCallback).warning
      <==> timer.warning || exists j :: 0 <= j < |nows| && WarnedAt(timer, startTime, nows, hasCallback, j)
    decreases |nows|
  {
    if |nows| > 0 {
      var p := nows[..|nows| - 1];
      WarningExactly(timer, startTime, p, hasCallback);
      WarnedSnoc(timer, startTime, nows, hasCallback);
    }
  }

  /** Some tick of `nows` warned exactly when some earlier tick did or the last one does. */
  lemma WarnedSnoc(timer: Timer, startTime: int, nows: seq<int>, hasCallback: bool)
    requires |nows| > 0
    ensures var n := |nows| - 1;
      (exists j :: 0 <= j < |nows| && WarnedAt(timer, startTime, nows, hasCallback, j))
      <==> ((exists j :: 0 <= j < n && WarnedAt(timer, startTime, nows[..n], hasCallback, j))
        || WarnedAt(timer, startTime, nows, hasCallback, n))
  {
    if exists j :: 0 <= j < |nows| && WarnedAt(timer, startTime, nows, hasCallback, j) {
      var j :| 0 <= j < |nows| && WarnedAt(timer, startTime, nows, hasCallback, j);
      WarnedSnocFrom(timer, startTime, nows, hasCallback, j);
    }
    WarnedSnocTo(timer, startTime, nows, hasCallback);
  }

  /** A warning at tick `j` is a warning at an earlier tick or at the last one. */
  lemma WarnedSnocFrom(timer: Timer, startTime: int, nows: seq<int>, hasCallback: bool, j: int)
    requires 0 <= j < |nows| && WarnedAt(timer, startTime, nows, hasCallback, j)
    ensures var n := |nows| - 1;
      (exists k :: 0 <= k < n && WarnedAt(timer, startTime, nows[..n], hasCallback, k))
      || WarnedAt(timer, startTime, nows, hasCallback, n)
  {
    var n := |nows| - 1;
    if j < n {
      WarnedAtPrefix(timer, startTime, nows, hasCallback, j);
      assert 0 <= j < n && WarnedAt(timer, startTime, nows[..n], hasCallback, j);
    }
  }

  /** A warning at an earlier tick or at the last one is a warning at some tick. */
  lemma WarnedSnocTo(timer: Timer, startTime: int, nows: seq<int>, hasCallback: bool)
    requires |nows| > 0
    ensures var n := |nows| - 1;
      ((exists j :: 0 <= j < n && WarnedAt(timer, startTime, nows[..n], hasCallback, j))
        || WarnedAt(timer, startTime, nows, hasCallback, n))
      ==> (exists j :: 0 <= j < |nows| && WarnedAt(timer, startTime, nows, hasCallback, j))
  {
    var n := |nows| - 1;
    if exists j :: 0 <= j < n && WarnedAt(timer, startTime, nows[..n], hasCallback, j) {
      var j :| 0 <= j < n && WarnedAt(timer, startTime, nows[..n], hasCallback, j);
      WarnedAtPrefix(timer, startTime, nows, hasCallback, j);
      assert WarnedAt(timer, startTime, nows, hasCallback, j);
    }
  }

  /** Whether an earlier tick warned does not depend on the ticks after it. */
  lemma WarnedAtPrefix(timer: Timer, startTime: int, nows: seq<int>, hasCallback: bool, j: int)
    requires 0 <= j < |nows| - 1
    ensures WarnedAt(timer, startTime, nows, hasCallback, j) <==> WarnedAt(timer, startTime, nows[..|nows| - 1], hasCallback, j)
  {
    assert nows[..j] == nows[..|nows| - 1][..j];
  }
}
