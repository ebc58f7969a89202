/** The progress timer `startCliTimer` (also `startTerminalTimer`): a session that
    starts a progress bar at 0 and then wakes up repeatedly. Each wake reads how
    many milliseconds have really elapsed since the start, updates the bar once per
    new whole second, stops the bar once the duration is reached and otherwise asks
    to be woken again at the next whole-second boundary.

    The clock and the event loop are not part of the model: a wake is given the
    elapsed milliseconds, and it returns the delay it would pass to `setTimeout`.
    The progress bar is a log of the calls made to it. */
module ProgressTimer {

  /** The heuristic first wait before the second-aligned waits take over. */
  const FirstCheckDelayMs := 500

  /** A call made to the progress bar. */
  datatype BarEvent = Start(total: int, initial: int) | Update(value: int) | Stop

  /** The next wake the session asks for: after a delay, or none once stopped. */
  datatype Wakeup = After(delayMs: int) | Never

  /** `getUpdateCheckDelayMs`: the delay until the second after `lastUpdateSecond`
      begins, or 0 if that moment has already passed. */
  function UpdateCheckDelayMs(elapsed: int, lastUpdateSecond: int): (d: int)
    ensures d >= 0
    ensures elapsed <= (lastUpdateSecond + 1) * 1000 ==> elapsed + d == (lastUpdateSecond + 1) * 1000
    ensures elapsed >= (lastUpdateSecond + 1) * 1000 ==> d == 0
  {
    if 1000 - (elapsed - lastUpdateSecond * 1000) > 0 then 1000 - (elapsed - lastUpdateSecond * 1000) else 0
  }

  /** The bar calls a session has made: the start at 0, one update per rendered
      elapsed time, and the stop if it has stopped. */
  function BarLog(durationMs: int, renders: seq<int>, stopped: bool): seq<BarEvent> {
    [Start(durationMs, 0)] + Updates(renders) + (if stopped then [Stop] else [])
  }

  function Updates(renders: seq<int>): seq<BarEvent> {
    if renders == [] then [] else Updates(renders[..|renders| - 1]) + [Update(renders[|renders| - 1])]
  }

  /** The update calls are exactly the rendered elapsed times, in order. */
  lemma {:induction false} UpdatesAt(renders: seq<int>)
    ensures |Updates(renders)| == |renders|
    ensures forall i :: 0 <= i < |renders| ==> Updates(renders)[i] == Update(renders[i])
  {
    if renders != [] {
      UpdatesAt(renders[..|renders| - 1]);
    }
  }

  /** What holds of the elapsed times at which a session updated its bar:
      each lies in a later whole second than all before it, only the last may have
      reached the duration, and the session has stopped exactly when it has. */
  ghost predicate RendersValid(durationMs: int, renders: seq<int>, stopped: bool) {
    && (forall i :: 0 <= i < |renders| ==> renders[i] >= 1000)
    && (forall i, j :: 0 <= i < j < |renders| ==> renders[i] / 1000 < renders[j] / 1000)
    && (forall i :: 0 <= i < |renders| - 1 ==> renders[i] < durationMs)
    && (stopped <==> |renders| > 0 && renders[|renders| - 1] >= durationMs)
  }

  /** The second of the latest update, or 0 before the first one. */
  function LastSecond(renders: seq<int>): int {
    if renders == [] then 0 else renders[|renders| - 1] / 1000
  }

  class TimerSession {
    const durationMs: int
    /** The last second (floored elapsed time) the bar was updated at. */
    var lastUpdateSecond: int
    var stopped: bool
    /** The wake currently scheduled, standing for `timeoutId`. */
    var pending: Wakeup
    /** The elapsed times passed to `update`, in order. */
    ghost var renders: seq<int>
    /** Every call made to the progress bar, in order. */
    ghost var events: seq<BarEvent>

    ghost predicate Valid()
      reads this
    {
      && durationMs > 0
      && RendersValid(durationMs, renders, stopped)
      && events == BarLog(durationMs, renders, stopped)
      && lastUpdateSecond == LastSecond(renders)
      && (stopped <==> pending == Never)
      && (!stopped ==> lastUpdateSecond * 1000 < durationMs)
    }

    /** Start the bar at 0 out of `durationMs` and schedule the first check. */
    constructor (durationMs: int)
      requires durationMs > 0
      ensures Valid()
      ensures this.durationMs == durationMs && lastUpdateSecond == 0 && !stopped
      ensures pending == After(FirstCheckDelayMs)
      ensures renders == [] && events == [Start(durationMs, 0)]
    {
      this.durationMs := durationMs;
      lastUpdateSecond := 0;
      stopped := false;
      pending := After(FirstCheckDelayMs);
      renders := [];
      events := [Start(durationMs, 0)];
    }

    /** `updateProgressIfNeeded`, run `elapsed` milliseconds after the start. */
    method Wake(elapsed: int) returns (next: Wakeup)
      requires Valid() && pending.After?
      modifies this
      ensures Valid() && next == pending
      ensures elapsed / 1000 <= old(lastUpdateSecond) ==>
        && lastUpdateSecond == old(lastUpdateSecond) && !stopped
        && renders == old(renders) && events == old(events)
        && next == After(UpdateCheckDelayMs(elapsed, lastUpdateSecond))
      ensures elapsed / 1000 > old(lastUpdateSecond) ==>
        && lastUpdateSecond == elapsed / 1000
        && renders == old(renders) + [elapsed]
        && stopped == (elapsed >= durationMs)
        && events == old(events) + [Update(elapsed)] + (if stopped then [Stop] else [])
        && next == (if stopped then Never else After(UpdateCheckDelayMs(elapsed, lastUpdateSecond)))
      ensures durationMs % 1000 == 0 && elapsed >= durationMs ==> stopped && renders == old(renders) + [elapsed]
    {
      var curSecond := elapsed / 1000;
      if durationMs % 1000 == 0 && elapsed >= durationMs {
        DeadlineIsNewSecond(durationMs, lastUpdateSecond, elapsed);
      }
      if curSecond <= lastUpdateSecond {
        next := After(UpdateCheckDelayMs(elapsed, lastUpdateSecond));
        pending := next;
        return;
      }

      RenderStep(durationMs, renders, elapsed);
      ghost var log := BarLog(durationMs, renders + [elapsed], elapsed >= durationMs);
      lastUpdateSecond := curSecond;
      renders := renders + [elapsed];
      events := events + [Update(elapsed)];

      if elapsed >= durationMs {
        stopped := true;
        events := events + [Stop];
        next := Never;
      } else {
        next := After(UpdateCheckDelayMs(elapsed, lastUpdateSecond));
      }
      pending := next;
      assert events == log;
      assert RendersValid(durationMs, renders, stopped);
    }
  }

  /** Recording an update in a new second of a running session keeps its renders
      valid and extends its bar log by the update, and by the stop if it is due. */
  lemma RenderStep(durationMs: int, renders: seq<int>, elapsed: int)
    requires RendersValid(durationMs, renders, false)
    requires LastSecond(renders) * 1000 < durationMs
    requires elapsed / 1000 > LastSecond(renders)
    ensures var stopped := elapsed >= durationMs;
      && RendersValid(durationMs, renders + [elapsed], stopped)
      && LastSecond(renders + [elapsed]) == elapsed / 1000
      && (!stopped ==> (elapsed / 1000) * 1000 < durationMs)
      && BarLog(durationMs, renders + [elapsed], stopped)
         == BarLog(durationMs, renders, false) + [Update(elapsed)] + (if stopped then [Stop] else [])
  {
    var r := renders + [elapsed];
    SecondBounds(elapsed);
    assert LastSecond(renders) >= 0;
    assert elapsed >= 1000;
    assert Updates(r) == Updates(renders) + [Update(elapsed)];
  }

  /** The floored second of an elapsed time brackets it. */
  lemma SecondBounds(elapsed: int)
    ensures (elapsed / 1000) * 1000 <= elapsed < (elapsed / 1000) * 1000 + 1000
  {
  }

  /** With a duration of whole seconds, a running session has not yet updated in the
      second the duration ends, so a wake at or past the duration finds a new second. */
  lemma DeadlineIsNewSecond(durationMs: int, lastUpdateSecond: int, elapsed: int)
    requires durationMs % 1000 == 0 && lastUpdateSecond * 1000 < durationMs && elapsed >= durationMs
    ensures elapsed / 1000 > lastUpdateSecond
  {
    assert durationMs == (durationMs / 1000) * 1000;
  }

  /** A wake that finds no new second changes nothing and asks to be woken exactly
      at the next second boundary, between 1 and 1000 ms later. */
  lemma NoNewSecondRealigns(elapsed: int, lastUpdateSecond: int)
    requires elapsed / 1000 <= lastUpdateSecond && lastUpdateSecond * 1000 <= elapsed
    ensures var d := UpdateCheckDelayMs(elapsed, lastUpdateSecond);
      1 <= d <= 1000 && elapsed + d == (lastUpdateSecond + 1) * 1000
  {
  }

  /** After an update the delay is what is left of the current second. */
  lemma UpdateRealigns(elapsed: int)
    ensures var d := UpdateCheckDelayMs(elapsed, elapsed / 1000);
      d == 1000 - elapsed % 1000 && 1 <= d <= 1000 && (elapsed + d) % 1000 == 0
  {
  }

  /** The bar is started first, stopped at most once, as its very last call, and
      right after an update whose elapsed time reached the duration. */
  lemma StopOnceAtEnd(durationMs: int, renders: seq<int>, stopped: bool)
    requires RendersValid(durationMs, renders, stopped)
    ensures var log := BarLog(durationMs, renders, stopped);
      && log[0] == Start(durationMs, 0)
      && multiset(log)[Stop] == (if stopped then 1 else 0)
      && (forall i :: 0 <= i < |log| && log[i] == Stop ==> stopped && i == |log| - 1)
      && (stopped ==> |log| >= 3 && log[|log| - 2] == Update(renders[|renders| - 1]) && renders[|renders| - 1] >= durationMs)
  {
    var ups := Updates(renders);
    UpdatesAt(renders);
    assert Stop !in ups;
    assert multiset(ups)[Stop] == 0;
  }

  /** Each wake arrives less than a second after the time it asked for. */
  predicate PromptWakes(lateness: seq<nat>) {
    forall i :: 0 <= i < |lateness| ==> lateness[i] < 1000
  }

  /** The whole life of a timer of `durationMs`: the self-rescheduling callback as a
      loop. The i-th wake runs `lateness[i]` milliseconds after the delay it asked
      for (a timer never fires early); the run ends when the session stops or the
      wakes run out. Returns the elapsed times of the bar updates and whether the
      bar was stopped. */
  method RunTimer(durationMs: int, lateness: seq<nat>) returns (renders: seq<int>, finished: bool)
    requires durationMs > 0
    ensures forall i, j :: 0 <= i < j < |renders| ==> renders[i] / 1000 < renders[j] / 1000
    ensures forall i :: 0 <= i < |renders| ==> renders[i] >= 1000
    ensures forall i :: 0 <= i < |renders| - 1 ==> renders[i] < durationMs
    ensures finished <==> |renders| > 0 && renders[|renders| - 1] >= durationMs
    ensures durationMs % 1000 == 0 && PromptWakes(lateness) && |lateness| > durationMs / 1000 ==>
      && finished
      && |renders| == durationMs / 1000
      && forall k :: 0 <= k < |renders| ==> renders[k] / 1000 == k + 1
  {
    var session := new TimerSession(durationMs);
    var next := session.pending;
    var clock := 0;
    var i := 0;
    renders := [];
    ghost var prompt := durationMs % 1000 == 0 && PromptWakes(lateness) && |lateness| > durationMs / 1000;
    while i < |lateness| && next.After?
      invariant 0 <= i <= |lateness|
      invariant fresh(session) && session.Valid() && session.durationMs == durationMs
      invariant next == session.pending && renders == session.renders
      invariant prompt ==> session.lastUpdateSecond == |renders|
      invariant prompt && next.After? ==>
        || (i == 0 && clock == 0 && next.delayMs == FirstCheckDelayMs && renders == [])
        || (clock + next.delayMs == (session.lastUpdateSecond + 1) * 1000 && 1 <= i <= session.lastUpdateSecond + 1)
    {
      var elapsed := clock + next.delayMs + lateness[i];
      if prompt {
        PromptWake(session.lastUpdateSecond, clock, next.delayMs, i == 0 && clock == 0 && next.delayMs == FirstCheckDelayMs, lateness[i]);
      }
      var before := session.lastUpdateSecond;
      next := session.Wake(elapsed);
      if session.lastUpdateSecond != before {
        renders := renders + [elapsed];
      }
      clock := elapsed;
      i := i + 1;
    }
    finished := session.stopped;
    assert RendersValid(durationMs, renders, finished);
    if prompt {
      forall k | 0 <= k < |renders| ensures renders[k] / 1000 == k + 1 {
        SecondsFromOne(durationMs, renders, finished, k);
        SecondsUpToLast(durationMs, renders, finished, k);
      }
      RenderCount(durationMs, renders);
    }
  }

  /** A wake less than a second late, after the first check or after a wait aligned
      to the next second boundary, either finds no new second (only possible for the
      first check) and realigns to second 1, or updates in exactly the next second
      and realigns to the boundary after it. */
  lemma PromptWake(lastUpdateSecond: int, clock: int, delayMs: int, first: bool, lateness: nat)
    requires lateness < 1000
    requires first ==> clock == 0 && delayMs == FirstCheckDelayMs && lastUpdateSecond == 0
    requires !first ==> clock + delayMs == (lastUpdateSecond + 1) * 1000
    ensures var elapsed := clock + delayMs + lateness;
      && (elapsed / 1000 <= lastUpdateSecond ==>
            first && elapsed + UpdateCheckDelayMs(elapsed, lastUpdateSecond) == (lastUpdateSecond + 1) * 1000)
      && (elapsed / 1000 > lastUpdateSecond ==>
            && elapsed / 1000 == lastUpdateSecond + 1
            && elapsed + UpdateCheckDelayMs(elapsed, elapsed / 1000) == (elapsed / 1000 + 1) * 1000)
  {
    var elapsed := clock + delayMs + lateness;
    SecondBounds(elapsed);
  }

  /** Updates happen in distinct seconds from second 1 on, so the k-th of them
      (from 0) is in second k + 1 or later. */
  lemma {:induction false} SecondsFromOne(durationMs: int, renders: seq<int>, stopped: bool, k: int)
    requires RendersValid(durationMs, renders, stopped)
    requires 0 <= k < |renders|
    ensures renders[k] / 1000 >= k + 1
  {
    if k > 0 {
      SecondsFromOne(durationMs, renders, stopped, k - 1);
    }
  }

  /** Counting back from the last update, each earlier one is at least one second
      earlier. */
  lemma {:induction false} SecondsUpToLast(durationMs: int, renders: seq<int>, stopped: bool, k: int)
    requires RendersValid(durationMs, renders, stopped)
    requires 0 <= k < |renders|
    ensures renders[k] / 1000 <= LastSecond(renders) - (|renders| - 1 - k)
    decreases |renders| - k
  {
    if k < |renders| - 1 {
      SecondsUpToLast(durationMs, renders, stopped, k + 1);
    }
  }

  /** A stopped run that updated once in each of the seconds 1, 2, ... made exactly
      as many updates as the duration has seconds. */
  lemma RenderCount(durationMs: int, renders: seq<int>)
    requires durationMs > 0 && durationMs % 1000 == 0
    requires RendersValid(durationMs, renders, true)
    requires forall k :: 0 <= k < |renders| ==> renders[k] / 1000 == k + 1
    ensures |renders| == durationMs / 1000
  {
    var m, n := |renders|, durationMs / 1000;
    SecondBounds(renders[m - 1]);
    assert n <= m;
    if m >= 2 {
      SecondBounds(renders[m - 2]);
    }
  }

  /** The two time labels `formatProgressString` shows: whole seconds passed and
      whole seconds remaining. */
  datatype TimeLabels = TimeLabels(elapsedSeconds: int, remainingSeconds: int)

  function ProgressLabels(value: int, total: int): (r: TimeLabels)
    ensures r.elapsedSeconds * 1000 <= value < r.elapsedSeconds * 1000 + 1000
    ensures r.elapsedSeconds + r.remainingSeconds == total / 1000
    ensures 0 <= value <= total ==> r.elapsedSeconds >= 0 && r.remainingSeconds >= 0
    ensures total % 1000 == 0 && value >= total ==> r.remainingSeconds <= 0
  {
    var elapsedSeconds := value / 1000;
    TimeLabels(elapsedSeconds, total / 1000 - elapsedSeconds)
  }

  /** A prompt run of an N-second timer counts down: the start shows N seconds
      remaining, the k-th update N - k, and the last one 0. */
  lemma CountdownLabels(durationMs: int, renders: seq<int>)
    requires durationMs > 0 && durationMs % 1000 == 0
    requires |renders| == durationMs / 1000
    requires forall k :: 0 <= k < |renders| ==> renders[k] / 1000 == k + 1
    ensures ProgressLabels(0, durationMs) == TimeLabels(0, |renders|)
    ensures forall k :: 0 <= k < |renders| ==>
      ProgressLabels(renders[k], durationMs) == TimeLabels(k + 1, |renders| - (k + 1))
    ensures ProgressLabels(renders[|renders| - 1], durationMs).remainingSeconds == 0
  {
  }
}
