/**
 * The capture-mode controller: the effect that runs when `mode` changes
 * (clear the previous interval, then reset the countdown and, in realtime
 * mode, arm a one-second interval) and the interval's updater, which counts
 * down and fires one capture when the count runs out.  Time is a sequence of
 * discrete interval firings; `armedIntervals` counts the intervals the
 * browser holds.
 */
module Countdown {
  import opened Wrappers
  import opened Session

  /** The full count, in seconds, that the countdown restarts from. */
  const FullCount := 15

  /** Whether the updater fires a capture for this previous count. */
  predicate Fires(prev: int) {
    prev <= 1
  }

  /** The updater `prev <= 1 ? 15 : prev - 1`, its capture side effect apart. */
  function NextCount(prev: int): (next: int)
    ensures 1 <= prev <= FullCount ==> 1 <= next <= FullCount
    ensures 1 <= prev <= FullCount ==> (next == FullCount <==> Fires(prev))
  {
    if prev <= 1 then FullCount else prev - 1
  }

  /** The count after `n` firings of the interval, from `start`. */
  function CountAfter(start: int, n: nat): int {
    if n == 0 then start else NextCount(CountAfter(start, n - 1))
  }

  /** How many of the first `n` firings, from `start`, trigger a capture. */
  function CapturesWithin(start: int, n: nat): nat {
    if n == 0 then 0
    else CapturesWithin(start, n - 1) + (if Fires(CountAfter(start, n - 1)) then 1 else 0)
  }

  /**
   * From a full count, the count stays within 1..15, is back at 15 after
   * every fifteenth firing, and exactly one capture fires per fifteen
   * firings.
   */
  lemma {:induction false} CountdownCycle(n: nat)
    ensures CountAfter(FullCount, n) == FullCount - n % FullCount
    ensures 1 <= CountAfter(FullCount, n) <= FullCount
    ensures CapturesWithin(FullCount, n) == n / FullCount
  {
    if n > 0 {
      CountdownCycle(n - 1);
      var k := n - 1;
      if k % FullCount == FullCount - 1 {
        assert n % FullCount == 0 && n / FullCount == k / FullCount + 1;
      } else {
        assert n % FullCount == k % FullCount + 1 && n / FullCount == k / FullCount;
      }
    }
  }

  /**
   * One firing of the interval: the updater counts down, or, when the count
   * has run out, runs `captureAndDescribe` with the camera's snapshot and
   * restarts the count.
   */
  function Tick(s: State, snapshot: Option<string>): (e: Effect)
    ensures e.state.countdown == NextCount(s.countdown)
    ensures !Fires(s.countdown) ==> e == Effect(s.(countdown := s.countdown - 1), None, None)
    ensures Fires(s.countdown) ==>
              var c := CaptureAndDescribe(s, snapshot);
              e == Effect(c.state.(countdown := FullCount), c.sent, c.alert)
  {
    if Fires(s.countdown) then
      var c := CaptureAndDescribe(s, snapshot);
      Effect(c.state.(countdown := FullCount), c.sent, c.alert)
    else
      Effect(s.(countdown := s.countdown - 1), None, None)
  }

  /**
   * Selecting mode `m`.  Selecting the current mode re-renders nothing.
   * Otherwise the previous run of the effect is cleaned up (its interval, if
   * it armed one, is cleared) before the effect runs for `m`: the count goes
   * back to 15, and only in realtime mode is the countdown shown and an
   * interval armed.  The result slots are not touched.
   */
  function ChangeMode(s: State, m: Mode): (t: State)
    ensures m == s.mode ==> t == s
    ensures m != s.mode ==> t.mode == m && t.countdown == FullCount && t.isCountdownActive == (m == Realtime)
    ensures m != s.mode && s.armedIntervals == (if s.mode == Realtime then 1 else 0) ==>
              t.armedIntervals == (if m == Realtime then 1 else 0)
    ensures t.(mode := s.mode, countdown := s.countdown, isCountdownActive := s.isCountdownActive,
               armedIntervals := s.armedIntervals) == s
  {
    if m == s.mode then s
    else
      var cleaned := if s.mode == Realtime && s.armedIntervals > 0 then s.armedIntervals - 1 else s.armedIntervals;
      var t := s.(mode := m, armedIntervals := cleaned);
      if m != Realtime then t.(isCountdownActive := false, countdown := FullCount)
      else t.(isCountdownActive := true, countdown := FullCount, armedIntervals := cleaned + 1)
  }

  /**
   * The state once the component has mounted: the initial `useState`
   * values, then both effects run for the initial realtime mode.
   */
  function Mounted(): (s: State)
    ensures s.mode == Realtime && s.isCountdownActive && s.armedIntervals == 1 && s.countdown == FullCount
    ensures s.description == "" && s.detailedDescription == "" && s.answer == "" && s.question == ""
    ensures !s.loadingDescription && !s.loadingDetailed && !s.loadingQuestion
    ensures s.lastDescribedImage.None? && s.uploadedFile.None? && s.capturedImage.None? && !s.showRecapture
  {
    State(
      mode := Realtime,
      description := "",
      detailedDescription := "",
      answer := "",
      loadingDescription := false,
      loadingDetailed := false,
      loadingQuestion := false,
      question := "",
      uploadedFile := None,
      lastDescribedImage := None,
      capturedImage := None,
      showRecapture := false,
      countdown := FullCount,
      isCountdownActive := true,
      armedIntervals := 1)
  }
}
