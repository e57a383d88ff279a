/**
 * Two describe requests in flight at once.  Every button that sends a
 * describe is disabled while one is out, but the countdown interval is
 * not: after a capture, "Recapture" brings the webcam back and the interval
 * captures again while the first request is still waiting.
 */
module Interleavings {
  import opened Wrappers
  import DataUrl
  import opened Session
  import opened Countdown
  import opened Runs

  /**
   * Two describes can overlap without clicking a disabled button: the interval captures
   * frame `a`, "Recapture" brings the webcam back while that request is
   * still out, and fifteen firings later the interval captures frame `b`.
   */
  lemma OverlapArises(w: World, frameA: string, a: DataUrl.Blob, frameB: string, b: DataUrl.Blob)
    requires w.inFlight == [] && w.home.mode == Realtime && w.home.armedIntervals > 0
    requires CameraMounted(w.home) && w.home.countdown == 1
    requires frameA != "" && DataUrl.DecodeDataUrl(frameA) == Ok(a)
    requires frameB != "" && DataUrl.DecodeDataUrl(frameB) == Ok(b)
    ensures var v := CaptureTwice(w, frameA, frameB);
            && |v.inFlight| == 2 && v.inFlight[0] == Describe(a) && v.inFlight[1] == Describe(b)
            && v.home.lastDescribedImage == Some(b) && v.home.loadingDescription
  {
    FiringCaptures(w, frameA, a);
    var w1 := Step(w, IntervalFires(Some(frameA)));
    RecaptureThenCount(w1);
    var w2 := Run(Step(w1, RecaptureClick), Quiet(FullCount - 1));
    FiringCaptures(w2, frameB, b);
  }

  /**
   * Two describes settling in reverse order: the later one settling first
   * lowers the describe flag while the earlier is still out, and the earlier
   * one then overwrites the description of the later image.
   */
  lemma SettleReversed(v: World, a: DataUrl.Blob, b: DataUrl.Blob, first: string, second: string)
    requires |v.inFlight| == 2 && v.inFlight[0] == Describe(a) && v.inFlight[1] == Describe(b)
    requires v.home.lastDescribedImage == Some(b)
    requires first != "" && second != ""
    ensures var w4 := Step(v, Settle(1, Body(Some(second))));
            var w5 := Step(w4, Settle(0, Body(Some(first))));
            && !w4.home.loadingDescription && |w4.inFlight| == 1 && w4.inFlight[0] == Describe(a)
            && w5.inFlight == [] && w5.home.lastDescribedImage == Some(b)
            && w5.home.description == first
  {
    SettleStep(v, 1, Body(Some(second)));
    var w4 := Step(v, Settle(1, Body(Some(second))));
    SettleStep(w4, 0, Body(Some(first)));
  }

  /**
   * The run of `OverlapArises` followed by the two settlements of
   * `SettleReversed`: the page ends up showing the description of frame
   * `a` beside image `b`.
   */
  lemma OverlappingDescribes(w: World, frameA: string, a: DataUrl.Blob, frameB: string, b: DataUrl.Blob,
                             first: string, second: string)
    requires w.inFlight == [] && w.home.mode == Realtime && w.home.armedIntervals > 0
    requires CameraMounted(w.home) && w.home.countdown == 1
    requires frameA != "" && DataUrl.DecodeDataUrl(frameA) == Ok(a)
    requires frameB != "" && DataUrl.DecodeDataUrl(frameB) == Ok(b)
    requires first != "" && second != ""
    ensures var w4 := Step(CaptureTwice(w, frameA, frameB), Settle(1, Body(Some(second))));
            var w5 := Step(w4, Settle(0, Body(Some(first))));
            && !w4.home.loadingDescription && w4.inFlight == [Describe(a)]
            && w5.inFlight == [] && w5.home.lastDescribedImage == Some(b)
            && w5.home.description == first
  {
    OverlapArises(w, frameA, a, frameB, b);
    SettleReversed(CaptureTwice(w, frameA, frameB), a, b, first, second);
  }
}
