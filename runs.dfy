/**
 * Runs of the page: the component's state together with the requests in
 * flight, driven by user events, interval firings and the settlement of any
 * in-flight request in any order.  The invariants of the page hold on every
 * run from the mounted state, and a stale completion is shown to overwrite
 * its slot.  The steps of a countdown cycle are proved here as equations on
 * worlds, for use in longer runs.
 */
module Runs {
  import opened Wrappers
  import DataUrl
  import opened Session
  import opened Countdown

  datatype Event =
    | SelectMode(mode: Mode)
    | IntervalFires(snapshot: Option<string>)
    | CaptureClick(snapshot: Option<string>)
    | ChooseFile(file: Option<DataUrl.Blob>)
    | AnalyzeClick
    | DetailsClick
    | EditQuestion(text: string)
    | AskClick
    | RecaptureClick
    | Settle(index: nat, response: Response)

  /** The component's state and the requests dispatched but not yet settled. */
  datatype World = World(home: State, inFlight: seq<Request>)

  /** The handler's new state, with the request it sent, if any, now in flight. */
  function Dispatch(w: World, e: Effect): World {
    World(e.state, if e.sent.Some? then w.inFlight + [e.sent.value] else w.inFlight)
  }

  /** The completion step of the handler that issued `req`. */
  function Complete(s: State, req: Request, resp: Response): State {
    match req
    case Describe(_) => CompleteDescription(s, resp)
    case Details(_) => CompleteDetailedDescription(s, resp)
    case Question(_, _) => CompleteQuestion(s, resp)
  }

  function Without(q: seq<Request>, i: nat): (r: seq<Request>)
    requires i < |q|
    ensures |r| == |q| - 1
    ensures forall j :: 0 <= j < i ==> r[j] == q[j]
    ensures forall j :: i < j < |q| ==> r[j - 1] == q[j]
  {
    q[..i] + q[i + 1..]
  }

  /** One event.  An interval fires only while one is armed. */
  function Step(w: World, ev: Event): World {
    match ev
    case SelectMode(m) => World(ChangeMode(w.home, m), w.inFlight)
    case IntervalFires(snapshot) =>
      if w.home.armedIntervals > 0 then Dispatch(w, Tick(w.home, snapshot)) else w
    case CaptureClick(snapshot) => Dispatch(w, CaptureAndDescribe(w.home, snapshot))
    case ChooseFile(file) => World(w.home.(uploadedFile := file), w.inFlight)
    case AnalyzeClick => Dispatch(w, AnalyzeUpload(w.home))
    case DetailsClick => Dispatch(w, SendImageForDetailedDescription(w.home))
    case EditQuestion(text) => World(w.home.(question := text), w.inFlight)
    case AskClick => Dispatch(w, SendImageQuestion(w.home))
    case RecaptureClick => World(HandleRecapture(w.home), w.inFlight)
    case Settle(i, resp) =>
      if i < |w.inFlight| then World(Complete(w.home, w.inFlight[i], resp), Without(w.inFlight, i))
      else w
  }

  function Run(w: World, events: seq<Event>): World
    decreases |events|
  {
    if events == [] then w else Run(Step(w, events[0]), events[1..])
  }

  function Start(): World {
    World(Mounted(), [])
  }

  ghost predicate HasDescribe(q: seq<Request>) {
    exists j :: 0 <= j < |q| && q[j].Describe?
  }

  ghost predicate HasDetails(q: seq<Request>) {
    exists j :: 0 <= j < |q| && q[j].Details?
  }

  ghost predicate HasQuestion(q: seq<Request>) {
    exists j :: 0 <= j < |q| && q[j].Question?
  }

  /**
   * The page invariant: the count is within 1..15; exactly one interval is
   * armed, and the countdown shown, exactly in realtime mode; the review view
   * is open exactly when a snapshot is held; and a raised loading flag always
   * has a request of its kind in flight.
   */
  ghost predicate Good(w: World) {
    var s := w.home;
    && 1 <= s.countdown <= FullCount
    && s.armedIntervals == (if s.mode == Realtime then 1 else 0)
    && s.isCountdownActive == (s.mode == Realtime)
    && (s.capturedImage.Some? ==> s.capturedImage.value != "")
    && (s.showRecapture <==> s.capturedImage.Some?)
    && (s.loadingDescription ==> HasDescribe(w.inFlight))
    && (s.loadingDetailed ==> HasDetails(w.inFlight))
    && (s.loadingQuestion ==> HasQuestion(w.inFlight))
  }

  lemma StartGood()
    ensures Good(Start())
  {
  }

  /** Appending a request keeps every kind already in flight. */
  lemma AppendKeeps(q: seq<Request>, extra: seq<Request>)
    ensures HasDescribe(q) ==> HasDescribe(q + extra)
    ensures HasDetails(q) ==> HasDetails(q + extra)
    ensures HasQuestion(q) ==> HasQuestion(q + extra)
  {
    if HasDescribe(q) {
      var j :| 0 <= j < |q| && q[j].Describe?;
      assert (q + extra)[j] == q[j];
    }
    if HasDetails(q) {
      var j :| 0 <= j < |q| && q[j].Details?;
      assert (q + extra)[j] == q[j];
    }
    if HasQuestion(q) {
      var j :| 0 <= j < |q| && q[j].Question?;
      assert (q + extra)[j] == q[j];
    }
  }

  /** Removing a request of another kind keeps a kind in flight. */
  lemma RemoveKeeps(q: seq<Request>, i: nat)
    requires i < |q|
    ensures HasDescribe(q) && !q[i].Describe? ==> HasDescribe(Without(q, i))
    ensures HasDetails(q) && !q[i].Details? ==> HasDetails(Without(q, i))
    ensures HasQuestion(q) && !q[i].Question? ==> HasQuestion(Without(q, i))
  {
    var r := Without(q, i);
    if HasDescribe(q) && !q[i].Describe? {
      var j :| 0 <= j < |q| && q[j].Describe?;
      if j < i { assert r[j] == q[j]; } else { assert r[j - 1] == q[j]; }
    }
    if HasDetails(q) && !q[i].Details? {
      var j :| 0 <= j < |q| && q[j].Details?;
      if j < i { assert r[j] == q[j]; } else { assert r[j - 1] == q[j]; }
    }
    if HasQuestion(q) && !q[i].Question? {
      var j :| 0 <= j < |q| && q[j].Question?;
      if j < i { assert r[j] == q[j]; } else { assert r[j - 1] == q[j]; }
    }
  }

  lemma DescribeGood(w: World, s: State, file: DataUrl.Blob)
    requires Good(w)
    requires Good(World(s, w.inFlight))
    ensures Good(Dispatch(w, SendImageForDescription(s, file)))
  {
    var e := SendImageForDescription(s, file);
    var q := w.inFlight + [Describe(file)];
    AppendKeeps(w.inFlight, [Describe(file)]);
    assert q[|w.inFlight|].Describe?;
  }

  lemma CaptureGood(w: World, snapshot: Option<string>)
    requires Good(w)
    ensures Good(Dispatch(w, CaptureAndDescribe(w.home, snapshot)))
  {
    var s := w.home;
    if CameraMounted(s) && Truthy(snapshot) {
      var shown := s.(capturedImage := snapshot, showRecapture := true);
      assert Good(World(shown, w.inFlight));
      match DataUrl.DecodeDataUrl(snapshot.value)
      case Ok(blob) => DescribeGood(w, shown, blob);
      case Err(_) =>
    }
  }

  lemma TickGood(w: World, snapshot: Option<string>)
    requires Good(w) && w.home.armedIntervals > 0
    ensures Good(Dispatch(w, Tick(w.home, snapshot)))
  {
    var s := w.home;
    if Fires(s.countdown) {
      CaptureGood(w, snapshot);
      var c := CaptureAndDescribe(s, snapshot);
      assert Dispatch(w, Tick(s, snapshot)) == Dispatch(w, c).(home := c.state.(countdown := FullCount));
    }
  }

  lemma SettleGood(w: World, i: nat, resp: Response)
    requires Good(w) && i < |w.inFlight|
    ensures Good(Step(w, Settle(i, resp)))
  {
    RemoveKeeps(w.inFlight, i);
  }

  lemma AskGood(w: World)
    requires Good(w)
    ensures Good(Step(w, AskClick))
  {
    var e := SendImageQuestion(w.home);
    if e.sent.Some? {
      AppendKeeps(w.inFlight, [e.sent.value]);
      assert (w.inFlight + [e.sent.value])[|w.inFlight|].Question?;
    }
  }

  lemma DetailsGood(w: World)
    requires Good(w)
    ensures Good(Step(w, DetailsClick))
  {
    var e := SendImageForDetailedDescription(w.home);
    if e.sent.Some? {
      AppendKeeps(w.inFlight, [e.sent.value]);
      assert (w.inFlight + [e.sent.value])[|w.inFlight|].Details?;
    }
  }

  /** Events that only set a field or change the mode keep the page invariant. */
  lemma LocalGood(w: World, ev: Event)
    requires Good(w)
    requires ev.SelectMode? || ev.ChooseFile? || ev.EditQuestion? || ev.RecaptureClick?
    ensures Good(Step(w, ev))
  {
  }

  /** An interval firing keeps the page invariant. */
  lemma FireGood(w: World, snapshot: Option<string>)
    requires Good(w)
    ensures Good(Step(w, IntervalFires(snapshot)))
  {
    if w.home.armedIntervals > 0 {
      TickGood(w, snapshot);
    }
  }

  /** The upload section's "Analyze Image" click keeps the page invariant. */
  lemma AnalyzeGood(w: World)
    requires Good(w)
    ensures Good(Step(w, AnalyzeClick))
  {
    if w.home.uploadedFile.Some? {
      DescribeGood(w, w.home, w.home.uploadedFile.value);
    }
  }

  /** Every event keeps the page invariant. */
  lemma StepGood(w: World, ev: Event)
    requires Good(w)
    ensures Good(Step(w, ev))
  {
    match ev
    case IntervalFires(snapshot) => FireGood(w, snapshot);
    case CaptureClick(snapshot) => CaptureGood(w, snapshot);
    case AnalyzeClick => AnalyzeGood(w);
    case DetailsClick => DetailsGood(w);
    case AskClick => AskGood(w);
    case Settle(i, resp) =>
      if i < |w.inFlight| {
        SettleGood(w, i, resp);
      }
    case _ => LocalGood(w, ev);
  }



  lemma {:induction false} RunGood(w: World, events: seq<Event>)
    requires Good(w)
    ensures Good(Run(w, events))
    decreases |events|
  {
    if events != [] {
      StepGood(w, events[0]);
      RunGood(Step(w, events[0]), events[1..]);
    }
  }

  /**
   * On every run from the mounted page: the count stays within 1..15, an
   * interval is armed exactly in realtime mode and never more than one, and
   * once every request has settled no loading flag is left raised.
   */
  lemma EveryRun(events: seq<Event>)
    ensures var s := Run(Start(), events).home;
            && 1 <= s.countdown <= FullCount
            && s.armedIntervals <= 1
            && (s.armedIntervals == 1 <==> s.mode == Realtime)
    ensures Run(Start(), events).inFlight == [] ==>
              var s := Run(Start(), events).home;
              !s.loadingDescription && !s.loadingDetailed && !s.loadingQuestion
  {
    StartGood();
    RunGood(Start(), events);
  }

  /**
   * A detail request issued for image `a` that settles after image `b` has
   * been sent for description still fills the detail slot: the page then
   * shows `a`'s detailed description next to `b`.
   */
  lemma StaleDetailOverwrites(s: State, a: DataUrl.Blob, b: DataUrl.Blob, text: string)
    requires s.lastDescribedImage == Some(a) && s.uploadedFile == Some(b) && text != ""
    ensures var w1 := Step(World(s, []), DetailsClick);
            var w2 := Step(w1, AnalyzeClick);
            var w3 := Step(w2, Settle(0, Body(Some(text))));
            && w1.inFlight == [Details(a)]
            && w2.inFlight == [Details(a), Describe(b)]
            && w3.home.lastDescribedImage == Some(b)
            && w3.home.detailedDescription == text
            && w3.inFlight == [Describe(b)]
  {
    var w1 := Step(World(s, []), DetailsClick);
    var w2 := Step(w1, AnalyzeClick);
    assert w2.inFlight == [Details(a), Describe(b)];
    assert Without(w2.inFlight, 0) == [Describe(b)];
  }

  /** `n` firings of the interval while the webcam yields no frame. */
  function Quiet(n: nat): seq<Event> {
    seq(n, _ => IntervalFires(None))
  }

  /**
   * Firings that do not reach the end of the count only count down: the
   * requests in flight and every other field are left as they were.
   */
  lemma {:induction false} CountsDown(w: World, n: nat)
    requires w.home.armedIntervals > 0 && w.home.countdown > n
    ensures Run(w, Quiet(n)) == World(w.home.(countdown := w.home.countdown - n), w.inFlight)
    decreases n
  {
    if n > 0 {
      var v := Step(w, IntervalFires(None));
      assert v == World(w.home.(countdown := w.home.countdown - 1), w.inFlight);
      assert Quiet(n)[0] == IntervalFires(None) && Quiet(n)[1..] == Quiet(n - 1);
      CountsDown(v, n - 1);
    }
  }

  /**
   * Fourteen firings after mounting, the realtime page has the camera
   * showing, nothing in flight and the count at 1: the next firing captures.
   */
  lemma MountedReachesCapture()
    ensures var w := Run(Start(), Quiet(FullCount - 1));
            && w.inFlight == [] && w.home.mode == Realtime && w.home.armedIntervals == 1
            && CameraMounted(w.home) && w.home.countdown == 1 && !w.home.loadingDescription
  {
    CountsDown(Start(), FullCount - 1);
  }

  /**
   * A firing that finds the count at 1 with the camera showing a decodable
   * frame shows the frame for review, sends it for description and restarts
   * the count.
   */
  lemma FiringCaptures(w: World, frame: string, blob: DataUrl.Blob)
    requires w.home.armedIntervals > 0 && CameraMounted(w.home) && w.home.countdown == 1
    requires frame != "" && DataUrl.DecodeDataUrl(frame) == Ok(blob)
    ensures Step(w, IntervalFires(Some(frame))) ==
            World(w.home.(capturedImage := Some(frame), showRecapture := true, loadingDescription := true,
                          description := "", detailedDescription := "", answer := "",
                          lastDescribedImage := Some(blob), countdown := FullCount),
                  w.inFlight + [Describe(blob)])
  {
    var shown := w.home.(capturedImage := Some(frame), showRecapture := true);
    CaptureDecodes(w.home, frame, blob);
    var t := Tick(w.home, Some(frame));
    assert t == Effect(SendImageForDescription(shown, blob).state.(countdown := FullCount), Some(Describe(blob)), None);
  }

  /** With the camera mounted, a decodable frame is shown and sent for description. */
  lemma CaptureDecodes(s: State, frame: string, blob: DataUrl.Blob)
    requires CameraMounted(s) && frame != "" && DataUrl.DecodeDataUrl(frame) == Ok(blob)
    ensures CaptureAndDescribe(s, Some(frame))
            == SendImageForDescription(s.(capturedImage := Some(frame), showRecapture := true), blob)
  {
  }

  /** "Recapture" changes only the component's state. */
  lemma RecaptureStep(w: World)
    ensures Step(w, RecaptureClick) == World(HandleRecapture(w.home), w.inFlight)
  {
  }

  /** Settling the request at `i` runs its completion step and takes it out of flight. */
  lemma SettleStep(w: World, i: nat, resp: Response)
    requires i < |w.inFlight|
    ensures Step(w, Settle(i, resp)) == World(Complete(w.home, w.inFlight[i], resp), Without(w.inFlight, i))
  {
  }

  /**
   * After "Recapture", fourteen firings bring a full count down to 1 and
   * change nothing else.
   */
  lemma RecaptureThenCount(w: World)
    requires w.home.countdown == FullCount && w.home.armedIntervals > 0
    ensures Run(Step(w, RecaptureClick), Quiet(FullCount - 1))
            == World(HandleRecapture(w.home).(countdown := 1), w.inFlight)
  {
    RecaptureStep(w);
    CountsDown(Step(w, RecaptureClick), FullCount - 1);
  }

  /**
   * The interval captures `frameA`, "Recapture" is clicked, and the interval
   * fires fifteen more times, the last of them on `frameB`.
   */
  function CaptureTwice(w: World, frameA: string, frameB: string): World {
    var reviewed := Step(w, IntervalFires(Some(frameA)));
    var counted := Run(Step(reviewed, RecaptureClick), Quiet(FullCount - 1));
    Step(counted, IntervalFires(Some(frameB)))
  }

  /**
   * While the review image is shown, the webcam is not rendered, so the
   * interval keeps counting but its captures do nothing until recapture.
   */
  lemma ReviewBlocksCaptures(w: World, snapshot: Option<string>)
    requires Good(w) && w.home.capturedImage.Some? && w.home.showRecapture
    ensures Step(w, IntervalFires(snapshot)).inFlight == w.inFlight
    ensures Step(w, IntervalFires(snapshot)).home.capturedImage == w.home.capturedImage
  {
  }

  /**
   * In realtime mode with the camera showing a decodable frame, the firing
   * that finds the count run out sends that frame for description and
   * restarts the count; every other firing sends nothing.
   */
  lemma TickCaptures(w: World, snapshot: string, blob: DataUrl.Blob)
    requires Good(w) && w.home.mode == Realtime && CameraMounted(w.home)
    requires snapshot != "" && DataUrl.DecodeDataUrl(snapshot) == Ok(blob)
    ensures var v := Step(w, IntervalFires(Some(snapshot)));
            && (w.home.countdown == 1 ==> v.inFlight == w.inFlight + [Describe(blob)]
                                          && v.home.countdown == FullCount
                                          && v.home.capturedImage == Some(snapshot)
                                          && v.home.loadingDescription)
            && (w.home.countdown > 1 ==> v.inFlight == w.inFlight && v.home.countdown == w.home.countdown - 1)
  {
  }
}
