/**
 * The `Home` component as an object whose handlers update its fields one
 * `set…` call at a time, in the order the component makes them.  Each
 * method is proved to produce exactly the state that the matching function
 * of `Session` or `Countdown` gives, so the properties proved there hold of
 * the object.
 */
module Component {
  import opened Wrappers
  import DataUrl
  import opened Session
  import opened Countdown

  class Home {
    var mode: Mode
    var description: string
    var detailedDescription: string
    var answer: string
    var loadingDescription: bool
    var loadingDetailed: bool
    var loadingQuestion: bool
    var question: string
    var uploadedFile: Option<DataUrl.Blob>
    var lastDescribedImage: Option<DataUrl.Blob>
    var capturedImage: Option<string>
    var showRecapture: bool
    var countdown: int
    var isCountdownActive: bool
    var armedIntervals: nat

    /** The component's state as a value. */
    function AsState(): State
      reads this
    {
      State(mode, description, detailedDescription, answer, loadingDescription, loadingDetailed,
            loadingQuestion, question, uploadedFile, lastDescribedImage, capturedImage, showRecapture,
            countdown, isCountdownActive, armedIntervals)
    }

    /** Mounting: the initial `useState` values, then the effects for realtime mode. */
    constructor ()
      ensures AsState() == Mounted()
    {
      mode := Realtime;
      description, detailedDescription := "", "";
      loadingDescription, loadingDetailed, loadingQuestion := false, false, false;
      question, answer := "", "";
      uploadedFile, lastDescribedImage := None, None;
      capturedImage, showRecapture := None, false;
      countdown, isCountdownActive := 15, false;
      armedIntervals := 0;
      new;
      // the countdown effect for the initial mode
      isCountdownActive := true;
      countdown := 15;
      armedIntervals := armedIntervals + 1;
      // the reset effect
      countdown := 15;
    }

    method SendImageForDescription(file: DataUrl.Blob) returns (sent: Request)
      modifies this
      ensures AsState() == Session.SendImageForDescription(old(AsState()), file).state
      ensures Some(sent) == Session.SendImageForDescription(old(AsState()), file).sent
    {
      loadingDescription := true;
      description := "";
      answer := "";
      detailedDescription := "";
      lastDescribedImage := Some(file);
      sent := Describe(file);
    }

    method CompleteDescription(resp: Response)
      modifies this
      ensures AsState() == Session.CompleteDescription(old(AsState()), resp)
    {
      if resp.Body? {
        description := if resp.field.Some? && resp.field.value != "" then resp.field.value else NoDescription;
      } else {
        description := DescriptionError;
      }
      loadingDescription := false;
    }

    method SendImageForDetailedDescription() returns (sent: Option<Request>, alert: Option<string>)
      modifies this
      ensures AsState() == Session.SendImageForDetailedDescription(old(AsState())).state
      ensures sent == Session.SendImageForDetailedDescription(old(AsState())).sent
      ensures alert == Session.SendImageForDetailedDescription(old(AsState())).alert
    {
      if lastDescribedImage.None? {
        return None, Some(NoImageAlert);
      }
      loadingDetailed := true;
      detailedDescription := "";
      sent, alert := Some(Details(lastDescribedImage.value)), None;
    }

    method CompleteDetailedDescription(resp: Response)
      modifies this
      ensures AsState() == Session.CompleteDetailedDescription(old(AsState()), resp)
    {
      if resp.Body? {
        detailedDescription := if resp.field.Some? && resp.field.value != "" then resp.field.value else NoDetailed;
      } else {
        detailedDescription := DetailedError;
      }
      loadingDetailed := false;
    }

    method SendImageQuestion() returns (sent: Option<Request>, alert: Option<string>)
      modifies this
      ensures AsState() == Session.SendImageQuestion(old(AsState())).state
      ensures sent == Session.SendImageQuestion(old(AsState())).sent
      ensures alert == Session.SendImageQuestion(old(AsState())).alert
    {
      if question == "" {
        return None, Some(NoQuestionAlert);
      }
      if lastDescribedImage.None? {
        return None, Some(NoImageAlert);
      }
      loadingQuestion := true;
      answer := "";
      sent, alert := Some(Question(lastDescribedImage.value, question)), None;
    }

    method CompleteQuestion(resp: Response)
      modifies this
      ensures AsState() == Session.CompleteQuestion(old(AsState()), resp)
    {
      if resp.Body? {
        answer := if resp.field.Some? && resp.field.value != "" then resp.field.value else NoAnswer;
      } else {
        answer := AnswerError;
      }
      loadingQuestion := false;
    }

    /** The upload section's "Analyze Image" click. */
    method AnalyzeUpload() returns (sent: Option<Request>, alert: Option<string>)
      modifies this
      ensures AsState() == Session.AnalyzeUpload(old(AsState())).state
      ensures sent == Session.AnalyzeUpload(old(AsState())).sent
      ensures alert == Session.AnalyzeUpload(old(AsState())).alert
    {
      if uploadedFile.Some? {
        var request := SendImageForDescription(uploadedFile.value);
        sent, alert := Some(request), None;
      } else {
        sent, alert := None, Some(NoFileAlert);
      }
    }

    method HandleRecapture()
      modifies this
      ensures AsState() == Session.HandleRecapture(old(AsState()))
    {
      capturedImage := None;
      showRecapture := false;
      description := "";
      detailedDescription := "";
      answer := "";
    }

    /** `captureAndDescribe`, given what the webcam's `getScreenshot()` returns. */
    method CaptureAndDescribe(snapshot: Option<string>) returns (sent: Option<Request>)
      modifies this
      ensures AsState() == Session.CaptureAndDescribe(old(AsState()), snapshot).state
      ensures sent == Session.CaptureAndDescribe(old(AsState()), snapshot).sent
    {
      if !CameraMounted(AsState()) {
        return None;
      }
      if !Truthy(snapshot) {
        return None;
      }
      capturedImage := snapshot;
      showRecapture := true;
      var blob := DataUrl.DataUrlToBlob(snapshot.value);
      if blob.Err? {
        return None;
      }
      var request := SendImageForDescription(blob.value);
      sent := Some(request);
    }

    /** One firing of the countdown interval. */
    method IntervalTick(snapshot: Option<string>) returns (sent: Option<Request>)
      modifies this
      ensures AsState() == Tick(old(AsState()), snapshot).state
      ensures sent == Tick(old(AsState()), snapshot).sent
    {
      if countdown <= 1 {
        sent := CaptureAndDescribe(snapshot);
        countdown := FullCount;
      } else {
        sent := None;
        countdown := countdown - 1;
      }
    }

    /** Selecting mode `m`: the effect's cleanup, then both mode effects. */
    method SetMode(m: Mode)
      modifies this
      ensures AsState() == ChangeMode(old(AsState()), m)
    {
      if m == mode {
        return;
      }
      var previous := mode;
      mode := m;
      if previous == Realtime && armedIntervals > 0 {
        armedIntervals := armedIntervals - 1;
      }
      if m != Realtime {
        isCountdownActive := false;
        countdown := FullCount;
      } else {
        isCountdownActive := true;
        countdown := FullCount;
        armedIntervals := armedIntervals + 1;
        countdown := FullCount;
      }
    }
  }
}
