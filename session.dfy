/**
 * The analysis session of the `Home` page component: its state fields and
 * the handlers that send an image for description, ask for the detailed
 * description, ask a question, recapture, and capture from the camera.
 *
 * Each `async` handler is split in two atomic steps: a begin step (its
 * guards and the state it writes before its `await`, returning the request
 * it dispatches) and a completion step (the writes of its `try`, `catch` and
 * `finally` once the request settles).  Completions carry no record of the
 * image their request was issued against, as in the component.
 */
module Session {
  import opened Wrappers
  import DataUrl

  datatype Mode = Realtime | Upload | Capture

  /** A dispatched request: its endpoint and the form fields it carries. */
  datatype Request =
    | Describe(file: DataUrl.Blob)
    | Details(file: DataUrl.Blob)
    | Question(file: DataUrl.Blob, text: string)

  /**
   * How a request settles.  `Rejected` stands for every way the handler's
   * `try` throws: `fetch` or `res.json()` rejects, or the body is `null`,
   * so that reading its field throws.  Otherwise a JSON body arrives whose
   * expected field may be missing or empty.
   */
  datatype Response = Rejected | Body(field: Option<string>)

  /** The component's state, with the number of armed countdown intervals. */
  datatype State = State(
    mode: Mode,
    description: string,
    detailedDescription: string,
    answer: string,
    loadingDescription: bool,
    loadingDetailed: bool,
    loadingQuestion: bool,
    question: string,
    uploadedFile: Option<DataUrl.Blob>,
    lastDescribedImage: Option<DataUrl.Blob>,
    capturedImage: Option<string>,
    showRecapture: bool,
    countdown: int,
    isCountdownActive: bool,
    armedIntervals: nat)

  /**
   * What a handler does: the new state, the request it dispatched, if any,
   * and the `alert` it raised, if any.
   */
  datatype Effect = Effect(state: State, sent: Option<Request>, alert: Option<string>)

  const NoDescription := "No description received."
  const DescriptionError := "Error fetching description."
  const NoDetailed := "No detailed description received."
  const DetailedError := "Error fetching detailed description."
  const NoAnswer := "No answer received."
  const AnswerError := "Error fetching answer."
  const NoImageAlert := "No image available. Please capture or upload one first."
  const NoQuestionAlert := "Please enter a question."
  const NoFileAlert := "Please select an image first."

  /**
   * `data.field || missing` inside `try`, `failed` from `catch`: the text a
   * result slot holds once its request settles.
   */
  function Settled(resp: Response, missing: string, failed: string): (text: string)
    ensures resp.Rejected? ==> text == failed
    ensures resp.Body? && resp.field.Some? && resp.field.value != "" ==> text == resp.field.value
    ensures resp.Body? && (resp.field.None? || resp.field.value == "") ==> text == missing
    ensures missing != "" && failed != "" ==> text != ""
  {
    match resp
    case Rejected => failed
    case Body(field) => if field.Some? && field.value != "" then field.value else missing
  }

  /**
   * The begin step of `sendImageForDescription(file)`: clear the three result
   * slots, remember the file as the current image, raise the describe flag
   * and post the file.  The other two loading flags are left alone.
   */
  function SendImageForDescription(s: State, file: DataUrl.Blob): (e: Effect)
    ensures e.sent == Some(Describe(file)) && e.alert.None?
    ensures e.state.loadingDescription
    ensures e.state.description == "" && e.state.detailedDescription == "" && e.state.answer == ""
    ensures e.state.lastDescribedImage == Some(file)
    ensures e.state.loadingDetailed == s.loadingDetailed && e.state.loadingQuestion == s.loadingQuestion
    ensures e.state.(loadingDescription := s.loadingDescription, description := s.description,
                     detailedDescription := s.detailedDescription, answer := s.answer,
                     lastDescribedImage := s.lastDescribedImage) == s
  {
    var t := s.(loadingDescription := true, description := "", answer := "",
                detailedDescription := "", lastDescribedImage := Some(file));
    Effect(t, Some(Describe(file)), None)
  }

  /** The completion step of `sendImageForDescription`. */
  function CompleteDescription(s: State, resp: Response): (t: State)
    ensures !t.loadingDescription
    ensures t.description == Settled(resp, NoDescription, DescriptionError) && t.description != ""
    ensures t.(description := s.description, loadingDescription := s.loadingDescription) == s
  {
    s.(description := Settled(resp, NoDescription, DescriptionError), loadingDescription := false)
  }

  /**
   * The begin step of `sendImageForDetailedDescription`: without a current
   * image it only alerts; otherwise it raises the detail flag, clears the
   * detail slot and posts the current image.
   */
  function SendImageForDetailedDescription(s: State): (e: Effect)
    ensures e.alert.Some? <==> s.lastDescribedImage.None?
    ensures e.alert.Some? ==> e.alert == Some(NoImageAlert) && e.state == s && e.sent.None?
    ensures e.alert.None? ==> e.sent == Some(Details(s.lastDescribedImage.value))
    ensures e.alert.None? ==> e.state.loadingDetailed && e.state.detailedDescription == ""
    ensures e.alert.None? ==> e.state.(loadingDetailed := s.loadingDetailed, detailedDescription := s.detailedDescription) == s
  {
    match s.lastDescribedImage
    case None => Effect(s, None, Some(NoImageAlert))
    case Some(image) =>
      Effect(s.(loadingDetailed := true, detailedDescription := ""), Some(Details(image)), None)
  }

  /** The completion step of `sendImageForDetailedDescription`. */
  function CompleteDetailedDescription(s: State, resp: Response): (t: State)
    ensures !t.loadingDetailed
    ensures t.detailedDescription == Settled(resp, NoDetailed, DetailedError) && t.detailedDescription != ""
    ensures t.(detailedDescription := s.detailedDescription, loadingDetailed := s.loadingDetailed) == s
  {
    s.(detailedDescription := Settled(resp, NoDetailed, DetailedError), loadingDetailed := false)
  }

  /**
   * The begin step of `sendImageQuestion`: the empty question is rejected
   * first, then a missing image; otherwise it raises the question flag,
   * clears the answer and posts the current image with the question text.
   * The handler rejects only the empty string, so called directly it
   * sends a question of blanks; in the page the button's `disabled`
   * attribute trims and keeps such a question from being sent.
   */
  function SendImageQuestion(s: State): (e: Effect)
    ensures s.question == "" ==> e == Effect(s, None, Some(NoQuestionAlert))
    ensures s.question != "" && s.lastDescribedImage.None? ==> e == Effect(s, None, Some(NoImageAlert))
    ensures e.alert.None? <==> s.question != "" && s.lastDescribedImage.Some?
    ensures e.alert.None? ==> e.sent == Some(Question(s.lastDescribedImage.value, s.question))
    ensures e.alert.None? ==> e.state.loadingQuestion && e.state.answer == ""
    ensures e.alert.None? ==> e.state.(loadingQuestion := s.loadingQuestion, answer := s.answer) == s
  {
    if s.question == "" then Effect(s, None, Some(NoQuestionAlert))
    else match s.lastDescribedImage
      case None => Effect(s, None, Some(NoImageAlert))
      case Some(image) =>
        Effect(s.(loadingQuestion := true, answer := ""), Some(Question(image, s.question)), None)
  }

  /** The completion step of `sendImageQuestion`. */
  function CompleteQuestion(s: State, resp: Response): (t: State)
    ensures !t.loadingQuestion
    ensures t.answer == Settled(resp, NoAnswer, AnswerError) && t.answer != ""
    ensures t.(answer := s.answer, loadingQuestion := s.loadingQuestion) == s
  {
    s.(answer := Settled(resp, NoAnswer, AnswerError), loadingQuestion := false)
  }

  /**
   * The "Analyze Image" click in upload mode: describe the chosen file, or
   * alert when none is chosen.
   */
  function AnalyzeUpload(s: State): (e: Effect)
    ensures s.uploadedFile.None? ==> e == Effect(s, None, Some(NoFileAlert))
    ensures s.uploadedFile.Some? ==> e == SendImageForDescription(s, s.uploadedFile.value)
  {
    match s.uploadedFile
    case None => Effect(s, None, Some(NoFileAlert))
    case Some(file) => SendImageForDescription(s, file)
  }

  /**
   * `handleRecapture`: leave the review view and clear the three result
   * slots; the current image, the loading flags, the question and the mode
   * are kept.
   */
  function HandleRecapture(s: State): (t: State)
    ensures t.capturedImage.None? && !t.showRecapture
    ensures t.description == "" && t.detailedDescription == "" && t.answer == ""
    ensures t.lastDescribedImage == s.lastDescribedImage && t.question == s.question && t.mode == s.mode
    ensures t.loadingDescription == s.loadingDescription && t.loadingDetailed == s.loadingDetailed
    ensures t.loadingQuestion == s.loadingQuestion
    ensures t.(capturedImage := s.capturedImage, showRecapture := s.showRecapture, description := s.description,
               detailedDescription := s.detailedDescription, answer := s.answer) == s
  {
    s.(capturedImage := None, showRecapture := false, description := "", detailedDescription := "", answer := "")
  }

  /** A string is truthy in JavaScript when it is not empty. */
  predicate Truthy(v: Option<string>) {
    v.Some? && v.value != ""
  }

  /**
   * Whether `webcamRef.current` is set: the webcam is rendered in the
   * realtime and capture modes, except while the review image is shown in
   * its place.
   */
  predicate CameraMounted(s: State) {
    (s.mode == Realtime || s.mode == Capture) && !(Truthy(s.capturedImage) && s.showRecapture)
  }

  /**
   * The webcam is never mounted in upload mode or while a review image is
   * shown, and in the two camera modes it is mounted whenever the review is
   * closed or holds no image.
   */
  lemma CameraMountedCases(s: State)
    ensures s.mode == Upload ==> !CameraMounted(s)
    ensures Truthy(s.capturedImage) && s.showRecapture ==> !CameraMounted(s)
    ensures s.mode != Upload && !s.showRecapture ==> CameraMounted(s)
    ensures s.mode != Upload && !Truthy(s.capturedImage) ==> CameraMounted(s)
  {
  }

  /**
   * `captureAndDescribe`, given what `getScreenshot()` returns.  Nothing
   * happens without the camera or a snapshot.  Otherwise the snapshot is
   * shown for review and decoded; a snapshot that fails to decode throws
   * after the review is shown, and no request is sent.
   */
  function CaptureAndDescribe(s: State, snapshot: Option<string>): (e: Effect)
    ensures !CameraMounted(s) || !Truthy(snapshot) ==> e == Effect(s, None, None)
    ensures e.alert.None?
    ensures CameraMounted(s) && Truthy(snapshot) ==>
              e.state.capturedImage == snapshot && e.state.showRecapture
    ensures CameraMounted(s) && Truthy(snapshot) ==>
              match DataUrl.DecodeDataUrl(snapshot.value)
              case Ok(blob) => e == SendImageForDescription(s.(capturedImage := snapshot, showRecapture := true), blob)
              case Err(_) => e == Effect(s.(capturedImage := snapshot, showRecapture := true), None, None)
  {
    if !CameraMounted(s) || !Truthy(snapshot) then Effect(s, None, None)
    else
      var shown := s.(capturedImage := snapshot, showRecapture := true);
      match DataUrl.DecodeDataUrl(snapshot.value)
      case Ok(blob) => SendImageForDescription(shown, blob)
      case Err(_) => Effect(shown, None, None)
  }
}
