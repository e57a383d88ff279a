# Image analysis page: capture and request orchestration

This project models the logic of the Next.js page `frontend/src/app/page.js`.
The page takes an image from a live camera, a one-shot capture or a file upload.
It sends the image to a remote vision service for a short description.
On request it also asks for a detailed description and answers a free-form question about the same image.

The model has five parts:

- **Snapshot decoding** (`Base64`, `DataUrl`). `dataURLtoBlob` splits a `data:` URL (section 3 of RFC 2397) at its commas.
  It takes the MIME type from the regular expression `/:(.*?);/` and decodes the payload with `atob`.
  `atob` is the forgiving base64 decode of the WHATWG Infra standard, over the alphabet of section 4 of RFC 4648.
  It copies the char codes into a byte array with a down-counting loop.
  `Btoa` is the matching encoder.
  It is proved to round-trip with `Atob`, and a whole snapshot URL is proved to decode back to its MIME type and bytes.
- **Analysis session** (`Session`). This is the component's state and its handlers.
  Each `async` handler is split into a *begin* step (its guards and its writes before `await`) and a *completion* step (its `try`/`catch`/`finally` writes).
  A response is abstract: `Rejected`, or `Body(field)`, where the field may be missing or empty.
  An `alert` becomes a returned guidance message, with the state unchanged.
- **Capture-mode controller** (`Countdown`). This covers the effect that runs when `mode` changes, and the one-second interval's updater.
  The updater counts down and fires one capture when the count runs out.
  Time is a sequence of discrete interval firings.
  The browser's timers are a count of armed intervals.
- **The component object** (`Component.Home`). This is a class whose methods update its fields step by step, as the component's setters do.
  Each method is proved to reach exactly the state that the matching `Session` or `Countdown` function gives.
- **Runs** (`Runs`). These are interleavings of user events, interval firings and settlements of in-flight requests, in any order.
  The page invariant holds on every run from the mounted page.
  Two lemmas show what overlapping requests do in this code (`Runs.StaleDetailOverwrites`, and `Interleavings.OverlappingDescribes`, where the countdown interval sends a second describe while the first is still out).

In these places the code behaves in ways a reader might not expect; the model follows the code:

- Sending a new image for description clears the three result slots.
  It does not touch the detail and question loading flags (`page.js:50-54`).
- The question handler rejects only the empty string (`page.js:100`), so called directly it would send a question of blanks.
  In the page, the button's `disabled` attribute trims (`page.js:518`) and keeps such a question from being sent; the model leaves that attribute out.
- A non-2xx response with a JSON body is not a failure.
  `fetch` resolves, and the slot shows the field if the non-2xx body carries one, and otherwise the "No … received." text.
  Only a rejected `fetch`, an unparsable body or a body of `null` (reading a field of `null` throws) gives the "Error fetching …" text (`page.js:59-67`); `Rejected` stands for all three.
- The capture fires on the tick that finds the count at 1 or below.
  Counting from 15, that is every fifteenth firing (`page.js:155-161`).
- After a capture, the review image replaces the webcam (`page.js:273-299`), so `webcamRef.current` is null.
  Later interval firings in realtime mode capture nothing until "Recapture".
- Completions are not tagged with the image they were issued against.
  A late detail or answer fills its slot after the image has changed, and of two overlapping describes, the first to settle lowers the loading flag while the other is still in flight.
  The model keeps this behaviour and states it as lemmas.

## Model

| member | source | states |
|---|---|---|
| `Base64.Atob` | frontend/src/app/page.js:30 | `atob` yields a binary string (every code below 256), and rejects any input whose whitespace-free length is 1 mod 4 |
| `Base64.AtobBtoa` | frontend/src/app/page.js:30 | decoding the padded base64 encoding of any binary string gives that string back |
| `Base64.DecodeEncodeBody` | frontend/src/app/page.js:30 | the unpadded encoding never has length 1 mod 4 and decodes back to the input, three bytes per quantum |
| `Base64.AtobRejectsLength` | frontend/src/app/page.js:28-30 | a whitespace-free string of length 1 mod 4, such as the text "undefined", is rejected by `atob` |
| `DataUrl.PieceEnd` | frontend/src/app/page.js:28 | the piece starting at `from` ends at the first comma at or after it, or at the end of the string |
| `DataUrl.Header` | frontend/src/app/page.js:28 | the header is the comma-free prefix of the URL ending at its first comma, or the whole URL when it holds none |
| `DataUrl.PayloadText` | frontend/src/app/page.js:28-30 | without a comma `atob` receives the text "undefined"; otherwise the comma-free text between the first comma and the next comma or the end |
| `DataUrl.SplitJoined` | frontend/src/app/page.js:28 | joining two comma-free texts with a comma splits back into the header and payload |
| `DataUrl.SemicolonFrom` | frontend/src/app/page.js:29 | the lazy `.*?;` finds the first `;` not preceded by a line terminator, and finds none exactly when every `;` is cut off |
| `DataUrl.MatchFrom` | frontend/src/app/page.js:29 | the match found is a real match and no match starts further left; none is found only when no match exists |
| `DataUrl.MatchMime` | frontend/src/app/page.js:29 | the MIME type is the text of the leftmost `:…;` match; it is absent exactly when the header has no match |
| `DataUrl.MimeOfPlainHeader` | frontend/src/app/page.js:29 | on a header without line terminators, the MIME type is the shortest text between the first `:` and the next `;` |
| `DataUrl.DecodeDataUrl` | frontend/src/app/page.js:27-35 | the two throws are distinguished, the missing-MIME error taking priority; on success the MIME type is the match, and there is one byte per decoded char, equal to its code |
| `DataUrl.DataUrlToBlob` | frontend/src/app/page.js:27-35 | the imperative decoder returns exactly what `DecodeDataUrl` specifies |
| `DataUrl.CopyCharCodes` | frontend/src/app/page.js:31-33 | the `while (length--)` loop fills an array of the decoded length whose byte i is the code of char i |
| `DataUrl.NoCommaFails` | frontend/src/app/page.js:28-30 | a data URL without a comma always fails, because `atob(undefined)` throws |
| `DataUrl.DecodeEncodedDataUrl` | frontend/src/app/page.js:27-35 | `data:<mime>;base64,<btoa(binary)>` decodes to exactly that MIME type and those bytes |
| `Session.Settled` | frontend/src/app/page.js:64-67 | a settled slot holds the returned text when it is non-empty, the "missing" text when the field is absent or empty, and the "error" text on failure; it is never empty |
| `Session.SendImageForDescription` | frontend/src/app/page.js:49-57 | describing clears all three slots, records the file as the current image, raises only the describe flag and posts that file; nothing else changes |
| `Session.CompleteDescription` | frontend/src/app/page.js:59-70 | on every outcome the describe flag is lowered and the description becomes the settled, non-empty text; nothing else changes |
| `Session.SendImageForDetailedDescription` | frontend/src/app/page.js:74-82 | with no current image it alerts, changes nothing and sends nothing; otherwise it raises the detail flag, clears the detail slot and posts the current image |
| `Session.CompleteDetailedDescription` | frontend/src/app/page.js:84-95 | the detail flag is lowered on every outcome and the slot holds the settled, non-empty text |
| `Session.SendImageQuestion` | frontend/src/app/page.js:99-113 | the empty question is rejected first, then a missing image, both without a state change; otherwise it raises the question flag, clears the answer and posts the image with the question |
| `Session.CompleteQuestion` | frontend/src/app/page.js:115-126 | the question flag is lowered on every outcome and the answer holds the settled, non-empty text |
| `Session.AnalyzeUpload` | frontend/src/app/page.js:385-388 | with no file chosen it only alerts; otherwise it describes the chosen file |
| `Session.HandleRecapture` | frontend/src/app/page.js:130-136 | recapture closes the review and clears the three slots; the current image, the loading flags, the question and the mode are kept |
| `Session.CameraMountedCases` | frontend/src/app/page.js:273-299 | `webcamRef.current` is unset in upload mode and while the review image is shown; in realtime and capture mode it is set whenever the review is closed or no snapshot is held |
| `Session.CaptureAndDescribe` | frontend/src/app/page.js:38-46 | without a mounted camera or a snapshot nothing changes; otherwise the snapshot is shown for review, then it is described when it decodes, and nothing is sent when it does not |
| `Countdown.NextCount` | frontend/src/app/page.js:155-161 | from a count in 1..15 the next count stays in 1..15, and it is 15 exactly when a capture fires |
| `Countdown.CountdownCycle` | frontend/src/app/page.js:154-162 | from 15, after n firings the count is 15 - n mod 15, within 1..15, and exactly n / 15 captures have fired |
| `Countdown.Tick` | frontend/src/app/page.js:154-162 | a firing moves the count by the updater; it captures and restarts at 15 when the count has run out, and otherwise only counts down |
| `Countdown.ChangeMode` | frontend/src/app/page.js:144-172 | reselecting the mode changes nothing; a new mode resets the count to 15 and shows the countdown only in realtime; the old interval is cleared before one is armed, so exactly one is armed only in realtime; no result slot changes |
| `Countdown.Mounted` | frontend/src/app/page.js:10-24 | after mounting, the page is in realtime mode with one interval armed, a full count, empty slots and no image |
| `Component.Home.constructor` | frontend/src/app/page.js:10-24 | the new component is in the mounted state |
| `Component.Home.SendImageForDescription` | frontend/src/app/page.js:49-57 | the field-by-field writes reach the begin state of `Session.SendImageForDescription` and post the file |
| `Component.Home.CompleteDescription` | frontend/src/app/page.js:59-70 | the settle writes reach `Session.CompleteDescription` |
| `Component.Home.SendImageForDetailedDescription` | frontend/src/app/page.js:74-82 | the guard and writes reach `Session.SendImageForDetailedDescription`, with the same request or alert |
| `Component.Home.CompleteDetailedDescription` | frontend/src/app/page.js:84-95 | the settle writes reach `Session.CompleteDetailedDescription` |
| `Component.Home.SendImageQuestion` | frontend/src/app/page.js:99-113 | the two guards and writes reach `Session.SendImageQuestion`, with the same request or alert |
| `Component.Home.CompleteQuestion` | frontend/src/app/page.js:115-126 | the settle writes reach `Session.CompleteQuestion` |
| `Component.Home.AnalyzeUpload` | frontend/src/app/page.js:385-388 | the click handler reaches `Session.AnalyzeUpload` |
| `Component.Home.HandleRecapture` | frontend/src/app/page.js:130-136 | the five setter calls reach `Session.HandleRecapture` |
| `Component.Home.CaptureAndDescribe` | frontend/src/app/page.js:38-46 | the early returns, the review writes, the decoding and the describe reach `Session.CaptureAndDescribe` |
| `Component.Home.IntervalTick` | frontend/src/app/page.js:155-161 | the updater with its capture side effect reaches `Countdown.Tick` |
| `Component.Home.SetMode` | frontend/src/app/page.js:144-172 | the cleanup and both mode effects reach `Countdown.ChangeMode` |
| `Runs.StepGood` | frontend/src/app/page.js:38-172 | every event keeps the page invariant: the count is in 1..15, one interval is armed and the countdown shown exactly in realtime, the review is open exactly when a snapshot is held, and a raised flag has a request of its kind in flight |
| `Runs.RunGood` | frontend/src/app/page.js:38-172 | the page invariant holds after any sequence of events |
| `Runs.EveryRun` | frontend/src/app/page.js:144-165 | on every run from mounting, the count stays in 1..15 and at most one interval is armed, exactly in realtime; once all requests have settled, no loading flag is left raised |
| `Runs.StaleDetailOverwrites` | frontend/src/app/page.js:74-96 | a detail request for image a that settles after image b was sent for description still fills the detail slot, next to b |
| `Runs.CountsDown` | frontend/src/app/page.js:155-161 | firings that do not reach the end of the count lower it by one each and change nothing else |
| `Runs.MountedReachesCapture` | frontend/src/app/page.js:144-161 | fourteen firings after mounting, the camera is showing, nothing is in flight and the count is 1 |
| `Runs.FiringCaptures` | frontend/src/app/page.js:38-55 | the firing at count 1 with a decodable frame shows it for review, sends it for description and restarts the count, all other fields unchanged |
| `Runs.RecaptureThenCount` | frontend/src/app/page.js:130-136 | after "Recapture" from a full count, fourteen firings bring the count to 1 and change nothing else; "Recapture" itself cancels no request in flight (the helper `Runs.RecaptureStep`) |
| `Interleavings.OverlapArises` | frontend/src/app/page.js:38-55 | without clicking a disabled button, the interval captures a frame, "Recapture" remounts the webcam, and the interval captures a second frame fifteen firings later: two describes are in flight |
| `Interleavings.SettleReversed` | frontend/src/app/page.js:49-71 | when two describes settle in reverse order, the first to settle lowers the flag while the other is still out, and the late one overwrites the description of the newer image; each settlement runs its request's completion step and removes exactly that request (the helper `Runs.SettleStep`) |
| `Interleavings.OverlappingDescribes` | frontend/src/app/page.js:155-161 | along that run, the page ends showing the description of the first frame beside the second image with nothing in flight |
| `Runs.ReviewBlocksCaptures` | frontend/src/app/page.js:38-41 | while the review image is shown, interval firings send nothing and keep the snapshot |
| `Runs.TickCaptures` | frontend/src/app/page.js:154-162 | in realtime with the camera mounted, the firing at count 1 sends the decoded frame and restarts at 15; other firings send nothing and count down |

## Left out

- Network I/O is not modelled: `fetch`, `FormData`, `res.json()` and `BACKEND_URL` (`page.js:6`, `56-64`, `81-89`, `111-120`). A request is the value it posts, and its outcome is an abstract `Response`. HTTP status codes and non-string JSON fields are not modelled.
- Rendering is not modelled: the JSX tree, `themeClasses`, `darkMode` and `toggleDarkMode`. The model uses the render only for whether the webcam is mounted.
- The buttons' `disabled` attributes and which buttons each mode renders are not modelled. Events may invoke a handler in any state.
- `react-webcam` is not modelled: `getScreenshot()` is an optional snapshot string given to the capture.
- Wall-clock timing is not modelled: `setInterval` and `clearInterval` become discrete firings and a count of armed intervals.
- React details are not modelled: batching of state updates, development-mode double invocation of updaters, and the unhandled promise rejection when decoding throws.
- The browser `File` type is not modelled: an upload is the same `Blob` value (bytes and MIME type), and its name is not kept.
- The `Blob` constructor's type normalisation (`page.js:34`) is not modelled: the browser lowercases the `type` option and empties it when it holds a character outside U+0020–U+007E, while `DataUrl.Blob` keeps the regular-expression match as is. `DecodeEncodedDataUrl` states the type passed to the constructor, not the resulting `blob.type`.
- The SVG countdown ring arithmetic (`page.js:327`) is not modelled: it is floating-point presentation.
- `frontend/next.config.mjs` is not modelled: it is a single framework rewrite rule with no logic of its own.
