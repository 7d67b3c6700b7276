# Iris webcam recorder: a Dafny model of its logic

Iris is a browser widget that records the webcam into a WEBM clip. Almost all
of it is React markup. It holds three small pieces of logic, and this project
models each one and proves properties about it:

- **Timer** (`Timer.dfy`): the elapsed-time display. It turns a second count
  into `HH:MM:SS`. Each field is the decimal form of the number with a "0" in
  front, cut to its last two characters. The model works on whole seconds
  (`nat`). A separate lemma checks that the JavaScript expression, read on
  exact reals, gives the same fields.
- **App** (`App.dfy`): the capture session of the application component. Its
  state is a `capturing` flag, the ordered list of recorded chunks, and
  whether the recorder reference is set. This is a class, `Session`. Its
  methods are the handlers: start, stop, data-available and download. One
  more method, `Press`, runs whichever command the single button is
  offering. A chunk is a byte sequence whose size is its length. A download
  produces an `Artifact` value: a file name, a MIME type and the chunks.
  Pure functions (`DataStep`, `DataSteps`, `Retained`, `Contents`)
  specify the effect of data events, and lemmas about those functions carry
  the per-call facts over whole event sequences.
- **Controls** (`Controls.dfy`): the control panel's decision table. Given
  the panel's flags and chunk count, it fixes which buttons are shown, which
  command each one offers, which are disabled, and their colours. `Panel`
  gives the rendered buttons from left to right.

The recorder is modelled only as the thing that calls `OnData`. The camera
stream appears only as the `streamAvailable` parameter of start.

What the application component does:
- It has no pause, resume, reset, tick or elapsed-time counter. It has only
  a flag and a chunk list.
- The download file name is `react-webcam-stream-capture.webm`.
- Stopping before any start throws on the null `mediaRecorderRef.current`
  (src/App.tsx:15, 47). The model's `StopCapture` returns `ok == false` and
  changes nothing.
- Starting without a camera stream sets the flag and leaves the recorder
  reference null. See Findings.

## Model

| member | source | states |
|---|---|---|
| `Timer.Decimal` | src/components/Timer.tsx:5-7 | `String(n)`: at least one character; exactly one iff `n < 10`; the last two characters are the units and tens digits |
| `Timer.DecimalRoundTrip` | src/components/Timer.tsx:5-7 | parsing the decimal form of `n` gives `n` back |
| `Timer.DecimalDigits` | src/components/Timer.tsx:5-7 | the decimal form has only digit characters and no leading zero |
| `Timer.SliceLast` | src/components/Timer.tsx:5-7 | `slice(-k)` keeps the last `k` characters, or the whole string when it is shorter than `k`; `slice(-0)` is `slice(0)`, the whole string |
| `Timer.PaddedTail` | src/components/Timer.tsx:5-7 | `("0" + x).slice(-2)` always has exactly two characters |
| `Timer.PaddedTailDigits` | src/components/Timer.tsx:5-7 | `("0" + x).slice(-2)` is exactly the tens digit then the units digit of `x`, for every `x` |
| `Timer.Pad2` | src/components/Timer.tsx:5-7 | a field is always two digit characters, and they read back as `x % 100` |
| `Timer.Pad2TwoDigitForm` | src/components/Timer.tsx:5-7 | for `x < 100` the field is the two-digit decimal form of `x`: "0" plus the digit when `x < 10`, the plain decimal otherwise |
| `Timer.Pad2Periodic` | src/components/Timer.tsx:5 | numbers 100 apart give the same field, so leading digits beyond two are lost |
| `Timer.Hours` | src/components/Timer.tsx:5 | the hours field is `floor(t/3600)`: `3600*h <= t < 3600*(h+1)` |
| `Timer.Minutes` | src/components/Timer.tsx:6 | the minutes field `floor(t/60) % 60` is below 60 |
| `Timer.Seconds` | src/components/Timer.tsx:7 | the seconds field `t % 60` is below 60 |
| `Timer.Join` | src/components/Timer.tsx:4-8 | three two-digit fields joined give eight characters, with colons at 2 and 5 and the fields at 0..2, 3..5 and 6..8 |
| `Timer.FormatTime` | src/components/Timer.tsx:5-7 | the display always has the shape `DD:DD:DD`: eight characters, colons at positions 2 and 5, digits everywhere else |
| `Timer.FieldsParseBack` | src/components/Timer.tsx:5-7 | the fields read back: hours as `floor(t/3600) % 100`, minutes as `floor(t/60) % 60`, seconds as `t % 60` (the last two below 60) |
| `Timer.FormatTimeRoundTrip` | src/components/Timer.tsx:5-7 | for `t < 360000`, `3600*HH + 60*MM + SS == t` |
| `Timer.FormatTimeInjective` | src/components/Timer.tsx:5-7 | below 100 hours, different second counts show different text |
| `Timer.FormatTimeWraps` | src/components/Timer.tsx:5 | `t` and `t + 360000` show the same text: the hours display wraps at 100 |
| `Timer.AsWrittenAgrees` | src/components/Timer.tsx:5-7 | `Math.floor(t/3600)`, `Math.floor((t/60) % 60)` and `t % 60`, read on exact reals with JavaScript's `%`, equal the integer hours, minutes and seconds |
| `Controls.Background` | src/components/Controls.tsx:49-52 | a disabled button is gray whatever colour was asked for; an enabled one gets the requested colour |
| `Controls.HasRecording` | src/components/Controls.tsx:241 | `hasRecording` is `recordedChunks.length !== 0` (a definition; its consequences are stated by `PanelActions`) |
| `Controls.Shown` | src/components/Controls.tsx:198-245 | the `show` conditions of the four transitions (lines 198, 212, 229, 245) (a definition; `PanelVisibility` states what is rendered) |
| `Controls.RequestedColour` | src/components/Controls.tsx:34-169 | the colour each button asks for (lines 34, 75, 107, 118, 147, 169): yellow for pause and resume, green for preview, blue for upload, red (the template default) otherwise; never gray |
| `Controls.SlotButton` | src/components/Controls.tsx:206-256 | the button of a slot sits in that slot; it is disabled iff it is reset or upload and there are no chunks; it is gray iff disabled |
| `Controls.RecordAction` | src/components/Controls.tsx:104-132 | pause iff capturing and not paused; resume iff paused and not capturing; start otherwise; the three cases are disjoint and cover all inputs |
| `Controls.StopAction` | src/components/Controls.tsx:71-88 | preview iff not capturing and there is a recording; end recording otherwise |
| `Controls.Panel` | src/components/Controls.tsx:193-260 | at most four buttons, and a button is rendered iff its slot is shown and it is that slot's button |
| `Controls.PanelVisibility` | src/components/Controls.tsx:197-257 | record button shown iff no chunks; stop/preview button iff paused; reset and upload iff the recording is done |
| `Controls.PanelDisabled` | src/components/Controls.tsx:135-177 | only reset and upload can be disabled, exactly when there are no chunks; disabled means gray; enabled means the requested colour, which is never gray |
| `Controls.PanelActions` | src/components/Controls.tsx:220-242 | the record slot offers `RecordAction`; the stop slot offers preview iff not capturing and the chunk count (`hasRecording`) is non-zero; reset retakes; upload uploads |
| `Controls.PreviewHidesRecord` | src/components/Controls.tsx:211-243 | preview is offered only while the record button is hidden; when record and stop are both visible, stop ends the recording |
| `App.Contents` | src/App.tsx:53-55 | the blob is empty iff every chunk is empty |
| `App.ContentsAppend` | src/App.tsx:53-55 | the bytes of a blob from two chunk lists are the bytes of each, concatenated |
| `App.DataStep` | src/App.tsx:21-22 | one data event keeps the old list as a prefix and adds at most one chunk; the list changes iff the size is above 0, and then the added chunk is that data |
| `App.DataSteps` | src/App.tsx:19-26 | a sequence of data events keeps the old list as a prefix, and every chunk it adds has size above 0 |
| `App.Retained` | src/App.tsx:19-26 | the kept events all have size above 0, are no more than the events, and come from the events |
| `App.RetainedAppend` | src/App.tsx:19-26 | keeping distributes over concatenation, so kept events keep their arrival order |
| `App.RetainedAllPositive` | src/App.tsx:21-22 | when every event has size above 0, all are kept, in order |
| `App.DataStepsAppendRetained` | src/App.tsx:19-26 | any sequence of data events appends exactly the kept events: earlier chunks stay in order, and nothing of size 0 is added |
| `App.RetainedContents` | src/App.tsx:21-22 | dropping the empty chunks does not change the bytes of the assembled blob |
| `App.EmptyDeliveryDropped` | src/App.tsx:19-26 | chunks "a", empty, "b" leave exactly `[a, b]` |
| `App.RecordButton` | src/App.tsx:75-100 | download iff there is something to download (this wins over capturing); otherwise stop iff capturing; otherwise start |
| `App.Session.Valid` | src/App.tsx:15-26 | every stored chunk has size above 0 and a capturing session has a recorder; so whenever stop is offered, a recorder exists |
| `App.Session.constructor` | src/App.tsx:15-17 | not capturing, no chunks, no recorder; the invariant holds |
| `App.Session.Offered` | src/App.tsx:120-123 | start is offered only while there are no chunks and no capture; stop only while capturing with no chunks; download iff there are chunks |
| `App.Session.OnData` | src/App.tsx:19-26 | the chunk list becomes `DataStep` of the old list: a chunk of size 0 changes nothing, and a chunk above 0 is appended at the end; the flag is unchanged; every stored chunk stays above 0 |
| `App.Session.StartCaptureAsWritten` | src/App.tsx:34-44 | the flag is set; the recorder reference is set only when there is a stream; the chunks are unchanged |
| `App.Session.StartCapture` | src/App.tsx:34-44 | with a stream, capturing with a recorder; without one, nothing changes; the chunks are unchanged; the invariant is kept |
| `App.Session.StopCapture` | src/App.tsx:46-49 | with a recorder the flag is cleared; without one nothing changes (`ok == false`); the chunks are unchanged |
| `App.Session.Download` | src/App.tsx:51-66 | with no chunks: no artifact and no change; otherwise one artifact of exactly the old chunks, in order, named `react-webcam-stream-capture.webm`, of type `video/webm`; then the list is empty; the flag is unchanged |
| `App.Session.PressAsWritten` | src/App.tsx:34-100 | the click runs the offered command with start as written: a download yields the artifact and empties the list; a stop succeeds iff there is a recorder, and a failed stop leaves the flag set; a start happens only on an empty list, sets the flag, and sets the recorder only with a stream |
| `App.Session.Press` | src/App.tsx:75-100 | with the corrected start, the click runs the offered command: a download yields the artifact; a stop clears the flag and never meets a missing recorder; a start happens only on an empty list |
| `App.FailedFirstStartStrands` | src/App.tsx:34-49 | as written, a first click on start without a stream leaves the button offering stop, the next click's stop fails, and stop is still offered |

## Left out

- `src/components/Tooltip.tsx`: hover styling only; no logic.
- The platform recorder (`MediaRecorder`): its own start, stop and flush. The model does not track its states. `OnData` stands for its data events, including the last one after stop.
- The camera (`react-webcam`, video constraints): it appears only as the `streamAvailable` parameter of start.
- `Blob`, `URL.createObjectURL`/`revokeObjectURL` and the hidden anchor click: the download is the `Artifact` value. `Contents` gives its bytes.
- The panel's handlers (preview, stop, pause, resume, start, reset, upload): they come in as props and are not implemented in these files. The panel model only decides which one each button is wired to.
- Pause, resume, reset, the per-second tick and the elapsed counter: the application component has none of them.
- Transition animations, icons, tooltip texts and CSS classes other than the disabled-to-gray choice: presentation only.
- React's asynchronous, batched state updates: each handler is one atomic step.
- Timer.FormatTime: takes whole non-negative seconds. The display of fractional or negative numbers, and floating-point rounding for very large counts, are not modelled. `AsWrittenAgrees` uses exact reals.

## Findings

| source | as written | input that shows it | evidently intended | confidence | as-written member | corrected member |
|---|---|---|---|---|---|---|
| src/App.tsx:34-48 | start sets `capturing` before building the recorder. If building throws, the flag stays set and the recorder reference stays null. The button then offers stop, and stop throws on the null reference before clearing the flag. | the first click on start while the webcam has no stream (camera permission refused) | start changes nothing when there is no stream | not executed; relies on React keeping the update queued before the throw, and on `MediaRecorder` rejecting a null stream | `App.Session.StartCaptureAsWritten`, `App.Session.PressAsWritten`, `App.FailedFirstStartStrands` | `App.Session.StartCapture`, `App.Session.Press` |
