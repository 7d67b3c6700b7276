/** The control panel of the recording widget: which buttons are shown, which
    command each offers, which are disabled and in what colour, as functions
    of the flags and the number of recorded chunks the panel receives. */
module Controls {

  /** The props the panel's buttons depend on. The handlers are left out (the
      panel only decides which one each button is wired to), and so is
      `timeRecording`, which only feeds the timer display. */
  datatype Props = Props(
    isDoneRecording: bool,
    isCapturing: bool,
    isPaused: bool,
    chunkCount: nat)

  /** The commands a button can be wired to. */
  datatype Action = Retake | Pause | Resume | StartRecording | Preview | EndRecording | Upload

  /** The four places of the panel, left to right. */
  datatype Slot = ResetSlot | RecordSlot | StopSlot | UploadSlot

  /** The background colours a button can get. */
  datatype Colour = Red | Green | Yellow | Blue | Gray

  /** A rendered button. */
  datatype Button = Button(slot: Slot, action: Action, disabled: bool, colour: Colour)

  /** `hasRecording`, handed to the stop button: there is at least one chunk. */
  predicate HasRecording(chunkCount: nat) {
    chunkCount != 0
  }

  /** The background of a button: gray whenever it is disabled, whatever
      colour was asked for. */
  function Background(disabled: bool, requested: Colour): (c: Colour)
    ensures disabled ==> c == Gray
    ensures !disabled ==> c == requested
  {
    if disabled then Gray else requested
  }

  /** `RecordButton`: pause while capturing and not paused, resume while paused
      and not capturing, start in every other case. The three cases are
      disjoint and cover all inputs. */
  function RecordAction(capturing: bool, isPaused: bool): (a: Action)
    ensures a == Pause || a == Resume || a == StartRecording
    ensures a == Pause <==> capturing && !isPaused
    ensures a == Resume <==> isPaused && !capturing
    ensures a == StartRecording <==> capturing == isPaused
  {
    if capturing && !isPaused then Pause
    else if isPaused && !capturing then Resume
    else StartRecording
  }

  /** `StopButton`: preview when not capturing and there is a recording,
      end the recording otherwise. */
  function StopAction(capturing: bool, hasRecording: bool): (a: Action)
    ensures a == Preview || a == EndRecording
    ensures a == Preview <==> !capturing && hasRecording
  {
    if !capturing && hasRecording then Preview else EndRecording
  }

  /** The colour each command asks for (the template's default is red); no
      command asks for gray, so gray marks a disabled button. */
  function RequestedColour(a: Action): (c: Colour)
    ensures c != Gray
  {
    match a
    case Pause => Yellow
    case Resume => Yellow
    case Preview => Green
    case Upload => Blue
    case _ => Red
  }

  /** Whether the panel shows the button of a slot. */
  predicate Shown(p: Props, slot: Slot) {
    match slot
    case ResetSlot => p.isDoneRecording
    case RecordSlot => p.chunkCount == 0
    case StopSlot => p.isPaused
    case UploadSlot => p.isDoneRecording
  }

  /** The button a slot holds, whether shown or not: only reset and upload
      are ever disabled, exactly when there are no chunks, and a button is
      gray exactly when it is disabled. */
  function SlotButton(p: Props, slot: Slot): (b: Button)
    ensures b.slot == slot
    ensures b.disabled <==> (slot == ResetSlot || slot == UploadSlot) && p.chunkCount == 0
    ensures b.colour == Gray <==> b.disabled
  {
    var action := match slot
      case ResetSlot => Retake
      case RecordSlot => RecordAction(p.isCapturing, p.isPaused)
      case StopSlot => StopAction(p.isCapturing, HasRecording(p.chunkCount))
      case UploadSlot => Upload;
    var disabled := slot in {ResetSlot, UploadSlot} && p.chunkCount == 0;
    Button(slot, action, disabled, Background(disabled, RequestedColour(action)))
  }

  /** The buttons the panel renders, left to right. */
  function Panel(p: Props): (buttons: seq<Button>)
    ensures |buttons| <= 4
    ensures forall b :: b in buttons <==> Shown(p, b.slot) && b == SlotButton(p, b.slot)
  {
    (if Shown(p, ResetSlot) then [SlotButton(p, ResetSlot)] else [])
    + (if Shown(p, RecordSlot) then [SlotButton(p, RecordSlot)] else [])
    + (if Shown(p, StopSlot) then [SlotButton(p, StopSlot)] else [])
    + (if Shown(p, UploadSlot) then [SlotButton(p, UploadSlot)] else [])
  }

  /** The slot of a rendered button, if the panel renders one there. */
  predicate Renders(p: Props, slot: Slot) {
    exists b :: b in Panel(p) && b.slot == slot
  }

  /** Which buttons are visible: the record button iff no chunk is recorded,
      the stop/preview button iff paused, reset and upload iff the recording
      is done. */
  lemma PanelVisibility(p: Props)
    ensures Renders(p, RecordSlot) <==> p.chunkCount == 0
    ensures Renders(p, StopSlot) <==> p.isPaused
    ensures Renders(p, ResetSlot) <==> p.isDoneRecording
    ensures Renders(p, UploadSlot) <==> p.isDoneRecording
  {
    forall slot
      ensures Renders(p, slot) <==> Shown(p, slot)
    {
      if Shown(p, slot) {
        assert SlotButton(p, slot) in Panel(p);
      }
    }
  }

  /** Which buttons are disabled and how they look: only reset and upload can
      be disabled, exactly when there are no recorded chunks, a disabled
      button is always gray, and an enabled one never is. */
  lemma PanelDisabled(p: Props, b: Button)
    requires b in Panel(p)
    ensures b.disabled <==> (b.slot == ResetSlot || b.slot == UploadSlot) && p.chunkCount == 0
    ensures b.disabled ==> b.colour == Gray
    ensures !b.disabled ==> b.colour == RequestedColour(b.action) != Gray
  {
  }

  /** Each slot offers the commands its component decides: record, pause or
      resume in the record slot; stop or preview in the stop slot. */
  lemma PanelActions(p: Props, b: Button)
    requires b in Panel(p)
    ensures b.slot == RecordSlot ==> b.action == RecordAction(p.isCapturing, p.isPaused)
    ensures b.slot == StopSlot ==> (b.action == Preview <==> !p.isCapturing && p.chunkCount != 0)
    ensures b.slot == ResetSlot ==> b.action == Retake
    ensures b.slot == UploadSlot ==> b.action == Upload
  {
  }

  /** Preview is offered only when the record button is hidden, and while
      both the record and the stop button are visible the stop button ends
      the recording. */
  lemma PreviewHidesRecord(p: Props)
    ensures (exists b :: b in Panel(p) && b.action == Preview) ==> !Renders(p, RecordSlot)
    ensures Renders(p, RecordSlot) && Renders(p, StopSlot)
            ==> SlotButton(p, StopSlot).action == EndRecording
  {
  }
}
