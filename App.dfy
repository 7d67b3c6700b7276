/** The capture session of the application component: a `capturing` flag and
    the ordered list of recorded chunks, changed by the start, stop,
    data-available and download handlers, and the single button that offers
    one of those commands. */
module App {

  datatype Option<T> = None | Some(value: T)

  /** One `Blob` delivered by the recorder's `dataavailable` event. */
  datatype Chunk = Chunk(bytes: seq<bv8>) {
    /** `data.size`: the number of bytes. */
    function Size(): nat {
      |bytes|
    }
  }

  /** The MIME type given to the recorder and to the assembled blob. */
  const MimeType: string := "video/webm"

  /** The name under which the recording is downloaded. */
  const FileName: string := "react-webcam-stream-capture.webm"

  /** What a download hands to the browser: the chunks, in order, as one
      blob of the given type under the given file name. */
  datatype Artifact = Artifact(fileName: string, mimeType: string, parts: seq<Chunk>)

  /** The bytes of a blob built from `parts`: their contents one after
      another. The blob is empty exactly when every part is. */
  function Contents(parts: seq<Chunk>): (bytes: seq<bv8>)
    ensures |bytes| == 0 <==> forall i :: 0 <= i < |parts| ==> parts[i].Size() == 0
  {
    if parts == [] then [] else parts[0].bytes + Contents(parts[1..])
  }

  /** Joining two chunk lists joins their contents. */
  lemma {:induction false} ContentsAppend(a: seq<Chunk>, b: seq<Chunk>)
    ensures Contents(a + b) == Contents(a) + Contents(b)
  {
    if a != [] {
      assert (a + b)[0] == a[0] && (a + b)[1..] == a[1..] + b;
      ContentsAppend(a[1..], b);
      assert Contents(a + b) == a[0].bytes + Contents(a[1..] + b);
    } else {
      assert a + b == b;
    }
  }

  /** The effect of one `dataavailable` event on the chunk list: a chunk of
      positive size is appended, an empty one is dropped. */
  function DataStep(chunks: seq<Chunk>, data: Chunk): (after: seq<Chunk>)
    ensures chunks <= after && |after| <= |chunks| + 1
    ensures after == chunks <==> data.Size() == 0
    ensures forall i :: |chunks| <= i < |after| ==> after[i] == data && data.Size() > 0
  {
    if data.Size() > 0 then chunks + [data] else chunks
  }

  /** The effect of a sequence of `dataavailable` events, in arrival order:
      the earlier chunks stay in front, and everything added has positive
      size. */
  function DataSteps(chunks: seq<Chunk>, events: seq<Chunk>): (after: seq<Chunk>)
    ensures chunks <= after
    ensures forall i :: |chunks| <= i < |after| ==> after[i].Size() > 0
    decreases |events|
  {
    if events == [] then chunks else DataSteps(DataStep(chunks, events[0]), events[1..])
  }

  /** The events that are kept: those of positive size, in arrival order. */
  function Retained(events: seq<Chunk>): (kept: seq<Chunk>)
    ensures |kept| <= |events|
    ensures forall i :: 0 <= i < |kept| ==> kept[i].Size() > 0
    ensures forall c :: c in kept ==> c in events
  {
    if events == [] then []
    else (if events[0].Size() > 0 then [events[0]] else []) + Retained(events[1..])
  }

  /** Retaining distributes over concatenation, so the kept events keep their
      relative order. */
  lemma {:induction false} RetainedAppend(a: seq<Chunk>, b: seq<Chunk>)
    ensures Retained(a + b) == Retained(a) + Retained(b)
  {
    if a != [] {
      assert (a + b)[0] == a[0] && (a + b)[1..] == a[1..] + b;
      RetainedAppend(a[1..], b);
      var head := if a[0].Size() > 0 then [a[0]] else [];
      assert Retained(a + b) == head + Retained(a[1..] + b);
    } else {
      assert a + b == b;
    }
  }

  /** Events of positive size are all kept. */
  lemma {:induction false} RetainedAllPositive(events: seq<Chunk>)
    requires forall i :: 0 <= i < |events| ==> events[i].Size() > 0
    ensures Retained(events) == events
  {
    if events != [] {
      RetainedAllPositive(events[1..]);
    }
  }

  /** Any sequence of data events appends exactly the kept events to the
      chunk list: every earlier chunk stays, in order, and nothing of size 0
      is added. */
  lemma {:induction false} DataStepsAppendRetained(chunks: seq<Chunk>, events: seq<Chunk>)
    ensures DataSteps(chunks, events) == chunks + Retained(events)
    decreases |events|
  {
    if events != [] {
      DataStepsAppendRetained(DataStep(chunks, events[0]), events[1..]);
    }
  }

  /** Dropping the empty chunks does not change the recorded bytes. */
  lemma {:induction false} RetainedContents(events: seq<Chunk>)
    ensures Contents(Retained(events)) == Contents(events)
  {
    if events != [] {
      var head := if events[0].Size() > 0 then [events[0]] else [];
      ContentsAppend(head, Retained(events[1..]));
      RetainedContents(events[1..]);
      assert Contents(head) == events[0].bytes;
    }
  }

  /** The commands the application's single button can offer: save (download),
      stop capturing, start capturing. */
  datatype Command = Save | Stop | Start

  /** The inner `RecordButton`: download whenever there is something to
      download, otherwise stop while capturing, otherwise start. */
  function RecordButton(capturing: bool, download: bool): (c: Command)
    ensures c == Save <==> download
    ensures c == Stop <==> !download && capturing
    ensures c == Start <==> !download && !capturing
  {
    if download then Save else if capturing then Stop else Start
  }

  /** The application's state. `hasRecorder` says whether
      `mediaRecorderRef.current` holds a recorder (it is null until the first
      start). */
  class Session {
    var capturing: bool
    var recordedChunks: seq<Chunk>
    var hasRecorder: bool

    /** Every stored chunk has positive size, and a capturing session has a
        recorder to stop: when the button offers stop, the recorder exists. */
    ghost predicate Valid()
      reads this
      ensures Valid() ==> (Offered() == Stop ==> hasRecorder)
    {
      (forall i :: 0 <= i < |recordedChunks| ==> recordedChunks[i].Size() > 0)
      && (capturing ==> hasRecorder)
    }

    /** The initial state: not capturing, no chunks, no recorder. */
    constructor ()
      ensures Valid()
      ensures !capturing && recordedChunks == [] && !hasRecorder
    {
      capturing := false;
      recordedChunks := [];
      hasRecorder := false;
    }

    /** The command the button offers now. */
    function Offered(): (c: Command)
      reads this
      ensures c == Start ==> recordedChunks == [] && !capturing
      ensures c == Stop ==> recordedChunks == [] && capturing
      ensures c == Save <==> recordedChunks != []
    {
      RecordButton(capturing, |recordedChunks| > 0)
    }

    /** `handleDataAvailable`: the recorder delivered `data`. */
    method OnData(data: Chunk)
      requires Valid()
      modifies this
      ensures Valid()
      ensures recordedChunks == DataStep(old(recordedChunks), data)
      ensures capturing == old(capturing) && hasRecorder == old(hasRecorder)
    {
      if data.Size() > 0 {
        recordedChunks := recordedChunks + [data];
      }
    }

    /** `handleStartCaptureClick` as written: the flag is set first, then a
        recorder is built on the webcam's stream. Without a stream the
        constructor throws, so the flag stays set while the recorder reference
        keeps whatever it held before (null before the first start). */
    method StartCaptureAsWritten(streamAvailable: bool)
      modifies this
      ensures capturing
      ensures hasRecorder == (old(hasRecorder) || streamAvailable)
      ensures recordedChunks == old(recordedChunks)
    {
      capturing := true;
      if streamAvailable {
        hasRecorder := true;
      }
    }

    /** `handleStartCaptureClick` as intended: with a stream, set the flag and
        start a fresh recorder whose data events are delivered to `OnData`;
        without one, change nothing. */
    method StartCapture(streamAvailable: bool) returns (ok: bool)
      requires Valid()
      modifies this
      ensures Valid()
      ensures ok == streamAvailable
      ensures ok ==> capturing && hasRecorder
      ensures !ok ==> capturing == old(capturing) && hasRecorder == old(hasRecorder)
      ensures recordedChunks == old(recordedChunks)
    {
      ok := streamAvailable;
      if ok {
        capturing := true;
        hasRecorder := true;
      }
    }

    /** `handleStopCaptureClick`: stops the recorder, then clears the flag.
        While the recorder reference is null the call throws and nothing
        changes; `ok` tells the two cases apart. */
    method StopCapture() returns (ok: bool)
      modifies this
      ensures old(Valid()) ==> Valid()
      ensures ok == old(hasRecorder)
      ensures capturing == (if ok then false else old(capturing))
      ensures recordedChunks == old(recordedChunks) && hasRecorder == old(hasRecorder)
    {
      ok := hasRecorder;
      if ok {
        capturing := false;
      }
    }

    /** `handleDownload`: with no chunks nothing happens; otherwise the chunks
        become one artifact, in order, under the fixed file name, and the list
        is emptied. */
    method Download() returns (artifact: Option<Artifact>)
      modifies this
      ensures old(Valid()) ==> Valid()
      ensures old(recordedChunks) == [] ==> artifact == None && recordedChunks == []
      ensures old(recordedChunks) != [] ==>
                artifact == Some(Artifact(FileName, MimeType, old(recordedChunks)))
                && recordedChunks == []
      ensures capturing == old(capturing) && hasRecorder == old(hasRecorder)
    {
      if |recordedChunks| > 0 {
        artifact := Some(Artifact(FileName, MimeType, recordedChunks));
        recordedChunks := [];
      } else {
        artifact := None;
      }
    }

    /** A click on the button as written: runs the command it offers, with
        start as written. A download yields the artifact; a stop succeeds
        exactly when there is a recorder; a start happens only on an empty
        list and sets the flag even without a stream. The invariant is kept
        unless a start meets neither a stream nor an earlier recorder. */
    method PressAsWritten(streamAvailable: bool) returns (artifact: Option<Artifact>, stopped: bool)
      modifies this
      ensures old(Valid()) && (streamAvailable || old(hasRecorder)) ==> Valid()
      ensures old(Offered()) == Save ==>
                artifact == Some(Artifact(FileName, MimeType, old(recordedChunks)))
                && recordedChunks == [] && !stopped
                && capturing == old(capturing) && hasRecorder == old(hasRecorder)
      ensures old(Offered()) == Stop ==>
                artifact == None && stopped == old(hasRecorder) && capturing == !stopped
                && recordedChunks == [] && hasRecorder == old(hasRecorder)
      ensures old(Offered()) == Start ==>
                artifact == None && !stopped && capturing
                && hasRecorder == (old(hasRecorder) || streamAvailable)
                && old(recordedChunks) == [] && recordedChunks == []
    {
      stopped := false;
      var c := Offered();
      match c
      case Save =>
        artifact := Download();
      case Stop =>
        stopped := StopCapture();
        artifact := None;
      case Start =>
        StartCaptureAsWritten(streamAvailable);
        artifact := None;
    }

    /** A click on the button, with the corrected start: runs the command it
        offers. Start happens only on an empty list, stopping never meets a
        missing recorder, and a download always produces an artifact. */
    method Press(streamAvailable: bool) returns (artifact: Option<Artifact>)
      requires Valid()
      modifies this
      ensures Valid()
      ensures old(Offered()) == Save ==>
                artifact == Some(Artifact(FileName, MimeType, old(recordedChunks)))
                && recordedChunks == [] && capturing == old(capturing)
      ensures old(Offered()) == Stop ==>
                artifact == None && !capturing && recordedChunks == []
      ensures old(Offered()) == Start ==>
                artifact == None && capturing == streamAvailable
                && old(recordedChunks) == [] && recordedChunks == []
    {
      var c := Offered();
      match c
      case Save =>
        artifact := Download();
      case Stop =>
        var ok := StopCapture();
        assert ok;
        artifact := None;
      case Start =>
        var _ := StartCapture(streamAvailable);
        artifact := None;
    }
  }

  /** A first click on start without a camera stream, as written, strands
      the session: the button then offers stop, the next click's stop finds no
      recorder, so the flag stays set and the button keeps offering stop. */
  method FailedFirstStartStrands() returns (offered: Command, stopped: bool, stillOffered: Command)
    ensures offered == Stop && !stopped && stillOffered == Stop
  {
    var session := new Session();
    var artifact, _ := session.PressAsWritten(false);
    offered := session.Offered();
    artifact, stopped := session.PressAsWritten(false);
    stillOffered := session.Offered();
  }

  /** The scenario of a recording with one empty delivery: "a", then an empty
      chunk, then "b" after the stop; the list holds "a" and "b". */
  lemma EmptyDeliveryDropped(a: Chunk, b: Chunk)
    requires a.Size() > 0 && b.Size() > 0
    ensures DataSteps([], [a, Chunk([]), b]) == [a, b]
  {
    var events := [a, Chunk([]), b];
    DataStepsAppendRetained([], events);
    assert events[1..] == [Chunk([]), b] && [Chunk([]), b][1..] == [b];
    assert Retained([b]) == [b] by {
      assert [b][1..] == [];
    }
    assert Retained([Chunk([]), b]) == [b];
  }
}
