// The update service under every order of calls and callbacks.
module OtaRuns {
  import opened Bytes
  import opened Flash
  import opened OtaService

  datatype Event =
    | StartCalled
    | PollCalled
    | ManifestData(data: seq<byte>)
    | ManifestEnded(ok: bool)
    | FirmwareData(data: seq<byte>)
    | FirmwareEnded(ok: bool)

  // The service with its connections. A connection calls back only between the request that opens
  // it and its own end; `received` and `downloads` count what the firmware connections brought.
  datatype System = System(m: Model, manifestOpen: bool, firmwareOpen: bool, received: seq<byte>, downloads: nat)

  const INITIAL: System := System(Model(Idle, [], 0, false, false, [], Manifest([], 0, 0)), false, false, [], 0)

  // An event of a connection that is not open cannot happen and changes nothing.
  function Step(s: System, e: Event): System
    requires |s.m.partial| < MANIFEST_SIZE
  {
    match e
    case StartCalled => s.(m := Started(s.m), manifestOpen := s.manifestOpen || s.m.phase == Idle)
    case PollCalled =>
      if OpensFirmware(s.m)
      then System(Polled(s.m), false, true, [], s.downloads + 1)
      else s.(m := Polled(s.m))
    case ManifestData(data) => if s.manifestOpen then s.(m := ManifestChunk(s.m, data)) else s
    case ManifestEnded(ok) => if s.manifestOpen then s.(m := ManifestDone(s.m, ok), manifestOpen := false) else s
    case FirmwareData(data) =>
      if s.firmwareOpen then s.(m := FirmwareChunk(s.m, data), received := s.received + data) else s
    case FirmwareEnded(ok) => if s.firmwareOpen then s.(m := FirmwareDone(s.m, ok), firmwareOpen := false) else s
  }

  // What has reached the page writer, against what has been received.
  ghost predicate Tracks(s: System) {
    var image, received, size := s.m.image, s.received, s.m.firmwareSize;
    && (|received| >= size ==> |image| >= size && image[..size] == received[..size])
    && (|received| < size && s.firmwareOpen ==> image == received && s.m.phase == DownloadFirmware)
    && (|received| < size && !s.firmwareOpen ==>
          || (image == received && s.m.phase == Done && !s.m.success)
          || (image == Pad(received) && s.m.phase in {Verify, Done}))
    && (|received| >= size && received != [] ==> s.m.phase in {Verify, Done})
    && (!s.firmwareOpen ==> s.m.phase in {Verify, Done})
    && (s.m.phase == Verify ==> |image| % PAGE_SIZE == 0)
    && (s.m.success ==> Floor(|image|) >= size)
    && (s.firmwareOpen && s.m.phase == Done ==> s.m.success)
  }

  ghost predicate Inv(s: System) {
    && |s.m.partial| < MANIFEST_SIZE
    && s.downloads == (if s.m.downloading then 1 else 0)
    && (s.firmwareOpen ==> s.m.downloading)
    && (s.m.downloading ==> s.m.phase in {DownloadFirmware, Verify, Done} && Tracks(s))
    && (s.m.phase == Idle ==> !s.manifestOpen)
    && (s.manifestOpen ==> s.m.phase == DownloadManifest)
    && (s.m.phase == DownloadManifest ==> !s.m.downloading)
    && (!s.m.downloading ==> s.m.image == [] && s.received == [] && !s.m.success && s.m.phase != Verify)
  }

  function Rank(p: Phase): nat {
    match p
    case Idle => 0
    case DownloadManifest => 1
    case DownloadFirmware => 2
    case Verify => 3
    case Done => 3
  }

  lemma ChunkKeepsTrack(s: System, data: seq<byte>)
    requires Inv(s) && s.firmwareOpen
    ensures Tracks(Step(s, FirmwareData(data)))
  {
    var t := Step(s, FirmwareData(data));
    var size := s.m.firmwareSize;
    var longer := s.m.image + data;
    assert |t.received| >= size ==> longer[..Min(size, |longer|)] == t.received[..Min(size, |longer|)] by {
      if |s.received| >= size {
        assert longer[..size] == s.m.image[..size] == s.received[..size] == t.received[..size];
      }
    }
    assert longer <= Pad(longer);
  }

  lemma EndKeepsTrack(s: System, ok: bool)
    requires Inv(s) && s.firmwareOpen
    ensures Tracks(Step(s, FirmwareEnded(ok)))
  {
    hide Pad;
    if ok && |s.received| >= s.m.firmwareSize {
      var size := s.m.firmwareSize;
      assert s.m.image <= Pad(s.m.image);
      assert Pad(s.m.image)[..size] == s.m.image[..size];
    }
  }

  // Every event keeps the invariant, and the rank of the state never falls.
  lemma StepKeepsInv(s: System, e: Event)
    requires Inv(s)
    ensures Inv(Step(s, e))
    ensures Rank(Step(s, e).m.phase) >= Rank(s.m.phase)
    ensures Step(s, e).downloads >= s.downloads
  {
    hide Pad, ParseManifest;
    match e {
      case FirmwareData(data) =>
        if s.firmwareOpen {
          ChunkKeepsTrack(s, data);
        }
      case FirmwareEnded(ok) =>
        if s.firmwareOpen {
          EndKeepsTrack(s, ok);
        }
      case PollCalled =>
      case _ =>
    }
  }

  function Run(s: System, events: seq<Event>): (t: System)
    requires Inv(s)
    ensures Inv(t)
    decreases events
  {
    if events == [] then s
    else StepKeepsInv(s, events[0]); Run(Step(s, events[0]), events[1..])
  }

  // Over every run: the rank never falls and the firmware download starts at most once.
  lemma {:induction false} RankNeverFalls(s: System, events: seq<Event>)
    requires Inv(s)
    ensures Rank(Run(s, events).m.phase) >= Rank(s.m.phase)
    ensures s.downloads <= Run(s, events).downloads <= 1
    decreases events
  {
    if events != [] {
      StepKeepsInv(s, events[0]);
      RankNeverFalls(Step(s, events[0]), events[1..]);
    }
  }

  // Whenever the service reports success, the received bytes rounded up to whole pages reach the
  // announced size, and the image starts with the received bytes, continued by 0xFF if they are short.
  lemma SuccessMeansImage(events: seq<Event>)
    ensures var s := Run(INITIAL, events);
            s.m.success ==>
              && RoundUp(|s.received|, 256) >= s.m.firmwareSize
              && Floor(|s.m.image|) >= s.m.firmwareSize
              && s.m.image[..s.m.firmwareSize] == (s.received + Ones(PAGE_SIZE))[..s.m.firmwareSize]
  {
    var s := Run(INITIAL, events);
    SuccessInState(s);
  }

  lemma SuccessInState(s: System)
    requires Inv(s)
    ensures s.m.success ==>
              && RoundUp(|s.received|, 256) >= s.m.firmwareSize
              && Floor(|s.m.image|) >= s.m.firmwareSize
              && s.m.image[..s.m.firmwareSize] == (s.received + Ones(PAGE_SIZE))[..s.m.firmwareSize]
  {
    var size := s.m.firmwareSize;
    PageRound(|s.received|);
    if s.m.success {
      if |s.received| >= size {
        assert (s.received + Ones(PAGE_SIZE))[..size] == s.received[..size];
      } else {
        assert s.m.image == Pad(s.received);
        assert Pad(s.received)[..size] == (s.received + Ones(PAGE_SIZE))[..size];
      }
    }
  }

  // A download that the server ended normally is accepted exactly when its length, rounded up to
  // whole pages, reaches the announced size: the checksum plays no part.
  lemma VerdictIsLength(s: System)
    requires Inv(s) && s.firmwareOpen
    ensures var t := Step(Step(s, FirmwareEnded(true)), PollCalled);
            && t.m.phase == Done
            && (t.m.success <==> RoundUp(|s.received|, 256) >= s.m.firmwareSize)
  {
    EndKeepsTrack(s, true);
    PageRound(|s.received|);
    PageRound(|s.m.image|);
  }

  // Once an update has begun, another start is without effect.
  lemma StartOnlyFromIdle(s: System)
    requires Inv(s) && s.m.phase != Idle
    ensures Step(s, StartCalled) == s
  {
  }

  // After a failure start, poll and callbacks are without effect for ever: the retry around them
  // never starts another download.
  lemma {:induction false} FailureIsFinal(s: System, events: seq<Event>)
    requires Inv(s) && s.m.phase == Done && !s.m.success
    ensures Run(s, events) == s
    decreases events
  {
    if events != [] {
      FailureIsFinal(s, events[1..]);
    }
  }

  // ---- runs of one firmware connection ----

  ghost predicate FirmwareTraffic(events: seq<Event>) {
    forall e | e in events :: e.PollCalled? || e.FirmwareData?
  }

  function DataOf(events: seq<Event>): seq<byte> {
    if events == [] then []
    else (if events[0].FirmwareData? then events[0].data else []) + DataOf(events[1..])
  }

  // Of a body of exactly the announced size, neither the cut into chunks nor the polls in between
  // leave a trace in the image: it is the body, padded to whole pages.
  lemma {:induction false} ChunkingLeavesNoTrace(s: System, events: seq<Event>)
    requires Inv(s) && s.firmwareOpen && FirmwareTraffic(events)
    requires s.m.image == (if |s.received| < s.m.firmwareSize then s.received else Pad(s.received))
    requires |s.received| + |DataOf(events)| == s.m.firmwareSize
    ensures Run(s, events).m.image == Pad(s.received + DataOf(events))
    decreases events
  {
    if events == [] {
      assert s.received + [] == s.received;
    } else {
      var t := Step(s, events[0]);
      StepKeepsInv(s, events[0]);
      if |s.received| == s.m.firmwareSize {
        assert s.m.image + [] == s.m.image;
        PadTwice(s.received);
      }
      assert s.received + DataOf(events) == t.received + DataOf(events[1..]);
      ChunkingLeavesNoTrace(t, events[1..]);
    }
  }

  lemma PadTwice(image: seq<byte>)
    ensures Pad(Pad(image)) == Pad(image)
  {
    PageRound(|image|);
    PageRound(|Pad(image)|);
  }
}
