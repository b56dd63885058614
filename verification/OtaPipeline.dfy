// The whole update as values: two HTTP downloads, cut anywhere, and the loop that ends in applying the image.
module OtaPipeline {
  import opened Bytes
  import opened Flash
  import opened OtaService
  import opened OtaRuns
  import opened OtaFlow
  import opened HttpDownload

  // What the main loop and the network do: a turn of the loop, or something on the open connection.
  datatype Net = Tick | Arrival(p: Received)

  // The service, and whether the open connection is past its header.
  datatype Device = Device(s: System, headersDone: bool)

  // After the first turn of the loop, which calls start.
  function AtStart(): (d: Device)
    ensures Inv(d.s)
  {
    StepKeepsInv(INITIAL, StartCalled);
    Device(Step(INITIAL, StartCalled), false)
  }

  predicate IsOpen(s: System) {
    s.manifestOpen || s.firmwareOpen
  }

  // Without an open connection nothing can arrive.
  function Handle(d: Device, item: Net): Device
    requires |d.s.m.partial| < MANIFEST_SIZE
  {
    match item
    case Tick => Device(Step(d.s, PollCalled), d.headersDone && !OpensFirmware(d.s.m))
    case Arrival(p) =>
      if !IsOpen(d.s) then d
      else if p.Segment? then
        var (h, chunk) := Strip(d.headersDone, p.bytes);
        Device(if chunk == [] then d.s else Step(d.s, DataEvent(d.s, chunk)), h)
      else d.(s := Step(d.s, EndEvent(d.s, p.Closed?)))
  }

  // The callbacks belong to the connection that is open.
  function DataEvent(s: System, chunk: seq<byte>): Event {
    if s.firmwareOpen then FirmwareData(chunk) else ManifestData(chunk)
  }

  function EndEvent(s: System, ok: bool): Event {
    if s.firmwareOpen then FirmwareEnded(ok) else ManifestEnded(ok)
  }

  lemma HandleKeepsInv(d: Device, item: Net)
    requires Inv(d.s)
    ensures |d.s.m.partial| < MANIFEST_SIZE && Inv(Handle(d, item).s)
  {
    hide Inv, Strip, Step;
    InvPartial(d.s);
    match item
    case Tick => StepKeepsInv(d.s, PollCalled);
    case Arrival(p) =>
      if p.Segment? {
        StepKeepsInv(d.s, DataEvent(d.s, Strip(d.headersDone, p.bytes).1));
      } else {
        StepKeepsInv(d.s, EndEvent(d.s, p.Closed?));
      }
  }

  lemma InvPartial(s: System)
    requires Inv(s)
    ensures |s.m.partial| < MANIFEST_SIZE
  {
  }

  function After(d: Device, net: seq<Net>): (e: Device)
    requires Inv(d.s)
    ensures Inv(e.s)
    decreases net
  {
    if net == [] then d
    else HandleKeepsInv(d, net[0]); After(Handle(d, net[0]), net[1..])
  }

  // The state in which the loop applies the image, if it comes to that; the device resets then.
  function Applies(d: Device, net: seq<Net>): (r: Option<System>)
    requires Inv(d.s)
    ensures r.Some? ==> Inv(r.value) && ResultOf(r.value.m) == ReadyToApply
    decreases net
  {
    if net == [] then None
    else
      HandleKeepsInv(d, net[0]);
      var e := Handle(d, net[0]);
      if net[0].Tick? && ResultOf(e.s.m) == ReadyToApply then Some(e.s) else Applies(e, net[1..])
  }

  lemma {:induction false} AppliesLater(d: Device, net: seq<Net>, tail: seq<Net>)
    requires Inv(d.s) && Applies(d, net) == None
    ensures Applies(d, net + tail) == Applies(After(d, net), tail)
    decreases net
  {
    hide Inv, Handle, ResultOf;
    if net == [] {
      assert net + tail == tail;
    } else {
      HandleKeepsInv(d, net[0]);
      assert (net + tail)[1..] == net[1..] + tail;
      AppliesLater(Handle(d, net[0]), net[1..], tail);
    }
  }

  lemma {:induction false} AfterLater(d: Device, net: seq<Net>, tail: seq<Net>)
    requires Inv(d.s)
    ensures After(d, net + tail) == After(After(d, net), tail)
    decreases net
  {
    hide Inv, Handle;
    if net == [] {
      assert net + tail == tail;
    } else {
      HandleKeepsInv(d, net[0]);
      assert (net + tail)[1..] == net[1..] + tail;
      AfterLater(Handle(d, net[0]), net[1..], tail);
    }
  }

  // Whatever the network does, an image is only applied that starts with the received bytes, continued
  // by 0xFF if they are short, and they reach the announced size once rounded up to whole pages.
  lemma AppliesReceived(net: seq<Net>)
    ensures var a := Applies(AtStart(), net);
            a.Some? ==>
              var s, size := a.value, a.value.m.firmwareSize;
              && size <= |s.m.image| && size <= RoundUp(|s.received|, PAGE_SIZE)
              && s.m.image[..size] == (s.received + Ones(PAGE_SIZE))[..size]
  {
    var a := Applies(AtStart(), net);
    if a.Some? {
      SuccessInState(a.value);
    }
  }

  // ---- broken connections ----

  // In a failed service nothing moves any more, whatever the loop and the network do.
  lemma {:induction false} DeadNeverApplies(d: Device, net: seq<Net>)
    requires Inv(d.s) && d.s.m.phase == Done && !d.s.m.success
    ensures Applies(d, net) == None && After(d, net).s == d.s
    decreases net
  {
    hide Strip, Pad;
    if net != [] {
      HandleKeepsInv(d, net[0]);
      DeadNeverApplies(Handle(d, net[0]), net[1..]);
    }
  }

  // Whichever connection breaks, and however much it has brought: the service has failed, its image is
  // left as it is, no further download opens, and nothing is ever applied.
  lemma BrokenNeverApplies(d: Device, tail: seq<Net>)
    requires Inv(d.s) && IsOpen(d.s)
    ensures var e := Handle(d, Arrival(Received.Failed));
            && Inv(e.s) && e.s.m.phase == Done && !e.s.m.success && e.s.m.image == d.s.m.image
            && Applies(e, tail) == None
            && After(e, tail).s.downloads == d.s.downloads && !IsOpen(After(e, tail).s)
  {
    hide Pad, Tracks;
    HandleKeepsInv(d, Arrival(Received.Failed));
    DeadNeverApplies(Handle(d, Arrival(Received.Failed)), tail);
  }

  // A manifest connection that breaks: the firmware is never asked for.
  lemma BrokenManifest(d: Device, tail: seq<Net>)
    requires Inv(d.s) && d.s.manifestOpen
    ensures Inv(Handle(d, Arrival(Received.Failed)).s)
    ensures After(Handle(d, Arrival(Received.Failed)), tail).s.downloads == 0
  {
    hide Pad, Tracks;
    BrokenNeverApplies(d, tail);
  }

  // The whole run: up to a break the loop has not applied anything, and it never will.
  lemma BrokenUpdate(net: seq<Net>, tail: seq<Net>)
    requires Applies(AtStart(), net) == None && IsOpen(After(AtStart(), net).s)
    ensures Applies(AtStart(), net + ([Arrival(Received.Failed)] + tail)) == None
  {
    hide Inv, Handle;
    var d := After(AtStart(), net);
    AppliesLater(AtStart(), net, [Arrival(Received.Failed)] + tail);
    BrokenNeverApplies(d, tail);
    assert ([Arrival(Received.Failed)] + tail)[1..] == tail;
  }

  // ---- responses ----

  ghost predicate Flowing(net: seq<Net>) {
    forall item | item in net :: item.Tick? || item.p.Segment?
  }

  function SegmentsOf(net: seq<Net>): seq<seq<byte>> {
    if net == [] then []
    else if net[0].Arrival? && net[0].p.Segment? then [net[0].p.bytes] + SegmentsOf(net[1..])
    else SegmentsOf(net[1..])
  }

  // An HTTP response as the network delivers it: a header whose end the receive path can see, then the
  // body, with turns of the loop anywhere in between.
  ghost predicate Response(net: seq<Net>, t: nat, body: seq<byte>) {
    var segments := SegmentsOf(net);
    && Flowing(net)
    && FirstTerminator(Flatten(segments), t)
    && SeenWhole(segments, t)
    && Flatten(segments)[t + 4..] == body
  }

  lemma ResponseDelivered(net: seq<Net>, t: nat, body: seq<byte>)
    requires Response(net, t, body)
    ensures Flowing(net) && Deliver(false, SegmentsOf(net)) == body
  {
    hide Deliver, SegmentsOf;
    HeaderStripped(SegmentsOf(net), t);
  }

  // ---- the manifest ----

  // What the device makes of a manifest body of less than two manifests: nothing of a short one,
  // its first forty bytes of any other.
  function Announcement(body: seq<byte>): Manifest {
    if |body| < MANIFEST_SIZE then Manifest([], 0, 0) else ParseManifest(body[..MANIFEST_SIZE])
  }

  // The state of a manifest download of which `got` has arrived.
  ghost predicate ManifestSoFar(s: System, got: seq<byte>) {
    && Inv(s) && s.manifestOpen && s.m.phase == DownloadManifest && |got| < 2 * MANIFEST_SIZE
    && (if |got| < MANIFEST_SIZE then s.m.partial == got else |s.m.partial| <= |got| - MANIFEST_SIZE)
    && s.m.manifest == Announcement(got) && s.m.firmwareSize == Announcement(got).size as nat
  }

  lemma ManifestStep(s: System, got: seq<byte>, chunk: seq<byte>)
    requires ManifestSoFar(s, got) && |got + chunk| < 2 * MANIFEST_SIZE && chunk != []
    ensures ManifestSoFar(Step(s, ManifestData(chunk)), got + chunk)
  {
    hide ParseManifest, Tracks, Pad;
    StepKeepsInv(s, ManifestData(chunk));
    if |got + chunk| < MANIFEST_SIZE {
      assert chunk[..|chunk|] == chunk;
    } else if |got| < MANIFEST_SIZE {
      assert got + chunk[..MANIFEST_SIZE - |got|] == (got + chunk)[..MANIFEST_SIZE];
    } else {
      assert (got + chunk)[..MANIFEST_SIZE] == got[..MANIFEST_SIZE];
    }
  }

  // From two manifests on it depends on the cut: in one chunk the first forty bytes count, cut behind
  // them the next forty.
  lemma LongManifest(m: Model, body: seq<byte>)
    requires m.partial == [] && |body| >= 2 * MANIFEST_SIZE
    ensures ManifestChunk(m, body).manifest == ParseManifest(body[..MANIFEST_SIZE])
    ensures ManifestChunk(ManifestChunk(m, body[..MANIFEST_SIZE]), body[MANIFEST_SIZE..]).manifest ==
            ParseManifest(body[MANIFEST_SIZE..2 * MANIFEST_SIZE])
  {
    hide ParseManifest;
    var first, rest := body[..MANIFEST_SIZE], body[MANIFEST_SIZE..];
    assert [] + first == first && first[..MANIFEST_SIZE] == first;
    assert [] + rest[..MANIFEST_SIZE] == rest[..MANIFEST_SIZE] == body[MANIFEST_SIZE..2 * MANIFEST_SIZE];
  }

  // A manifest body of less than two manifests is taken the same way however it is cut, with turns of the
  // loop in between.
  lemma {:induction false} ManifestInAnyChunking(d: Device, got: seq<byte>, net: seq<Net>)
    requires ManifestSoFar(d.s, got) && Flowing(net)
    requires |got| + |Deliver(d.headersDone, SegmentsOf(net))| < 2 * MANIFEST_SIZE
    ensures ManifestSoFar(After(d, net).s, got + Deliver(d.headersDone, SegmentsOf(net)))
    ensures Applies(d, net) == None
    decreases net
  {
    hide ParseManifest, Tracks, Pad, Strip;
    if net == [] {
      assert got + [] == got;
    } else {
      var e := Handle(d, net[0]);
      HandleKeepsInv(d, net[0]);
      match net[0]
      case Tick =>
        assert e == d;
        ManifestInAnyChunking(d, got, net[1..]);
      case Arrival(p) =>
        var (h, chunk) := Strip(d.headersDone, p.bytes);
        assert SegmentsOf(net)[1..] == SegmentsOf(net[1..]);
        assert (got + chunk) + Deliver(h, SegmentsOf(net[1..])) == got + Deliver(d.headersDone, SegmentsOf(net));
        if chunk != [] {
          ManifestStep(d.s, got, chunk);
        } else {
          assert got + chunk == got;
        }
        ManifestInAnyChunking(e, got + chunk, net[1..]);
    }
  }

  // About to receive the firmware this manifest announces.
  ghost predicate Announced(d: Device, block: seq<byte>) {
    && Receiving(d) && !d.headersDone && d.s.received == []
    && d.s.m.manifest == Announcement(block) && d.s.m.firmwareSize == Announcement(block).size as nat
  }

  // After the manifest response, its close, and a turn of the loop: the firmware connection is open.
  lemma ManifestPhase(net: seq<Net>, t: nat, block: seq<byte>)
    requires Response(net, t, block) && |block| < 2 * MANIFEST_SIZE
    ensures var all := net + [Arrival(Closed), Tick];
            Applies(AtStart(), all) == None && Announced(After(AtStart(), all), block)
  {
    hide ParseManifest, Pad, Strip, Deliver, Response;
    StepKeepsInv(INITIAL, StartCalled);
    ResponseDelivered(net, t, block);
    assert [] + block == block;
    ManifestInAnyChunking(AtStart(), [], net);
    var d := After(AtStart(), net);
    AppliesLater(AtStart(), net, [Arrival(Closed), Tick]);
    AfterLater(AtStart(), net, [Arrival(Closed), Tick]);
    ManifestClosed(d, block);
  }

  lemma ManifestClosed(d: Device, block: seq<byte>)
    requires ManifestSoFar(d.s, block)
    ensures Applies(d, [Arrival(Closed), Tick]) == None && Announced(After(d, [Arrival(Closed), Tick]), block)
  {
    hide Announcement, Pad, Tracks;
    var e := Handle(d, Arrival(Closed));
    HandleKeepsInv(d, Arrival(Closed));
    HandleKeepsInv(e, Tick);
    assert [Arrival(Closed), Tick][1..] == [Tick];
    assert [Tick][1..] == [];
    assert After(d, [Arrival(Closed), Tick]) == Handle(e, Tick);
  }

  // ---- the firmware ----

  // A firmware download that the loop has not answered yet.
  ghost predicate Receiving(d: Device) {
    && Inv(d.s) && d.s.firmwareOpen && d.s.m.phase != Done
    && (d.s.received == [] ==> d.s.m.phase == DownloadFirmware)
  }

  // The server closes the connection or leaves it open, and the loop takes another turn.
  function Ending(closed: bool): seq<Net> {
    if closed then [Arrival(Closed), Tick] else [Tick]
  }

  // What it takes for a body to be applied.
  predicate Enough(body: seq<byte>, size: nat, closed: bool) {
    if closed then RoundUp(|body|, 256) >= size else |body| >= size && body != []
  }

  ghost predicate Holds(a: System, s: System, body: seq<byte>) {
    var size := s.m.firmwareSize;
    && a.m.firmwareSize == size <= |a.m.image| && a.m.manifest == s.m.manifest
    && size <= |body| + PAGE_SIZE && a.m.image[..size] == (body + Ones(PAGE_SIZE))[..size]
  }

  lemma ReceivedPrefix(received: seq<byte>, rest: seq<byte>, size: nat)
    requires |received| >= size
    ensures received[..size] == ((received + rest) + Ones(PAGE_SIZE))[..size]
  {
  }

  lemma TickVerdict(d: Device, rest: seq<byte>)
    requires Receiving(d)
    ensures var e := Handle(d, Tick);
            && (ResultOf(e.s.m) == ReadyToApply ==>
                  |d.s.received| >= d.s.m.firmwareSize && d.s.received != [] && Holds(e.s, d.s, d.s.received + rest))
            && (ResultOf(e.s.m) != ReadyToApply ==>
                  e == d && (|d.s.received| < d.s.m.firmwareSize || d.s.received == []))
  {
    hide Pad;
    if |d.s.received| >= d.s.m.firmwareSize {
      ReceivedPrefix(d.s.received, rest, d.s.m.firmwareSize);
    }
  }

  lemma CloseVerdict(d: Device)
    requires Receiving(d)
    ensures var e := Handle(Handle(d, Arrival(Closed)), Tick);
            && (ResultOf(e.s.m) == ReadyToApply <==> Enough(d.s.received, d.s.m.firmwareSize, true))
            && (ResultOf(e.s.m) == ReadyToApply ==> Holds(e.s, d.s, d.s.received))
  {
    hide Tracks, Pad, RoundUp;
    var c := Handle(d, Arrival(Closed));
    var e := Handle(c, Tick);
    HandleKeepsInv(d, Arrival(Closed));
    HandleKeepsInv(c, Tick);
    VerdictIsLength(d.s);
    SuccessInState(e.s);
    PageRound(|d.s.received|);
  }

  lemma SegmentStep(d: Device, bytes: seq<byte>)
    requires Receiving(d)
    ensures var e := Handle(d, Arrival(Segment(bytes)));
            var (h, chunk) := Strip(d.headersDone, bytes);
            && Receiving(e) && e.headersDone == h && e.s.received == d.s.received + chunk
            && e.s.m.firmwareSize == d.s.m.firmwareSize && e.s.m.manifest == d.s.m.manifest
  {
    hide Strip, Tracks, Pad;
    HandleKeepsInv(d, Arrival(Segment(bytes)));
  }

  // A firmware response, cut anywhere, with turns of the loop in between, closed or not: the image is
  // applied if and only if the body is long enough, and starts with the body.
  lemma {:induction false} FirmwareVerdict(d: Device, net: seq<Net>, closed: bool)
    requires Receiving(d) && Flowing(net)
    ensures var body := d.s.received + Deliver(d.headersDone, SegmentsOf(net));
            var a := Applies(d, net + Ending(closed));
            && (a.Some? <==> Enough(body, d.s.m.firmwareSize, closed))
            && (a.Some? ==> Holds(a.value, d.s, body))
    decreases net
  {
    hide Strip, Inv, Handle, Receiving, Holds, Enough, ResultOf, Deliver;
    if net == [] {
      assert net + Ending(closed) == Ending(closed);
      EndingVerdict(d, closed);
      NothingDelivered(d);
    } else {
      var rest := Deliver(d.headersDone, SegmentsOf(net));
      InvOf(d);
      HandleKeepsInv(d, net[0]);
      var e := Handle(d, net[0]);
      assert (net + Ending(closed))[1..] == net[1..] + Ending(closed);
      match net[0]
      case Tick =>
        TickVerdict(d, rest);
        LongEnough(d.s.received, rest, d.s.m.firmwareSize, closed);
        if ResultOf(e.s.m) != ReadyToApply {
          FirmwareVerdict(d, net[1..], closed);
        }
      case Arrival(p) =>
        SegmentStep(d, p.bytes);
        FirmwareVerdict(e, net[1..], closed);
        DeliverFirst(d.headersDone, net, d.s.received);
        SameHolds(e.s, d.s);
    }
  }

  lemma InvOf(d: Device)
    requires Receiving(d)
    ensures Inv(d.s)
  {
  }

  lemma NothingDelivered(d: Device)
    ensures d.s.received + Deliver(d.headersDone, SegmentsOf([])) == d.s.received
  {
  }

  lemma LongEnough(received: seq<byte>, rest: seq<byte>, size: nat, closed: bool)
    ensures |received| >= size && received != [] ==> Enough(received + rest, size, closed)
  {
    PageRound(|received + rest|);
  }

  lemma DeliverFirst(headersDone: bool, net: seq<Net>, received: seq<byte>)
    requires net != [] && net[0].Arrival? && net[0].p.Segment?
    ensures var (h, chunk) := Strip(headersDone, net[0].p.bytes);
            received + Deliver(headersDone, SegmentsOf(net)) == (received + chunk) + Deliver(h, SegmentsOf(net[1..]))
  {
    hide Strip;
    assert SegmentsOf(net)[1..] == SegmentsOf(net[1..]);
  }

  lemma SameHolds(e: System, d: System)
    requires e.m.firmwareSize == d.m.firmwareSize && e.m.manifest == d.m.manifest
    ensures forall a: System, body: seq<byte> :: Holds(a, e, body) <==> Holds(a, d, body)
  {
  }

  lemma EndingVerdict(d: Device, closed: bool)
    requires Receiving(d)
    ensures var a := Applies(d, Ending(closed));
            && (a.Some? <==> Enough(d.s.received, d.s.m.firmwareSize, closed))
            && (a.Some? ==> Holds(a.value, d.s, d.s.received))
  {
    hide Strip, Inv, Handle, Receiving, Holds, ResultOf;
    InvOf(d);
    assert [Tick][1..] == [];
    if closed {
      var c := Handle(d, Arrival(Closed));
      HandleKeepsInv(d, Arrival(Closed));
      HandleKeepsInv(c, Tick);
      assert [Arrival(Closed), Tick][1..] == [Tick];
      CloseVerdict(d);
    } else {
      HandleKeepsInv(d, Tick);
      TickVerdict(d, []);
      assert d.s.received + [] == d.s.received;
    }
  }

  // ---- end to end ----

  // Two responses in turn, the first one closed by the server.
  function Update(manifestNet: seq<Net>, firmwareNet: seq<Net>, closed: bool): seq<Net> {
    (manifestNet + [Arrival(Closed), Tick]) + (firmwareNet + Ending(closed))
  }

  // For every manifest body of less than 80 bytes and every firmware body, however both responses are cut
  // and interleaved with the loop: the loop applies the image if and only if the body is long enough for
  // the announced size, and it starts with the body. A manifest that is too short announces no byte.
  lemma UpdateVerdict(
    manifestNet: seq<Net>, tm: nat, block: seq<byte>, firmwareNet: seq<Net>, tf: nat, body: seq<byte>, closed: bool)
    requires Response(manifestNet, tm, block) && |block| < 2 * MANIFEST_SIZE
    requires Response(firmwareNet, tf, body)
    ensures var a := Applies(AtStart(), Update(manifestNet, firmwareNet, closed));
            var size := Announcement(block).size as nat;
            && (a.Some? <==> Enough(body, size, closed))
            && (a.Some? ==>
                  && a.value.m.manifest == Announcement(block) && a.value.m.firmwareSize == size <= |a.value.m.image|
                  && size <= |body| + PAGE_SIZE && a.value.m.image[..size] == (body + Ones(PAGE_SIZE))[..size])
  {
    hide Response, Deliver, SegmentsOf, Announcement, Enough, Inv;
    var first := manifestNet + [Arrival(Closed), Tick];
    ManifestPhase(manifestNet, tm, block);
    AppliesLater(AtStart(), first, firmwareNet + Ending(closed));
    ResponseDelivered(firmwareNet, tf, body);
    var d := After(AtStart(), first);
    FirmwareVerdict(d, firmwareNet, closed);
    assert d.s.received + body == body;
  }
}
