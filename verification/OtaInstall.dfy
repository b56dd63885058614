// The whole update on the objects: connections, service, writer and chip under the loop of ota_setup.
module OtaInstall {
  import opened Bytes
  import opened Search
  import opened Crc32
  import opened Flash
  import opened FlashWriter
  import opened OtaService
  import opened OtaRuns
  import opened HttpDownload
  import opened OtaPipeline
  import opened ApplyUpdate
  import opened OtaFlow
  import opened ManifestTool
  import opened FlashLayout
  import ConfigRuns

  // An upper bound on what the traffic adds to the image: its bytes, and padding at every arrival.
  function Volume(net: seq<Net>): nat {
    if net == [] then 0 else VolumeOf(net[0]) + Volume(net[1..])
  }

  function VolumeOf(item: Net): nat {
    match item
    case Tick => 0
    case Arrival(p) => PAGE_SIZE + (if p.Segment? then |p.bytes| else 0)
  }

  lemma ChunkFits(headersDone: bool, segment: seq<byte>)
    ensures |Strip(headersDone, segment).1| <= |segment|
  {
    hide HeaderEnd;
  }

  // The onChunk closure of the open connection.
  method HandOn(ota: Service, chunk: seq<byte>, firmware: bool, ghost s: System)
    requires ota.Valid() && Inv(s) && s.m == ota.State() && IsOpen(s) && firmware == s.firmwareOpen
    requires |ota.image| + |chunk| <= LIMIT
    modifies ota, ota.staging, ota.buffer, ota.writer, ota.writer.flash, ota.writer.flash.cells
    ensures ota.Valid() && Step(s, DataEvent(s, chunk)).m == ota.State()
    ensures |ota.image| <= |old(ota.image)| + |chunk| + PAGE_SIZE
    ensures ota.writer.flash.cells[..ota.writer.Base()] == old(ota.writer.flash.cells[..ota.writer.Base()])
  {
    hide Stored, PagesBelow, Tracks, Floor, ParseManifest;
    PageRound(|ota.image + chunk|);
    if firmware {
      ota.HandleFirmwareChunk(chunk);
    } else {
      ota.HandleManifestChunk(chunk);
    }
  }

  // The onDone closure of the open connection.
  method HandEnd(ota: Service, ok: bool, firmware: bool, ghost s: System)
    requires ota.Valid() && Inv(s) && s.m == ota.State() && IsOpen(s) && firmware == s.firmwareOpen
    modifies ota, ota.staging, ota.writer, ota.writer.flash, ota.writer.flash.cells
    ensures ota.Valid() && Step(s, EndEvent(s, ok)).m == ota.State()
    ensures |ota.image| <= |old(ota.image)| + PAGE_SIZE
    ensures ota.writer.flash.cells[..ota.writer.Base()] == old(ota.writer.flash.cells[..ota.writer.Base()])
  {
    hide Stored, PagesBelow, Tracks, Floor;
    PageRound(|ota.image|);
    if firmware {
      ota.OnFirmwareDone(ok);
    } else {
      ota.OnManifestDone(ok);
    }
  }

  // One segment, close or error of the open connection, into the service.
  method Receive(ota: Service, conn: Connection, p: Received, firmware: bool, ghost d: Device)
    requires ota.Valid() && Inv(d.s) && d.s.m == ota.State() && d.headersDone == conn.headersDone
    requires IsOpen(d.s) && firmware == d.s.firmwareOpen
    requires |ota.image| + VolumeOf(Arrival(p)) <= LIMIT
    modifies ota, conn, ota.staging, ota.buffer, ota.writer, ota.writer.flash, ota.writer.flash.cells
    ensures ota.Valid()
    ensures var e := Handle(d, Arrival(p));
            Inv(e.s) && e.s.m == ota.State() && e.headersDone == conn.headersDone
    ensures |ota.image| <= |old(ota.image)| + VolumeOf(Arrival(p))
    ensures ota.writer.flash.cells[..ota.writer.Base()] == old(ota.writer.flash.cells[..ota.writer.Base()])
  {
    hide Strip, Stored, PagesBelow, Inv, Step, DataEvent, EndEvent;
    HandleKeepsInv(d, Arrival(p));
    var chunk, done := conn.OnReceive(p);
    if |chunk| > 0 {
      ChunkFits(d.headersDone, p.bytes);
      HandOn(ota, chunk, firmware, d.s);
    }
    if done.Some? {
      HandEnd(ota, done.value, firmware, d.s);
    }
  }

  // The rest of a run after one item.
  lemma AppliesFirst(d: Device, net: seq<Net>)
    requires Inv(d.s) && net != []
    ensures var e := Handle(d, net[0]);
            && Inv(e.s)
            && Applies(d, net) ==
               if net[0].Tick? && ResultOf(e.s.m) == ReadyToApply then Some(e.s) else Applies(e, net[1..])
    ensures Volume(net) == VolumeOf(net[0]) + Volume(net[1..])
  {
    HandleKeepsInv(d, net[0]);
  }

  lemma AppliesNothing(d: Device)
    requires Inv(d.s)
    ensures Applies(d, []) == None
  {
  }

  // An arrival ends the open connection or leaves it open, and nothing arrives without one.
  lemma ArrivalLeaves(d: Device, p: Received)
    requires Inv(d.s) && d.s.m.phase != Idle
    ensures var e := Handle(d, Arrival(p));
            && IsOpen(e.s) == (IsOpen(d.s) && p.Segment?) && (p.Segment? ==> e.s.firmwareOpen == d.s.firmwareOpen)
            && e.s.m.phase != Idle && (!IsOpen(d.s) ==> e == d)
    ensures d.s.m.phase == Done && !d.s.m.success ==> !IsOpen(d.s)
  {
    hide Strip, Pad, ParseManifest;
  }

  // A turn of the loop is a poll in every state it comes to.
  lemma TurnIsPoll(d: Device, running: bool)
    requires Inv(d.s) && d.s.m.phase != Idle && (running || (d.s.m.phase == Done && !d.s.m.success))
    ensures var e := Handle(d, Tick);
            && e.s.m == (if running then Polled(d.s.m) else Started(d.s.m))
            && e.s.m.phase != Idle && e.s.m.image == d.s.m.image && e.s.m.firmwareSize == d.s.m.firmwareSize
            && (ResultOf(e.s.m).Failed? ==> e.s.m.phase == Done && !e.s.m.success)
            && (!running ==> e == d && ResultOf(e.s.m).Failed?)
    ensures d.s.m.success ==> Floor(|d.s.m.image|) >= d.s.m.firmwareSize
    ensures OpensFirmware(d.s.m) ==> Handle(d, Tick).s.firmwareOpen && !Handle(d, Tick).headersDone
    ensures !OpensFirmware(d.s.m) ==>
              && Handle(d, Tick).s.firmwareOpen == d.s.firmwareOpen
              && Handle(d, Tick).s.manifestOpen == d.s.manifestOpen
              && Handle(d, Tick).headersDone == d.headersDone
  {
    SuccessInState(d.s);
  }

  // The connection that is up, and which of the two it is.
  datatype Link = Down | Up(conn: Connection, firmware: bool)

  // The objects are in the state of the run.
  ghost predicate Linked(ota: Service, link: Link, d: Device)
    reads ota, ota.staging, ota.buffer, ota.writer, ota.writer.flash.cells, if link.Up? then {link.conn} else {}
  {
    && ota.Valid() && Inv(d.s) && d.s.m == ota.State() && d.s.m.phase != Idle
    && (link.Up? <==> IsOpen(d.s))
    && (link.Up? ==> link.firmware == d.s.firmwareOpen && link.conn.headersDone == d.headersDone)
  }

  method OnArrival(ota: Service, link: Link, p: Received, ghost d: Device) returns (next: Link)
    requires Linked(ota, link, d)
    requires |ota.image| + VolumeOf(Arrival(p)) <= LIMIT
    modifies if link.Up? then {link.conn} else {}
    modifies ota, ota.staging, ota.buffer, ota.writer, ota.writer.flash, ota.writer.flash.cells
    ensures Linked(ota, next, Handle(d, Arrival(p))) && (next == Down || next == link)
    ensures |ota.image| <= |old(ota.image)| + VolumeOf(Arrival(p))
    ensures ota.writer.flash.cells[..ota.writer.Base()] == old(ota.writer.flash.cells[..ota.writer.Base()])
    ensures d.s.m.phase == Done && !d.s.m.success ==> ota.State() == d.s.m
  {
    hide Stored, PagesBelow, Inv, Floor, Handle, VolumeOf;
    ArrivalLeaves(d, p);
    next := link;
    if link.Up? {
      Receive(ota, link.conn, p, link.firmware, d);
      if !p.Segment? {
        next := Down;
      }
    }
  }

  method OnTick(ota: Service, link: Link, running: bool, ghost d: Device)
    returns (stillRunning: bool, applied: bool, next: Link)
    requires Linked(ota, link, d) && (running || (ota.phase == Done && !ota.success))
    requires ota.writer.flash.cells.Length == TWO_MIB
    requires ResultOf(Handle(d, Tick).s.m) == ReadyToApply ==> Handle(d, Tick).s.m.firmwareSize <= OTA_OFFSET
    modifies ota, ota.writer.flash, ota.writer.flash.cells
    ensures ota.Valid() && Linked(ota, next, Handle(d, Tick)) && ota.image == old(ota.image)
    ensures next == link || (next.Up? && fresh(next.conn))
    ensures stillRunning || (ota.phase == Done && !ota.success)
    ensures applied <==> ResultOf(Handle(d, Tick).s.m) == ReadyToApply
    ensures applied ==> Landed(
              old(ota.writer.flash.cells[..OTA_OFFSET]), ota.writer.flash.cells[..], ota.image, ota.firmwareSize)
    ensures !applied ==> ota.writer.flash.cells[..] == old(ota.writer.flash.cells[..])
  {
    hide Stored, PagesBelow, Inv, Floor, Handle, Landed, Polled, Started, OpensFirmware;
    TurnIsPoll(d, running);
    HandleKeepsInv(d, Tick);
    WholePages(ota);
    var opens;
    stillRunning, applied, opens := SetupTurn(ota, running);
    next := link;
    if opens {
      var conn := new Connection();
      next := Up(conn, true);
    }
  }

  // ota_setup, for whatever the network does: the image is applied exactly when the run says so, main
  // flash then holds it, and nothing of the main half has changed before.
  method OtaSetup(flash: NorFlash, net: seq<Net>) returns (applied: bool)
    requires flash.cells.Length == TWO_MIB
    requires Volume(net) <= LIMIT  // the 32-bit counters do not wrap
    requires Applies(AtStart(), net).Some? ==> Applies(AtStart(), net).value.m.firmwareSize <= OTA_OFFSET
    modifies flash, flash.cells
    ensures applied <==> Applies(AtStart(), net).Some?
    ensures applied ==>
              var m := Applies(AtStart(), net).value.m;
              Landed(old(flash.cells[..OTA_OFFSET]), flash.cells[..], m.image, m.firmwareSize)
    ensures !applied ==> flash.cells[..OTA_OFFSET] == old(flash.cells[..OTA_OFFSET])
  {
    hide Stored, PagesBelow, Inv, Floor, Handle, Landed, Volume, VolumeOf, ResultOf, Applies;
    var ota, link := Setup(flash);
    ghost var d := AtStart();
    var i, running := 0, true;
    assert net[0..] == net;
    applied := false;
    while i < |net|
      invariant 0 <= i <= |net| && Linked(ota, link, d)
      invariant Applies(d, net[i..]) == Applies(AtStart(), net)
      invariant ota.writer.flash == flash && fresh({ota, ota.writer, ota.staging, ota.buffer})
      invariant link.Up? ==> fresh(link.conn)
      invariant running || (ota.phase == Done && !ota.success)
      invariant |ota.image| + Volume(net[i..]) <= LIMIT
      invariant flash.cells[..OTA_OFFSET] == old(flash.cells[..OTA_OFFSET])
    {
      AppliesFirst(d, net[i..]);
      assert net[i..][1..] == net[i + 1..] && net[i..][0] == net[i];
      match net[i] {
        case Tick =>
          running, applied, link := OnTick(ota, link, running, d);
          if applied {
            return;
          }
        case Arrival(p) =>
          link := OnArrival(ota, link, p, d);
      }
      d := Handle(d, net[i]);
      i := i + 1;
    }
    assert net[i..] == [];
    AppliesNothing(d);
  }

  // The first turn of the loop: everything is made anew and the manifest is requested.
  method Setup(flash: NorFlash) returns (ota: Service, link: Link)
    requires flash.cells.Length == TWO_MIB
    ensures fresh(ota) && fresh(ota.writer) && fresh(ota.staging) && fresh(ota.buffer) && ota.writer.flash == flash
    ensures link.Up? && fresh(link.conn) && Linked(ota, link, AtStart()) && ota.image == []
  {
    hide Stored, PagesBelow, Inv, Floor;
    var writer := new Writer(flash);
    ota := new Service(writer);
    var ok := ota.Start();
    var conn := new Connection();
    link := Up(conn, false);
  }

  lemma SameInstalled(main: seq<byte>, a: seq<byte>, b: seq<byte>, n: nat)
    requires |main| == OTA_OFFSET && n <= OTA_OFFSET && n <= |a| && n <= |b| && a[..n] == b[..n]
    ensures Installed(main, a, n) == Installed(main, b, n)
  {
  }

  lemma InstalledIsUpdated(f: seq<byte>, g: seq<byte>, firmware: seq<byte>)
    requires |f| == |g| == TWO_MIB && |firmware| <= OTA_OFFSET
    requires g[..OTA_OFFSET] == Installed(f[..OTA_OFFSET], firmware, |firmware|)
    requires g[OTA_OFFSET..][..|firmware|] == firmware
    ensures g == ConfigRuns.Updated(f, g[OTA_OFFSET..], |firmware|)
    ensures RoundUp(|firmware|, SECTOR_SIZE) <= ConfigOffset(TWO_MIB) ==> ConfigRuns.Current(g) == ConfigRuns.Current(f)
  {
    hide ConfigRuns.Current;
    var staged, n, r := g[OTA_OFFSET..], |firmware|, RoundUp(|firmware|, SECTOR_SIZE);
    var h := f[..OTA_OFFSET] + staged;
    assert h[OTA_OFFSET..OTA_OFFSET + n] == staged[..n] == firmware;
    assert h[r..] == f[..OTA_OFFSET][r..] + staged;
    assert g == g[..OTA_OFFSET] + staged;
    if r <= ConfigOffset(TWO_MIB) {
      ConfigRuns.UpdateKeepsConfig(f, staged, n);
    }
  }

  // The tool's manifest and the firmware it describes.
  lemma FirmwareApplied(
    firmware: seq<byte>, m: Manifest, manifestNet: seq<Net>, tm: nat, firmwareNet: seq<Net>, tf: nat,
    body: seq<byte>, closed: bool)
    requires |m.version| == VERSION_SIZE && 0 < m.size as nat == |firmware|
    requires Response(manifestNet, tm, ManifestBlock(m))
    requires Response(firmwareNet, tf, body) && firmware <= body
    ensures var a := Applies(AtStart(), Update(manifestNet, firmwareNet, closed));
            && a.Some? && a.value.m.manifest == m && a.value.m.firmwareSize == |firmware| <= |a.value.m.image|
            && a.value.m.image[..|firmware|] == firmware
  {
    hide Response, Applies, Inv, ParseManifest, ManifestBlock, Update, Enough;
    ManifestRoundTrip(m);
    assert ManifestBlock(m)[..MANIFEST_SIZE] == ManifestBlock(m);
    UpdateVerdict(manifestNet, tm, ManifestBlock(m), firmwareNet, tf, body, closed);
    WholeBody(firmware, body, closed);
  }

  lemma WholeBody(firmware: seq<byte>, body: seq<byte>, closed: bool)
    requires 0 < |firmware| && firmware <= body
    ensures Enough(body, |firmware|, closed) && (body + Ones(PAGE_SIZE))[..|firmware|] == firmware
  {
    PageRound(|body|);
    assert (body + Ones(PAGE_SIZE))[..|firmware|] == body[..|firmware|];
  }

  // End to end, from the build host to the main flash of any 2 MiB device: for every firmware that fits,
  // every version string and every cut of both responses, the update is applied, and leaves the firmware
  // in main flash, erased up to the sector end, with everything above as it was.
  method UpdateDevice(
    flash: NorFlash, firmware: seq<byte>, version: seq<byte>, size: bv32,
    manifestNet: seq<Net>, firmwareNet: seq<Net>, closed: bool, ghost tm: nat, ghost tf: nat, ghost body: seq<byte>)
    returns (applied: bool)
    requires flash.cells.Length == TWO_MIB && 0 < size as nat == |firmware| <= OTA_OFFSET
    requires Response(manifestNet, tm, ManifestBlock(Manifest(VersionField(version), size, Crc(firmware))))
    requires Response(firmwareNet, tf, body) && firmware <= body
    requires Volume(Update(manifestNet, firmwareNet, closed)) <= LIMIT
    modifies flash, flash.cells
    ensures applied
    ensures flash.cells[..OTA_OFFSET] == Installed(old(flash.cells[..OTA_OFFSET]), firmware, |firmware|)
    // To the configuration this is an update event, which an image that stops below its sector survives.
    ensures flash.cells[..] == ConfigRuns.Updated(old(flash.cells[..]), flash.cells[OTA_OFFSET..], |firmware|)
    ensures RoundUp(|firmware|, SECTOR_SIZE) <= ConfigOffset(TWO_MIB) ==>
              ConfigRuns.Current(flash.cells[..]) == ConfigRuns.Current(old(flash.cells[..]))
  {
    hide Response, Applies, Inv, Volume, ManifestBlock, VersionField, Installed, Update, Crc;
    hide ConfigRuns.Updated, ConfigRuns.Current;
    ghost var f := flash.cells[..];
    ghost var m := Manifest(VersionField(version), size, Crc(firmware));
    FirmwareApplied(firmware, m, manifestNet, tm, firmwareNet, tf, body, closed);
    var net := Update(manifestNet, firmwareNet, closed);
    ghost var s := Applies(AtStart(), net).value;
    SameInstalled(flash.cells[..OTA_OFFSET], s.m.image, firmware, |firmware|);
    applied := OtaSetup(flash, net);
    InstalledIsUpdated(f, flash.cells[..], firmware);
  }

  // A download that breaks off, be it the manifest or the firmware, leaves the running image alone: the
  // update is not applied, and nothing of the main half changes.
  method BrokenOff(flash: NorFlash, net: seq<Net>, tail: seq<Net>) returns (applied: bool)
    requires flash.cells.Length == TWO_MIB
    requires Applies(AtStart(), net) == None && IsOpen(After(AtStart(), net).s)
    requires Volume(net + ([Arrival(Received.Failed)] + tail)) <= LIMIT
    modifies flash, flash.cells
    ensures !applied && flash.cells[..OTA_OFFSET] == old(flash.cells[..OTA_OFFSET])
  {
    hide Applies, After, Inv, Volume, IsOpen;
    BrokenUpdate(net, tail);
    applied := OtaSetup(flash, net + ([Arrival(Received.Failed)] + tail));
  }
}
