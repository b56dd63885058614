// The loop around the update service, up to the call that applies the image.
module OtaFlow {
  import opened Bytes
  import opened Flash
  import opened OtaService
  import opened ApplyUpdate

  datatype OtaResult = Running | Failed | ReadyToApply

  function ResultOf(m: Model): OtaResult {
    if m.phase != Done then Running else if !m.success then Failed else ReadyToApply
  }

  method OtaLoop(ota: Service) returns (r: OtaResult, opens: bool)
    requires ota.Valid() && (ota.success ==> ota.bytesWritten >= ota.firmwareSize)
    modifies ota
    ensures ota.Valid() && ota.State() == Polled(old(ota.State()))
    ensures r == ResultOf(ota.State()) && opens == OpensFirmware(old(ota.State()))
    ensures r == ReadyToApply <==> ota.phase == Done && ota.success
    ensures r == Failed <==> ota.phase == Done && !ota.success
    ensures ota.firmwareSize == old(ota.firmwareSize) && (r == ReadyToApply ==> ota.bytesWritten >= ota.firmwareSize)
  {
    hide Stored, PagesBelow, Floor;
    WholePages(ota);
    opens := ota.Poll();
    WholePages(ota);
    if ota.phase != Done {
      return Running, opens;
    }
    if !ota.success {
      return Failed, opens;
    }
    return ReadyToApply, opens;
  }

  lemma WholePages(ota: Service)
    requires ota.Valid()
    ensures ota.bytesWritten == Floor(|ota.image|)
  {
    hide Floor, Stored, PagesBelow;
    FloorIs(|ota.image|, ota.bytesWritten);
  }

  // The main half of the flash once the first n bytes of an image are applied: those bytes, erased up
  // to the sector end, and what it held above.
  function Installed(main: seq<byte>, image: seq<byte>, n: nat): (r: seq<byte>)
    requires |main| == OTA_OFFSET && n <= OTA_OFFSET && n <= |image|
    ensures |r| == OTA_OFFSET
  {
    image[..n] + Ones(RoundUp(n, SECTOR_SIZE) - n) + main[RoundUp(n, SECTOR_SIZE)..]
  }

  // The flash after that: the main half has the image installed, and the OTA region still holds it.
  ghost predicate Landed(main: seq<byte>, g: seq<byte>, image: seq<byte>, n: nat) {
    && |g| == TWO_MIB && |main| == OTA_OFFSET && n <= OTA_OFFSET && n <= |image|
    && g[..OTA_OFFSET] == Installed(main, image, n)
    && g[OTA_OFFSET..][..n] == image[..n]
  }

  // The call into the apply step; the device resets afterwards.
  method ApplyStaged(ota: Service)
    requires ota.Valid() && ota.writer.flash.cells.Length == TWO_MIB
    requires ota.firmwareSize <= OTA_OFFSET && ota.bytesWritten >= ota.firmwareSize
    modifies ota.writer.flash, ota.writer.flash.cells
    ensures ota.Valid() && ota.State() == old(ota.State())
    ensures Landed(
              old(ota.writer.flash.cells[..OTA_OFFSET]), ota.writer.flash.cells[..], ota.image, ota.firmwareSize)
  {
    hide Stored, PagesBelow, Applied, Resumable, Installed;
    ghost var f := ota.writer.flash.cells[..];
    StagedIsApplied(ota, f);
    ApplyOtaToMain(ota.writer.flash, ota.firmwareSize);
    ghost var g := ota.writer.flash.cells[..];
    assert ota.writer.Region() == g[OTA_OFFSET..];
    assert f[OTA_OFFSET..] == old(ota.writer.Region());
    assert f[..OTA_OFFSET] == old(ota.writer.flash.cells[..OTA_OFFSET]);
    assert ota.writer.flash.cells[..][..OTA_OFFSET] == ota.writer.flash.cells[..OTA_OFFSET];
  }

  // One turn of the loop in ota_setup; `opens` tells that it requested the firmware download. The
  // precondition on success is what every run guarantees.
  method SetupTurn(ota: Service, isOtaRunning: bool) returns (running: bool, applied: bool, opens: bool)
    requires ota.Valid() && ota.writer.flash.cells.Length == TWO_MIB
    requires isOtaRunning && ResultOf(Polled(ota.State())) == ReadyToApply ==> ota.firmwareSize <= OTA_OFFSET
    requires ota.success ==> ota.bytesWritten >= ota.firmwareSize
    modifies ota, ota.writer.flash, ota.writer.flash.cells
    ensures ota.Valid()
    ensures ota.State() == if isOtaRunning then Polled(old(ota.State())) else Started(old(ota.State()))
    ensures applied <==> isOtaRunning && ResultOf(ota.State()) == ReadyToApply
    ensures running <==> !isOtaRunning || ResultOf(ota.State()) != Failed
    ensures opens <==> isOtaRunning && OpensFirmware(old(ota.State()))
    ensures applied ==> Landed(
              old(ota.writer.flash.cells[..OTA_OFFSET]), ota.writer.flash.cells[..], ota.image, ota.firmwareSize)
    ensures !applied ==> ota.writer.flash.cells[..] == old(ota.writer.flash.cells[..])
  {
    hide Stored, PagesBelow, Polled, ResultOf, OpensFirmware, Landed;
    running, applied, opens := true, false, false;
    if isOtaRunning {
      var r;
      r, opens := OtaLoop(ota);
      if r == ReadyToApply {
        ApplyStaged(ota);
        applied := true;
        return;
      }
      if r == Failed {
        running := false;
      }
    } else {
      var ok := ota.Start();
    }
  }

  lemma StagedIsApplied(ota: Service, f: seq<byte>)
    requires ota.Valid() && ota.writer.flash.cells.Length == TWO_MIB && f == ota.writer.flash.cells[..]
    requires ota.firmwareSize <= OTA_OFFSET && ota.bytesWritten >= ota.firmwareSize
    ensures ota.firmwareSize <= |ota.image|
    ensures Applied(f, ota.firmwareSize)[..OTA_OFFSET] == Installed(f[..OTA_OFFSET], ota.image, ota.firmwareSize)
    ensures Applied(f, ota.firmwareSize)[OTA_OFFSET..] == f[OTA_OFFSET..]
    ensures f[OTA_OFFSET..][..ota.firmwareSize] == ota.image[..ota.firmwareSize]
  {
    var n := ota.firmwareSize;
    AppliedParts(f, n);
    if n > 0 {
      assert ota.image != [];
      assert ota.writer.Region() == f[OTA_OFFSET..];
      assert f[OTA_OFFSET..OTA_OFFSET + n] == f[OTA_OFFSET..][..n];
      assert ota.image[..ota.bytesWritten][..n] == ota.image[..n];
    }
  }
}
