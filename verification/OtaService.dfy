// The update service: a five-state machine that cuts the downloaded image into flash pages.
module OtaService {
  import opened Bytes
  import opened Flash
  import opened FlashLayout
  import opened FlashWriter

  datatype Phase = Idle | DownloadManifest | DownloadFirmware | Verify | Done

  datatype Manifest = Manifest(version: seq<byte>, size: bv32, checksum: bv32)

  const MANIFEST_SIZE: nat := 40

  // The packed struct, read back from its 40 bytes.
  function ParseManifest(block: seq<byte>): Manifest
    requires |block| == MANIFEST_SIZE
  {
    Manifest(block[..32], FromLe32(block[32..36]), FromLe32(block[36..40]))
  }

  // ---- the service as a value ----

  // `image` is every byte handed to the page writer since the erase, padding included;
  // `partial` is what has arrived of the manifest.
  datatype Model = Model(
    phase: Phase, image: seq<byte>, firmwareSize: nat, downloading: bool, success: bool,
    partial: seq<byte>, manifest: Manifest)

  function Floor(n: nat): (k: nat)
    ensures k <= n < k + PAGE_SIZE && k % PAGE_SIZE == 0
  {
    n / 256 * 256
  }

  lemma FloorIs(n: nat, k: nat)
    requires k % PAGE_SIZE == 0 && k <= n < k + PAGE_SIZE
    ensures Floor(n) == k
  {
  }

  function Pad(image: seq<byte>): (p: seq<byte>)
    ensures |p| == RoundUp(|image|, PAGE_SIZE) && |p| % PAGE_SIZE == 0 && image <= p
  {
    PageRound(|image|);
    image + Ones(RoundUp(|image|, PAGE_SIZE) - |image|)
  }

  lemma PageRound(n: nat)
    ensures RoundUp(n, PAGE_SIZE) == (n + 255) / 256 * 256 && RoundUp(n, PAGE_SIZE) % PAGE_SIZE == 0
  {
  }

  // Padding fills up the last page and nothing else.
  lemma PadTail(image: seq<byte>, w: nat)
    requires w % PAGE_SIZE == 0 && w < |image| < w + PAGE_SIZE
    ensures |Pad(image)| == w + PAGE_SIZE
    ensures Pad(image)[w..] == image[w..] + Ones(w + PAGE_SIZE - |image|) && Pad(image)[..w] == image[..w]
  {
    PageRound(|image|);
  }

  lemma PadAligned(image: seq<byte>)
    requires |image| % PAGE_SIZE == 0
    ensures Pad(image) == image
  {
    PageRound(|image|);
  }

  function Started(m: Model): Model {
    if m.phase != Idle then m
    else m.(phase := DownloadManifest, image := [], firmwareSize := 0, success := false)
  }

  // poll opens the firmware download in this state.
  predicate OpensFirmware(m: Model) {
    m.phase == DownloadFirmware && |m.image| < PAGE_SIZE && !m.downloading
  }

  function Polled(m: Model): Model {
    if OpensFirmware(m) then m.(downloading := true)
    else if m.phase == Verify then m.(phase := Done, success := Floor(|m.image|) >= m.firmwareSize)
    else m
  }

  function ManifestChunk(m: Model, data: seq<byte>): Model
    requires |m.partial| < MANIFEST_SIZE
  {
    var taken := m.partial + data[..Min(|data|, MANIFEST_SIZE - |m.partial|)];
    if |taken| < MANIFEST_SIZE then m.(partial := taken)
    else m.(partial := [], manifest := ParseManifest(taken), firmwareSize := ParseManifest(taken).size as nat)
  }

  function ManifestDone(m: Model, ok: bool): Model {
    if !ok then m.(phase := Done, success := false)
    else if m.phase == DownloadManifest then m.(phase := DownloadFirmware)
    else m
  }

  function FirmwareChunk(m: Model, data: seq<byte>): Model {
    var image := m.image + data;
    if |image| >= m.firmwareSize then m.(image := Pad(image), phase := Verify) else m.(image := image)
  }

  function FirmwareDone(m: Model, ok: bool): Model {
    if !ok then m.(phase := Done, success := false)
    else m.(image := Pad(m.image), phase := Verify)
  }

  // The OTA region once these bytes are programmed: the bytes that fit, erased above.
  function Stored(bytes: seq<byte>, size: nat): (r: seq<byte>)
    ensures |r| == size
  {
    bytes[..Min(|bytes|, size)] + Ones(size - Min(|bytes|, size))
  }

  // The pages below w that fit, in the order they are programmed: each exactly once.
  function PagesBelow(w: nat, size: nat): seq<nat> {
    seq(Min(w, size) / 256, i requires 0 <= i => 256 * i)
  }

  // No offset occurs twice, so no page is programmed twice after an erase.
  lemma PagesOnce(w: nat, size: nat)
    ensures var pages := PagesBelow(w, size);
            && (forall i, j :: 0 <= i < j < |pages| ==> pages[i] < pages[j])
            && forall p :: p in pages <==> 0 <= p && p % PAGE_SIZE == 0 && p + PAGE_SIZE <= Min(w, size)
  {
    var pages := PagesBelow(w, size);
    forall p | 0 <= p && p % PAGE_SIZE == 0 && p + PAGE_SIZE <= Min(w, size)
      ensures p in pages
    {
      assert pages[p / 256] == p;
    }
  }

  lemma NextPage(bytes: seq<byte>, page: seq<byte>, size: nat)
    requires |bytes| % PAGE_SIZE == 0 && size % PAGE_SIZE == 0 && |page| == PAGE_SIZE
    ensures |bytes| + PAGE_SIZE <= size ==>
              && ProgramRange(Stored(bytes, size), |bytes|, page) == Stored(bytes + page, size)
              && PagesBelow(|bytes| + PAGE_SIZE, size) == PagesBelow(|bytes|, size) + [|bytes|]
    ensures |bytes| + PAGE_SIZE > size ==>
              && Stored(bytes + page, size) == Stored(bytes, size)
              && PagesBelow(|bytes| + PAGE_SIZE, size) == PagesBelow(|bytes|, size)
  {
    if |bytes| + PAGE_SIZE <= size {
      ProgramErased(Stored(bytes, size), |bytes|, page);
    } else {
      assert |bytes| >= size;
    }
  }

  lemma NothingStored(size: nat)
    ensures Stored([], size) == Ones(size) && PagesBelow(0, size) == []
  {
  }

  // The largest image whose offsets fit the 32-bit counters.
  const LIMIT: nat := WORD - PAGE_SIZE

  // ---- the service as the firmware runs it ----

  class Service {
    var phase: Phase
    var bytesWritten: nat
    const staging: array<byte>
    var stagingLen: nat
    var isFirmwareDownloading: bool
    var success: bool
    var firmwareSize: nat
    var manifest: Manifest
    // The statics of handleManifestChunk.
    const buffer: array<byte>
    var received: nat
    const writer: Writer
    ghost var image: seq<byte>

    ghost predicate Separate()
      reads this, writer
    {
      && staging.Length == PAGE_SIZE && buffer.Length == MANIFEST_SIZE
      && staging != buffer && staging != writer.flash.cells && buffer != writer.flash.cells
      && writer.Valid() && writer.flash.cells.Length > 0
    }

    // `image` cut at bytesWritten: programmed below, in the staging buffer above.
    ghost predicate Staged()
      reads this, staging, writer, writer.flash.cells
    {
      && Separate()
      && |image| == bytesWritten + stagingLen <= LIMIT && stagingLen <= PAGE_SIZE && bytesWritten % PAGE_SIZE == 0
      && staging[..stagingLen] == image[bytesWritten..]
      && (writer.baseOffset == 0 || (writer.baseOffset == UNSET && bytesWritten == 0))
    }

    ghost predicate OnFlash()
      requires Staged()
      reads this, staging, writer, writer.flash.cells
    {
      && writer.Region() == Stored(image[..bytesWritten], OtaSize(writer.flash.cells.Length))
      && writer.programmed == PagesBelow(bytesWritten, OtaSize(writer.flash.cells.Length))
    }

    ghost predicate Valid()
      reads this, staging, buffer, writer, writer.flash.cells
    {
      && Staged()
      && stagingLen < PAGE_SIZE
      && received < MANIFEST_SIZE
      && (image != [] ==> OnFlash())
    }

    ghost function State(): Model
      reads this, buffer
      requires received <= buffer.Length
    {
      Model(phase, image, firmwareSize, isFirmwareDownloading, success, buffer[..received], manifest)
    }

    constructor (writer: Writer)
      requires writer.Valid() && writer.flash.cells.Length > 0 && writer.baseOffset == UNSET
      ensures Valid() && this.writer == writer && fresh(staging) && fresh(buffer)
      ensures State() == Model(Idle, [], 0, false, false, [], Manifest([], 0, 0))
    {
      phase, bytesWritten, stagingLen, isFirmwareDownloading := Idle, 0, 0, false;
      success, firmwareSize, manifest, received := false, 0, Manifest([], 0, 0), 0;
      staging := new byte[PAGE_SIZE];
      buffer := new byte[MANIFEST_SIZE];
      this.writer := writer;
      image := [];
    }

    method Start() returns (ok: bool)
      requires Valid()
      modifies this
      ensures Valid() && State() == Started(old(State()))
      ensures ok <==> old(phase) == Idle
    {
      hide Stored, PagesBelow;
      if phase != Idle {
        return false;
      }
      phase := DownloadManifest;
      bytesWritten := 0;
      stagingLen := 0;
      firmwareSize := 0;
      success := false;
      image := [];
      return true;
    }

    // `opens` tells that the firmware download was requested.
    method Poll() returns (opens: bool)
      requires Valid()
      modifies this
      ensures Valid() && State() == Polled(old(State()))
      ensures opens == OpensFirmware(old(State()))
    {
      hide Stored, PagesBelow, Floor;
      FloorIs(|image|, bytesWritten);
      opens := false;
      if phase == DownloadFirmware && bytesWritten == 0 && !isFirmwareDownloading {
        isFirmwareDownloading := true;
        opens := true;
      }
      if phase == Verify {
        success := bytesWritten >= firmwareSize;
        phase := Done;
      }
    }

    // The memcpy into the manifest buffer.
    method Collect(data: seq<byte>)
      requires Separate() && received + |data| <= MANIFEST_SIZE
      modifies this`received, buffer
      ensures received == old(received) + |data| && buffer[..received] == old(buffer[..received]) + data
    {
      forall i | 0 <= i < |data| {
        buffer[received + i] := data[i];
      }
      received := received + |data|;
    }

    method HandleManifestChunk(data: seq<byte>)
      requires Valid()
      modifies this, buffer
      ensures Valid() && State() == ManifestChunk(old(State()), data)
    {
      hide ParseManifest, Stored, PagesBelow;
      var copyLen := if |data| < MANIFEST_SIZE - received then |data| else MANIFEST_SIZE - received;
      Collect(data[..copyLen]);
      if received < MANIFEST_SIZE {
        return;
      }
      assert buffer[..] == buffer[..received];
      manifest := ParseManifest(buffer[..]);
      firmwareSize := manifest.size as nat;
      received := 0;
    }

    method OnManifestDone(ok: bool)
      requires Valid()
      modifies this
      ensures Valid() && State() == ManifestDone(old(State()), ok)
    {
      hide Stored, PagesBelow;
      if !ok {
        phase := Done;
        success := false;
      } else if phase == DownloadManifest {
        phase := DownloadFirmware;
      }
    }

    // write_chunk of the full staging page, and the bookkeeping after it.
    method StorePage()
      requires Staged() && OnFlash() && stagingLen == PAGE_SIZE
      modifies this`bytesWritten, this`stagingLen, writer, writer.flash, writer.flash.cells
      ensures Staged() && OnFlash() && stagingLen == 0
      ensures writer.flash.cells[..writer.Base()] == old(writer.flash.cells[..writer.Base()])
    {
      hide Stored, PagesBelow, ProgramRange;
      ghost var size := OtaSize(writer.flash.cells.Length);
      SectorAligned(writer.flash.cells.Length);
      NextPage(image[..bytesWritten], staging[..], size);
      assert staging[..] == image[bytesWritten..];
      assert image[..bytesWritten] + staging[..] == image[..bytesWritten + PAGE_SIZE];
      assert bytesWritten + PAGE_SIZE == |image| <= LIMIT < WORD;
      assert writer.Normalized(bytesWritten) == bytesWritten;
      var ok := writer.WriteChunk(bytesWritten, staging[..]);
      bytesWritten := bytesWritten + PAGE_SIZE;
      stagingLen := 0;
    }

    // The last page: erased bytes after the staged ones, then write_chunk.
    method PadAndStore()
      requires Staged() && OnFlash() && 0 < stagingLen < PAGE_SIZE
      modifies this`bytesWritten, this`stagingLen, this`image, staging, writer, writer.flash, writer.flash.cells
      ensures Staged() && OnFlash() && stagingLen == 0
      ensures image == Pad(old(image))
      ensures writer.flash.cells[..writer.Base()] == old(writer.flash.cells[..writer.Base()])
    {
      hide Stored, PagesBelow, Pad;
      PadTail(image, bytesWritten);
      forall i | stagingLen <= i < PAGE_SIZE {
        staging[i] := 0xFF;
      }
      assert staging[..] == old(staging[..stagingLen]) + Ones(PAGE_SIZE - stagingLen);
      image := Pad(image);
      stagingLen := PAGE_SIZE;
      assert staging[..stagingLen] == staging[..] == image[bytesWritten..];
      StorePage();
    }

    // One turn of the chunk loop: bytes that fit the staging page, which is stored when full.
    method StageBytes(bytes: seq<byte>)
      requires Staged() && OnFlash() && stagingLen < PAGE_SIZE
      requires stagingLen + |bytes| <= PAGE_SIZE && |image| + |bytes| <= LIMIT
      modifies this`bytesWritten, this`stagingLen, this`image, staging, writer, writer.flash, writer.flash.cells
      ensures Staged() && OnFlash() && stagingLen < PAGE_SIZE
      ensures image == old(image) + bytes
      ensures writer.flash.cells[..writer.Base()] == old(writer.flash.cells[..writer.Base()])
    {
      hide Stored, PagesBelow;
      forall i | 0 <= i < |bytes| {
        staging[stagingLen + i] := bytes[i];
      }
      ghost var longer := image + bytes;
      assert longer[bytesWritten..] == image[bytesWritten..] + bytes;
      assert longer[..bytesWritten] == image[..bytesWritten];
      image := longer;
      stagingLen := stagingLen + |bytes|;
      if stagingLen == PAGE_SIZE {
        StorePage();
      }
    }

    // The chunk loop.
    method StageAll(data: seq<byte>)
      requires Staged() && OnFlash() && stagingLen < PAGE_SIZE
      requires |image| + |data| <= LIMIT
      modifies this`bytesWritten, this`stagingLen, this`image, staging, writer, writer.flash, writer.flash.cells
      ensures Staged() && OnFlash() && stagingLen < PAGE_SIZE
      ensures image == old(image) + data
      ensures writer.flash.cells[..writer.Base()] == old(writer.flash.cells[..writer.Base()])
    {
      hide Stored, PagesBelow;
      var offset: nat := 0;
      var len: nat := |data|;
      while len > 0
        invariant offset + len == |data|
        invariant Staged() && OnFlash() && stagingLen < PAGE_SIZE
        invariant image == old(image) + data[..offset]
        invariant writer.flash.cells[..writer.Base()] == old(writer.flash.cells[..writer.Base()])
      {
        var space := PAGE_SIZE - stagingLen;
        var chunk := if len < space then len else space;
        assert old(image) + data[..offset + chunk] == image + data[offset..offset + chunk];
        StageBytes(data[offset..offset + chunk]);
        offset := offset + chunk;
        len := len - chunk;
      }
      assert data[..offset] == data;
    }

    // The flush of a partial page that ends a download.
    method Flush()
      requires Staged() && stagingLen < PAGE_SIZE && (image != [] ==> OnFlash())
      modifies this`bytesWritten, this`stagingLen, this`image, staging, writer, writer.flash, writer.flash.cells
      ensures Staged() && stagingLen == 0 && (old(image) != [] ==> OnFlash())
      ensures image == Pad(old(image)) && (old(OnFlash()) ==> OnFlash())
      ensures writer.flash.cells[..writer.Base()] == old(writer.flash.cells[..writer.Base()])
    {
      hide Stored, PagesBelow, Pad;
      if stagingLen > 0 {
        PadAndStore();
      } else {
        PadAligned(image);
      }
    }

    method HandleFirmwareChunk(data: seq<byte>)
      requires Valid()
      requires |image| + |data| <= LIMIT  // the 32-bit counters do not wrap
      modifies this, staging, writer, writer.flash, writer.flash.cells
      ensures Valid() && State() == FirmwareChunk(old(State()), data)
      ensures OnFlash()
      ensures writer.flash.cells[..writer.Base()] == old(writer.flash.cells[..writer.Base()])
    {
      hide PagesBelow, Stored;
      if bytesWritten == 0 && stagingLen == 0 {
        var ok := writer.EraseRegion();
        NothingStored(OtaSize(writer.flash.cells.Length));
        assert image[..0] == [];
      }
      StageAll(data);
      if bytesWritten + stagingLen >= firmwareSize {
        Flush();
        phase := Verify;
      }
    }

    method OnFirmwareDone(ok: bool)
      requires Valid()
      modifies this, staging, writer, writer.flash, writer.flash.cells
      ensures Valid() && State() == FirmwareDone(old(State()), ok)
      ensures writer.flash.cells[..writer.Base()] == old(writer.flash.cells[..writer.Base()])
    {
      hide Stored, PagesBelow;
      if !ok {
        phase := Done;
        success := false;
      } else {
        Flush();
        phase := Verify;
      }
    }
  }
}
