// Copying the staged image over the running one, sector by sector, from RAM.
module ApplyUpdate {
  import opened Bytes
  import opened Flash
  import FlashLayout

  const OTA_OFFSET: nat := 0x00100000
  const TWO_MIB: nat := 0x00200000

  // The hard-coded source offset is the layout's OTA region on a 2 MiB part, and on no other.
  lemma HardCodedOffset(flashSize: nat)
    requires FlashLayout.ValidSize(flashSize)
    ensures FlashLayout.OtaOffset(flashSize) == OTA_OFFSET <==> flashSize == TWO_MIB
  {
    FlashLayout.SectorAligned(flashSize);
  }

  // The flash after applying n bytes: the staged bytes, erased up to the sector end, the rest as it was.
  function Applied(f: seq<byte>, n: nat): (g: seq<byte>)
    requires |f| == TWO_MIB && n <= OTA_OFFSET
    ensures |g| == |f|
  {
    f[OTA_OFFSET..OTA_OFFSET + n] + Ones(RoundUp(n, SECTOR_SIZE) - n) + f[RoundUp(n, SECTOR_SIZE)..]
  }

  // The copy reads nothing it has overwritten: a run that starts over from contents that differ
  // only in the sectors the copy rewrites ends in the same flash.
  lemma AppliedIgnoresTarget(f: seq<byte>, g: seq<byte>, n: nat)
    requires |f| == |g| == TWO_MIB && n <= OTA_OFFSET
    requires g[RoundUp(n, SECTOR_SIZE)..] == f[RoundUp(n, SECTOR_SIZE)..]
    ensures Applied(g, n) == Applied(f, n)
  {
    var r := RoundUp(n, SECTOR_SIZE);
    assert f[OTA_OFFSET..OTA_OFFSET + n] == f[r..][OTA_OFFSET - r..OTA_OFFSET - r + n];
    assert g[OTA_OFFSET..OTA_OFFSET + n] == g[r..][OTA_OFFSET - r..OTA_OFFSET - r + n];
  }

  // What the copy does to each part of the flash.
  lemma AppliedParts(f: seq<byte>, n: nat)
    requires |f| == TWO_MIB && n <= OTA_OFFSET
    ensures var g := Applied(f, n);
            && g[..n] == f[OTA_OFFSET..OTA_OFFSET + n]
            && (forall i :: n <= i < RoundUp(n, 4096) ==> g[i] == 0xFF)
            && g[RoundUp(n, 4096)..] == f[RoundUp(n, 4096)..]
            && g[OTA_OFFSET..] == f[OTA_OFFSET..]
  {
    var g, r := Applied(f, n), RoundUp(n, SECTOR_SIZE);
    assert g[r..] == f[r..];
    assert g[OTA_OFFSET..] == g[r..][OTA_OFFSET - r..];
    assert f[OTA_OFFSET..] == f[r..][OTA_OFFSET - r..];
  }

  // The configuration sector survives exactly the images whose sectors stop below it,
  // unless the bytes written there happen to be the old ones.
  lemma ConfigSectorKept(f: seq<byte>, n: nat)
    requires |f| == TWO_MIB && n <= OTA_OFFSET
    ensures var c := FlashLayout.ConfigOffset(TWO_MIB);
            Applied(f, n)[c..OTA_OFFSET] == f[c..OTA_OFFSET] <==>
            || RoundUp(n, SECTOR_SIZE) <= c
            || f[c..OTA_OFFSET] == f[OTA_OFFSET + c..OTA_OFFSET + n] + Ones(OTA_OFFSET - n)
  {
    var c, g, r := FlashLayout.ConfigOffset(TWO_MIB), Applied(f, n), RoundUp(n, SECTOR_SIZE);
    if r <= c {
      assert g[r..] == f[r..];
      assert g[c..OTA_OFFSET] == g[r..][c - r..OTA_OFFSET - r];
      assert f[c..OTA_OFFSET] == f[r..][c - r..OTA_OFFSET - r];
    } else {
      assert r == OTA_OFFSET;
      assert g[c..OTA_OFFSET] == f[OTA_OFFSET + c..OTA_OFFSET + n] + Ones(OTA_OFFSET - n);
    }
  }

  method RamMemcpy(dst: array<byte>, src: seq<byte>)
    requires |src| <= dst.Length
    modifies dst
    ensures dst[..] == src + old(dst[|src|..])
  {
    var i := 0;
    while i < |src|
      invariant 0 <= i <= |src|
      invariant dst[..i] == src[..i]
      invariant dst[i..] == old(dst[i..])
    {
      dst[i] := src[i];
      i := i + 1;
    }
  }

  method RamMemset(dst: array<byte>, at: nat, value: byte, len: nat)
    requires at + len <= dst.Length
    modifies dst
    ensures forall k :: 0 <= k < dst.Length ==> dst[k] == if at <= k < at + len then value else old(dst[k])
  {
    var i := 0;
    while i < len
      invariant 0 <= i <= len
      invariant forall k :: 0 <= k < dst.Length ==> dst[k] == if at <= k < at + i then value else old(dst[k])
    {
      dst[at + i] := value;
      i := i + 1;
    }
  }

  // What one turn programs: the staged bytes of the sector, padded to whole pages.
  function TurnData(f: seq<byte>, offset: nat, chunk: nat): (data: seq<byte>)
    requires |f| == TWO_MIB && offset + chunk <= OTA_OFFSET && 0 < chunk <= SECTOR_SIZE
    ensures chunk <= |data| <= SECTOR_SIZE && |data| % PAGE_SIZE == 0
  {
    f[OTA_OFFSET + offset..OTA_OFFSET + offset + chunk] + Ones(PageRounded(chunk) - chunk)
  }

  // (chunk + PAGE_SIZE - 1) & ~(PAGE_SIZE - 1), capped at a sector.
  function PageRounded(chunk: nat): (n: nat)
    requires 0 < chunk <= SECTOR_SIZE
    ensures chunk <= n <= SECTOR_SIZE && n % PAGE_SIZE == 0
  {
    var n := (chunk + 255) / 256 * 256;
    if n > SECTOR_SIZE then SECTOR_SIZE else n
  }

  // One sector more.
  lemma NextSector(f: seq<byte>, offset: nat, chunk: nat)
    requires |f| == TWO_MIB && offset % SECTOR_SIZE == 0 && offset + chunk <= OTA_OFFSET
    requires 0 < chunk <= SECTOR_SIZE
    ensures offset + SECTOR_SIZE <= OTA_OFFSET
    ensures var g := Applied(f, offset);
            && ProgramRange(EraseRange(g, offset, SECTOR_SIZE), offset, TurnData(f, offset, chunk)) ==
               Applied(f, offset + chunk)
            && g[OTA_OFFSET..] == f[OTA_OFFSET..]
            && g[offset..] == f[offset..]
  {
    var g, data := Applied(f, offset), TurnData(f, offset, chunk);
    ErasedThenProgrammed(g, offset, SECTOR_SIZE, data);
    AppliedParts(f, offset);
    assert RoundUp(offset, SECTOR_SIZE) == offset;
    assert RoundUp(offset + chunk, SECTOR_SIZE) == offset + SECTOR_SIZE;
    assert g[..offset] == f[OTA_OFFSET..OTA_OFFSET + offset];
    assert f[OTA_OFFSET..OTA_OFFSET + offset + chunk] ==
           f[OTA_OFFSET..OTA_OFFSET + offset] + f[OTA_OFFSET + offset..OTA_OFFSET + offset + chunk];
    assert Ones(|data| - chunk) + Ones(SECTOR_SIZE - |data|) == Ones(SECTOR_SIZE - chunk);
    assert g[offset..] == f[offset..];
    assert g[offset + SECTOR_SIZE..] == g[offset..][SECTOR_SIZE..];
    assert f[offset + SECTOR_SIZE..] == f[offset..][SECTOR_SIZE..];
    assert g[..offset] + data + Ones(SECTOR_SIZE - |data|) + g[offset + SECTOR_SIZE..] == Applied(f, offset + chunk);
  }

  // Both operations of one turn touch only the sector at offset.
  lemma TurnStaysInTarget(g: seq<byte>, offset: nat, data: seq<byte>, from: nat)
    requires offset + SECTOR_SIZE <= from <= |g| && |data| <= SECTOR_SIZE
    ensures EraseRange(g, offset, SECTOR_SIZE)[from..] == g[from..]
    ensures ProgramRange(EraseRange(g, offset, SECTOR_SIZE), offset, data)[from..] == g[from..]
  {
  }

  // The body of the copy loop.
  method CopySector(flash: NorFlash, buffer: array<byte>, offset: nat, chunk: nat)
    requires flash.cells.Length == TWO_MIB && buffer.Length == SECTOR_SIZE && buffer != flash.cells
    requires offset % SECTOR_SIZE == 0 && offset + chunk <= OTA_OFFSET && 0 < chunk <= SECTOR_SIZE
    modifies flash, flash.cells, buffer
    ensures var g := EraseRange(old(flash.cells[..]), offset, SECTOR_SIZE);
            var p := ProgramRange(g, offset, TurnData(old(flash.cells[..]), offset, chunk));
            flash.cells[..] == p && flash.history == old(flash.history) + [g, p]
  {
    hide EraseRange, ProgramRange;
    var source := flash.cells[OTA_OFFSET + offset..OTA_OFFSET + offset + chunk];
    RamMemcpy(buffer, source);
    flash.RangeErase(offset, SECTOR_SIZE);
    var progSize := PageRounded(chunk);
    if progSize > chunk {
      RamMemset(buffer, chunk, 0xFF, progSize - chunk);
    }
    assert buffer[..progSize] == source + Ones(progSize - chunk);
    flash.RangeProgram(offset, buffer[..progSize]);
  }

  lemma SameStagedData(f: seq<byte>, g: seq<byte>, offset: nat, chunk: nat)
    requires |f| == |g| == TWO_MIB && offset + chunk <= OTA_OFFSET && 0 < chunk <= SECTOR_SIZE
    requires g[OTA_OFFSET..] == f[OTA_OFFSET..]
    ensures TurnData(g, offset, chunk) == TurnData(f, offset, chunk)
  {
    assert g[OTA_OFFSET + offset..OTA_OFFSET + offset + chunk] == g[OTA_OFFSET..][offset..offset + chunk];
    assert f[OTA_OFFSET + offset..OTA_OFFSET + offset + chunk] == f[OTA_OFFSET..][offset..offset + chunk];
  }

  lemma AppliedNothing(f: seq<byte>)
    requires |f| == TWO_MIB
    ensures Applied(f, 0) == f
  {
  }

  // Contents from which a run of the copy still ends where it was going to.
  ghost predicate Resumable(h: seq<byte>, f: seq<byte>, n: nat)
    requires |f| == TWO_MIB && n <= OTA_OFFSET
  {
    |h| == TWO_MIB && Applied(h, n) == Applied(f, n)
  }

  lemma TurnBelowEnd(offset: nat, chunk: nat, n: nat)
    requires offset % SECTOR_SIZE == 0 && offset + chunk <= n <= OTA_OFFSET && 0 < chunk <= SECTOR_SIZE
    ensures RoundUp(offset + chunk, SECTOR_SIZE) == offset + SECTOR_SIZE <= RoundUp(n, SECTOR_SIZE) <= OTA_OFFSET
    ensures RoundUp(offset, SECTOR_SIZE) == offset
  {
  }

  lemma AppliedTail(f: seq<byte>, n: nat, from: nat)
    requires |f| == TWO_MIB && n <= OTA_OFFSET
    requires RoundUp(n, SECTOR_SIZE) <= from <= |f|
    ensures Applied(f, n)[from..] == f[from..]
  {
  }

  lemma TurnIsResumable(f: seq<byte>, offset: nat, chunk: nat, n: nat)
    requires |f| == TWO_MIB && offset % SECTOR_SIZE == 0 && offset + chunk <= n <= OTA_OFFSET
    requires chunk == Min(n - offset, SECTOR_SIZE) && chunk > 0
    ensures var g := Applied(f, offset);
            var e := EraseRange(g, offset, SECTOR_SIZE);
            && g[OTA_OFFSET..] == f[OTA_OFFSET..]
            && ProgramRange(e, offset, TurnData(f, offset, chunk)) == Applied(f, offset + chunk)
            && Resumable(e, f, n) && Resumable(Applied(f, offset + chunk), f, n)
  {
    hide EraseRange, ProgramRange, TurnData, Applied, RoundUp;
    var g, r, data := Applied(f, offset), RoundUp(n, SECTOR_SIZE), TurnData(f, offset, chunk);
    var e := EraseRange(g, offset, SECTOR_SIZE);
    NextSector(f, offset, chunk);
    TurnBelowEnd(offset, chunk, n);
    TurnStaysInTarget(g, offset, data, r);
    AppliedTail(f, offset, r);
    AppliedTail(f, offset + chunk, r);
    AppliedIgnoresTarget(f, e, n);
    AppliedIgnoresTarget(f, Applied(f, offset + chunk), n);
  }

  method ApplyOtaToMain(flash: NorFlash, firmwareSize: nat)
    requires flash.cells.Length == TWO_MIB && firmwareSize <= OTA_OFFSET
    modifies flash, flash.cells
    ensures flash.cells[..] == Applied(old(flash.cells[..]), firmwareSize)
    // Cut off after any flash operation, a rerun ends in the same flash.
    ensures |flash.history| >= |old(flash.history)|
    ensures forall k :: |old(flash.history)| <= k < |flash.history| ==>
              Resumable(flash.history[k], old(flash.cells[..]), firmwareSize)
  {
    hide Applied, EraseRange, ProgramRange, TurnData, Resumable;
    ghost var f, h0 := flash.cells[..], |flash.history|;
    var buffer := new byte[SECTOR_SIZE];
    var offset := 0;
    AppliedNothing(f);
    while offset < firmwareSize
      invariant 0 <= offset <= firmwareSize
      invariant offset == firmwareSize || offset % SECTOR_SIZE == 0
      invariant flash.cells[..] == Applied(f, offset)
      invariant |flash.history| >= h0
      invariant forall k :: h0 <= k < |flash.history| ==> Resumable(flash.history[k], f, firmwareSize)
    {
      var chunk := firmwareSize - offset;
      if chunk > SECTOR_SIZE {
        chunk := SECTOR_SIZE;
      }
      TurnIsResumable(f, offset, chunk, firmwareSize);
      SameStagedData(f, flash.cells[..], offset, chunk);
      CopySector(flash, buffer, offset, chunk);
      offset := offset + chunk;
    }
  }
}
