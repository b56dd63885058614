// Staging the downloaded image in the OTA region, and copying it over the running image.
module FlashWriter {
  import opened Bytes
  import opened Flash
  import opened FlashLayout

  const UNSET: nat := 0xFFFFFFFF

  // uint32_t subtraction.
  function Sub32(a: nat, b: nat): nat
    requires a < WORD && b < WORD
  {
    if a >= b then a - b else a - b + WORD
  }

  lemma ProgramAbove(f: seq<byte>, base: nat, at: nat, data: seq<byte>)
    requires base + at + |data| <= |f|
    ensures ProgramRange(f, base + at, data)[base..] == ProgramRange(f[base..], at, data)
    ensures ProgramRange(f, base + at, data)[..base] == f[..base]
  {
  }

  lemma EraseNothing(f: seq<byte>, base: nat)
    requires base <= |f|
    ensures EraseRange(f, base, 0) == f
  {
  }

  lemma SectorAddress(base: nat, i: nat, size: nat)
    requires base % SECTOR_SIZE == 0 && i < size / SECTOR_SIZE
    ensures (base + i * SECTOR_SIZE) % SECTOR_SIZE == 0 && (i + 1) * SECTOR_SIZE <= size
  {
  }

  lemma PageAddress(base: nat, at: nat)
    requires base % PAGE_SIZE == 0 && at % PAGE_SIZE == 0
    ensures (base + at) % PAGE_SIZE == 0
  {
  }

  lemma WholeSectors(size: nat)
    requires size % SECTOR_SIZE == 0
    ensures size / SECTOR_SIZE * SECTOR_SIZE == size
  {
  }

  // Erasing the sector behind an erased range.
  lemma EraseNext(f: seq<byte>, base: nat, done: nat, n: nat)
    requires base + done + n <= |f|
    ensures EraseRange(EraseRange(f, base, done), base + done, n) == EraseRange(f, base, done + n)
  {
  }

  lemma ErasedAbove(f: seq<byte>, base: nat)
    requires base <= |f|
    ensures EraseRange(f, base, |f| - base)[base..] == Ones(|f| - base)
    ensures EraseRange(f, base, |f| - base)[..base] == f[..base]
  {
  }

  class Writer {
    const flash: NorFlash
    // The static of write_chunk: the first offset it was ever called with.
    var baseOffset: nat
    // Region offsets programmed since the region was last erased, in order.
    ghost var programmed: seq<nat>

    ghost predicate Valid()
      reads this
    {
      baseOffset < WORD && ValidSize(flash.cells.Length)
    }

    ghost function Base(): nat {
      OtaOffset(flash.cells.Length)
    }

    // What the OTA region holds.
    ghost function Region(): (r: seq<byte>)
      reads flash.cells
      ensures |r| == OtaSize(flash.cells.Length)
    {
      flash.cells[Base()..]
    }

    constructor (flash: NorFlash)
      requires ValidSize(flash.cells.Length)
      ensures Valid() && this.flash == flash && baseOffset == UNSET && programmed == []
    {
      this.flash := flash;
      baseOffset := UNSET;
      programmed := [];
    }

    method EraseRegion() returns (ok: bool)
      requires Valid()
      modifies this`programmed, flash, flash.cells
      ensures Valid()
      ensures ok <==> Base() > 0
      ensures ok ==> Region() == Ones(OtaSize(flash.cells.Length)) && programmed == []
      ensures !ok ==> flash.cells[..] == old(flash.cells[..])
      ensures flash.cells[..Base()] == old(flash.cells[..Base()])
    {
      hide EraseRange, ValidSize;
      var base := OtaOffset(flash.cells.Length);
      var size := OtaSize(flash.cells.Length);
      SectorAligned(flash.cells.Length);
      if base == 0 || size == 0 {
        return false;
      }
      var count := size / SECTOR_SIZE;
      var i := 0;
      EraseNothing(flash.cells[..], base);
      while i < count
        invariant 0 <= i <= count && i * SECTOR_SIZE <= size
        invariant flash.cells[..] == EraseRange(old(flash.cells[..]), base, i * SECTOR_SIZE)
      {
        var addr := base + i * SECTOR_SIZE;
        SectorAddress(base, i, size);
        flash.RangeErase(addr, SECTOR_SIZE);
        EraseNext(old(flash.cells[..]), base, i * SECTOR_SIZE, SECTOR_SIZE);
        i := i + 1;
      }
      WholeSectors(size);
      ErasedAbove(old(flash.cells[..]), base);
      programmed := [];
      return true;
    }

    // The region-relative offset of a write.
    function Normalized(offset: nat): nat
      reads this
      requires Valid() && offset < WORD
    {
      Sub32(offset, if baseOffset == UNSET then offset else baseOffset)
    }

    method WriteChunk(offset: nat, data: seq<byte>) returns (ok: bool)
      requires Valid() && offset < WORD
      requires Normalized(offset) + |data| < WORD  // the 32-bit sum does not wrap
      modifies this, flash, flash.cells
      ensures Valid()
      ensures Base() > 0 ==> baseOffset == (if old(baseOffset) == UNSET then offset else old(baseOffset))
      ensures var at := old(Normalized(offset));
              && (ok <==> && Base() > 0 && at + |data| <= OtaSize(flash.cells.Length)
                          && at % PAGE_SIZE == 0 && |data| % PAGE_SIZE == 0)
              && (ok ==> Region() == ProgramRange(old(Region()), at, data) && programmed == old(programmed) + [at])
              && (!ok ==> Region() == old(Region()) && programmed == old(programmed))
      ensures flash.cells[..Base()] == old(flash.cells[..Base()])
    {
      hide ProgramRange, ValidSize;
      var base := OtaOffset(flash.cells.Length);
      var size := OtaSize(flash.cells.Length);
      SectorAligned(flash.cells.Length);
      if base == 0 || size == 0 {
        return false;
      }
      if baseOffset == UNSET {
        baseOffset := offset;
      }
      var normalized := Sub32(offset, baseOffset);
      if normalized + |data| > size {
        return false;
      }
      if normalized % PAGE_SIZE != 0 || |data| % PAGE_SIZE != 0 {
        return false;
      }
      ghost var before := flash.cells[..];
      PageAddress(base, normalized);
      flash.RangeProgram(base + normalized, data);
      ProgramAbove(before, base, normalized, data);
      programmed := programmed + [normalized];
      return true;
    }
  }
}
