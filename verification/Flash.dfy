// The external NOR flash and its layout. Erasing sets bytes to 0xFF, programming can only clear bits.
module Flash {
  import opened Bytes

  const SECTOR_SIZE: nat := 4096
  const PAGE_SIZE: nat := 256

  function EraseRange(f: seq<byte>, off: nat, n: nat): (g: seq<byte>)
    requires off + n <= |f|
    ensures |g| == |f|
  {
    f[..off] + Ones(n) + f[off + n..]
  }

  function ProgramRange(f: seq<byte>, off: nat, data: seq<byte>): (g: seq<byte>)
    requires off + |data| <= |f|
    ensures |g| == |f|
  {
    seq(|f|, i requires 0 <= i < |f| => if off <= i < off + |data| then f[i] & data[i - off] else f[i])
  }

  lemma AndOnes(x: byte)
    ensures 0xFF & x == x
  {
  }

  // On erased bytes programming stores the data as given.
  lemma ProgramErased(f: seq<byte>, off: nat, data: seq<byte>)
    requires off + |data| <= |f|
    requires forall i :: off <= i < off + |data| ==> f[i] == 0xFF
    ensures ProgramRange(f, off, data) == f[..off] + data + f[off + |data|..]
  {
    var g := ProgramRange(f, off, data);
    forall i | 0 <= i < |f|
      ensures g[i] == (f[..off] + data + f[off + |data|..])[i]
    {
      if off <= i < off + |data| {
        AndOnes(data[i - off]);
      }
    }
  }

  // Erasing a range and programming its first part.
  lemma ErasedThenProgrammed(f: seq<byte>, off: nat, n: nat, data: seq<byte>)
    requires off + n <= |f| && |data| <= n
    ensures ProgramRange(EraseRange(f, off, n), off, data) == f[..off] + data + Ones(n - |data|) + f[off + n..]
  {
    ProgramErased(EraseRange(f, off, n), off, data);
  }

  // The chip. `history` records its contents after every erase and every program operation.
  class NorFlash {
    const cells: array<byte>
    ghost var history: seq<seq<byte>>

    constructor (size: nat)
      ensures cells.Length == size && fresh(cells) && history == []
    {
      cells := new byte[size];
      history := [];
    }

    method RangeErase(off: nat, len: nat)
      requires off % SECTOR_SIZE == 0 && len % SECTOR_SIZE == 0
      requires off + len <= cells.Length
      modifies this, cells
      ensures cells[..] == EraseRange(old(cells[..]), off, len)
      ensures history == old(history) + [cells[..]]
    {
      forall i | off <= i < off + len {
        cells[i] := 0xFF;
      }
      assert cells[..] == EraseRange(old(cells[..]), off, len);
      history := history + [cells[..]];
    }

    method RangeProgram(off: nat, data: seq<byte>)
      requires off % PAGE_SIZE == 0 && |data| % PAGE_SIZE == 0
      requires off + |data| <= cells.Length
      modifies this, cells
      ensures cells[..] == ProgramRange(old(cells[..]), off, data)
      ensures history == old(history) + [cells[..]]
    {
      forall i | off <= i < off + |data| {
        cells[i] := cells[i] & data[i - off];
      }
      assert cells[..] == ProgramRange(old(cells[..]), off, data);
      history := history + [cells[..]];
    }
  }
}

// Region offsets and sizes, all derived from the flash size.
module FlashLayout {
  import opened Flash

  const MAIN_OFFSET: nat := 0x1000

  function OtaOffset(flashSize: nat): nat {
    flashSize / 2
  }

  function OtaSize(flashSize: nat): nat {
    flashSize - OtaOffset(flashSize)
  }

  function MainSize(flashSize: nat): int {
    OtaOffset(flashSize) - MAIN_OFFSET
  }

  function ConfigOffset(flashSize: nat): int {
    OtaOffset(flashSize) - SECTOR_SIZE
  }

  const CONFIG_SIZE: nat := SECTOR_SIZE

  // A part whose two halves are whole numbers of sectors.
  predicate ValidSize(flashSize: nat) {
    flashSize % (2 * SECTOR_SIZE) == 0 && flashSize < 0x1_0000_0000
  }

  lemma SectorAligned(flashSize: nat)
    requires ValidSize(flashSize)
    ensures OtaOffset(flashSize) % SECTOR_SIZE == 0 && OtaSize(flashSize) == OtaOffset(flashSize)
    ensures OtaOffset(flashSize) % PAGE_SIZE == 0
  {
    var k := flashSize / 8192;
    assert flashSize == 8192 * k;
    assert OtaOffset(flashSize) == 4096 * k;
  }

  // Configuration and OTA region are sector aligned and meet without overlap; the OTA region
  // ends with the flash; the nominal main region contains the configuration sector.
  lemma RegionsDisjoint(flashSize: nat)
    requires ValidSize(flashSize) && flashSize >= 4 * SECTOR_SIZE
    ensures ConfigOffset(flashSize) % SECTOR_SIZE == 0 && OtaOffset(flashSize) % SECTOR_SIZE == 0
    ensures MAIN_OFFSET <= ConfigOffset(flashSize)
    ensures ConfigOffset(flashSize) + CONFIG_SIZE == OtaOffset(flashSize) == MAIN_OFFSET + MainSize(flashSize)
    ensures OtaOffset(flashSize) + OtaSize(flashSize) == flashSize && OtaSize(flashSize) % SECTOR_SIZE == 0
  {
    SectorAligned(flashSize);
  }
}
