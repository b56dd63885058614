// The persistent configuration: one CRC-protected block in its own flash sector.
module DeviceConfig {
  import opened Bytes
  import opened Search
  import opened Crc32
  import opened CrcDetection
  import opened OnesCrc
  import opened Flash
  import opened FlashLayout

  const BODY_SIZE: nat := 192
  const BLOCK_SIZE: nat := 196

  datatype Config = Config(id: seq<byte>, ssid: seq<byte>, password: seq<byte>, version: seq<byte>, crc: bv32)

  predicate Sized(c: Config) {
    |c.id| == 64 && |c.ssid| == 32 && |c.password| == 64 && |c.version| == 32
  }

  // The bytes the CRC covers, and the whole struct.
  function Body(c: Config): (b: seq<byte>)
    requires Sized(c)
    ensures |b| == BODY_SIZE
  {
    c.id + c.ssid + c.password + c.version
  }

  function Encode(c: Config): (b: seq<byte>)
    requires Sized(c)
    ensures |b| == BLOCK_SIZE
  {
    Body(c) + Le32(c.crc)
  }

  function Decode(b: seq<byte>): (c: Config)
    requires |b| == BLOCK_SIZE
    ensures Sized(c)
  {
    Config(b[..64], b[64..96], b[96..160], b[160..192], FromLe32(b[192..]))
  }

  lemma DecodeEncode(c: Config)
    requires Sized(c)
    ensures Decode(Encode(c)) == c && Encode(c)[..BODY_SIZE] == Body(c)
  {
    hide Le32, FromLe32;
    var b := Encode(c);
    Le32RoundTrip(c.crc);
    assert b[192..] == Le32(c.crc);
    assert b[..64] == c.id && b[64..96] == c.ssid && b[96..160] == c.password && b[160..192] == c.version;
  }

  lemma EncodeDecode(b: seq<byte>)
    requires |b| == BLOCK_SIZE
    ensures Encode(Decode(b)) == b && Body(Decode(b)) == b[..BODY_SIZE]
  {
    hide Le32, FromLe32;
    FromLe32RoundTrip(b[192..]);
    assert b[..64] + b[64..96] + b[96..160] + b[160..192] == b[..192];
  }

  // Where the fields stand in the block.
  lemma BlockLayout(c: Config)
    requires Sized(c)
    ensures var b := Encode(c);
            && b[..64] == c.id && b[64..96] == c.ssid && b[96..160] == c.password && b[160..192] == c.version
            && FromLe32(b[192..]) == c.crc
  {
    hide Le32, FromLe32;
    Le32RoundTrip(c.crc);
    assert Encode(c)[192..] == Le32(c.crc);
  }

  function WithCrc(c: Config): (d: Config)
    requires Sized(c)
    ensures Sized(d) && Body(d) == Body(c)
  {
    c.(crc := Crc(Body(c)))
  }

  // memset(&cfg, 0, sizeof cfg)
  const ZERO: Config := Config(Zeros(64), Zeros(32), Zeros(64), Zeros(32), 0)

  // ---- the store as a function of the flash contents ----

  predicate HasConfig(f: seq<byte>) {
    ValidSize(|f|) && |f| >= 2 * SECTOR_SIZE
  }

  function At(f: seq<byte>): (off: nat)
    requires HasConfig(f)
    ensures off + SECTOR_SIZE <= |f| && off % SECTOR_SIZE == 0 && off % PAGE_SIZE == 0
  {
    SectorAligned(|f|);
    ConfigOffset(|f|)
  }

  function Block(f: seq<byte>): (b: seq<byte>)
    requires HasConfig(f)
    ensures |b| == BLOCK_SIZE
  {
    f[At(f)..At(f) + BLOCK_SIZE]
  }

  predicate Blank(b: seq<byte>) {
    forall i :: 0 <= i < |b| ==> b[i] == 0xFF
  }

  // The check of load_config.
  predicate CrcOk(b: seq<byte>)
    requires |b| == BLOCK_SIZE
  {
    FromLe32(b[BODY_SIZE..]) == Crc(b[..BODY_SIZE])
  }

  function Saved(f: seq<byte>, c: Config): (g: seq<byte>)
    requires HasConfig(f) && Sized(c)
    ensures |g| == |f|
  {
    f[..At(f)] + Encode(WithCrc(c)) + Ones(SECTOR_SIZE - BLOCK_SIZE) + f[At(f) + SECTOR_SIZE..]
  }

  datatype Load = Load(flash: seq<byte>, ok: bool, config: Config)

  // `previous` is what the caller's struct held: a failed load leaves it alone.
  function Loaded(f: seq<byte>, previous: Config): (r: Load)
    requires HasConfig(f) && Sized(previous)
    ensures |r.flash| == |f| && Sized(r.config)
  {
    if Blank(Block(f)) then Load(Saved(f, ZERO), true, WithCrc(ZERO))
    else if CrcOk(Block(f)) then Load(f, true, Decode(Block(f)))
    else Load(f, false, previous)
  }

  // strncmp of a field with a C string, up to the size of the field, finds no difference.
  predicate SameText(field: seq<byte>, text: seq<byte>) {
    var a, b := CStr(field, 0), CStr(text, 0);
    a[..Min(|a|, |field|)] == b[..Min(|b|, |field|)]
  }

  predicate NeedsVersion(c: Config, version: seq<byte>)
    requires Sized(c)
  {
    c.version[0] == 0 || !SameText(c.version, version)
  }

  function Synced(f: seq<byte>, version: seq<byte>, uninitialised: Config): (g: seq<byte>)
    requires HasConfig(f) && Sized(uninitialised)
    ensures |g| == |f|
  {
    var l := Loaded(f, uninitialised);
    if NeedsVersion(l.config, version) then Saved(l.flash, l.config.(version := VersionField(version))) else l.flash
  }

  predicate SyncWrites(f: seq<byte>, version: seq<byte>, uninitialised: Config)
    requires HasConfig(f) && Sized(uninitialised)
  {
    Blank(Block(f)) || NeedsVersion(Loaded(f, uninitialised).config, version)
  }

  // The portal copies one byte less than each field holds, so the last byte stays.
  function WithCredentials(c: Config, ssid: seq<byte>, password: seq<byte>): (d: Config)
    requires Sized(c)
    ensures Sized(d)
  {
    c.(ssid := StrNCpy(CStr(ssid, 0), 31) + c.ssid[31..], password := StrNCpy(CStr(password, 0), 63) + c.password[63..])
  }

  function PortalSaved(f: seq<byte>, ssid: seq<byte>, password: seq<byte>): (g: seq<byte>)
    requires HasConfig(f)
    ensures |g| == |f|
  {
    var l := Loaded(f, ZERO);
    Saved(l.flash, WithCredentials(l.config, ssid, password))
  }

  // The identifier the server assigned, cut to 63 bytes and terminated; what lies behind it stays.
  function WithId(c: Config, id: seq<byte>): (d: Config)
    requires Sized(c)
    ensures Sized(d)
  {
    var text := CStr(id, 0);
    var n := Min(|text|, 63);
    c.(id := text[..n] + [0] + c.id[n + 1..])
  }

  // Erasing the sector and programming the page is a save.
  lemma PageSaves(f: seq<byte>, c: Config, page: seq<byte>)
    requires HasConfig(f) && Sized(c)
    requires page == Encode(WithCrc(c)) + Ones(PAGE_SIZE)[BLOCK_SIZE..]
    ensures ProgramRange(EraseRange(f, At(f), SECTOR_SIZE), At(f), page) == Saved(f, c)
  {
    hide Encode, WithCrc, ProgramRange, EraseRange;
    ErasedThenProgrammed(f, At(f), SECTOR_SIZE, page);
    assert Ones(PAGE_SIZE)[BLOCK_SIZE..] + Ones(SECTOR_SIZE - PAGE_SIZE) == Ones(SECTOR_SIZE - BLOCK_SIZE);
    assert page + Ones(SECTOR_SIZE - PAGE_SIZE) == Encode(WithCrc(c)) + Ones(SECTOR_SIZE - BLOCK_SIZE);
  }

  // ---- the store as the firmware runs it ----

  class Store {
    const flash: NorFlash

    ghost predicate Valid() {
      ValidSize(flash.cells.Length) && flash.cells.Length >= 2 * SECTOR_SIZE
    }

    constructor (flash: NorFlash)
      requires ValidSize(flash.cells.Length) && flash.cells.Length >= 2 * SECTOR_SIZE
      ensures Valid() && this.flash == flash
    {
      this.flash := flash;
    }

    method IsFlashErased() returns (erased: bool)
      requires Valid()
      ensures erased <==> Blank(Block(flash.cells[..]))
    {
      var off := ConfigOffset(flash.cells.Length);
      SectorAligned(flash.cells.Length);
      ghost var b := Block(flash.cells[..]);
      var i := 0;
      while i < BLOCK_SIZE
        invariant 0 <= i <= BLOCK_SIZE
        invariant forall k :: 0 <= k < i ==> b[k] == 0xFF
      {
        assert b[i] == flash.cells[off + i];
        if flash.cells[off + i] != 0xFF {
          return false;
        }
        i := i + 1;
      }
      return true;
    }

    // One erase and one page program, nothing outside the configuration sector.
    method SaveConfig(cfg: Config)
      requires Valid() && Sized(cfg)
      modifies flash, flash.cells
      ensures flash.cells[..] == Saved(old(flash.cells[..]), cfg)
      ensures |flash.history| == |old(flash.history)| + 2
    {
      hide Crc, Encode, EraseRange, ProgramRange, Saved;
      ghost var f := flash.cells[..];
      var crc := DeviceCrc32(Body(cfg));
      var temp := cfg.(crc := crc);
      var page := Ones(PAGE_SIZE);
      page := Encode(temp) + page[BLOCK_SIZE..];
      SectorAligned(flash.cells.Length);
      var offset := ConfigOffset(flash.cells.Length);
      flash.RangeErase(offset, CONFIG_SIZE);
      flash.RangeProgram(offset, page);
      PageSaves(f, cfg, page);
    }

    method LoadConfig(previous: Config) returns (ok: bool, out: Config)
      requires Valid() && Sized(previous)
      modifies flash, flash.cells
      ensures Load(flash.cells[..], ok, out) == Loaded(old(flash.cells[..]), previous)
      ensures flash.history == old(flash.history) <==> !Blank(Block(old(flash.cells[..])))
      ensures |flash.history| >= |old(flash.history)|
    {
      hide Crc, Le32, FromLe32;
      var erased := IsFlashErased();
      if erased {
        out := ZERO;
        var crc := DeviceCrc32(Body(out));
        out := out.(crc := crc);
        SaveConfig(out);
        return true, out;
      }
      SectorAligned(flash.cells.Length);
      var off := ConfigOffset(flash.cells.Length);
      var stored := flash.cells[off..off + BLOCK_SIZE];
      assert stored == Block(flash.cells[..]);
      var expected := DeviceCrc32(stored[..BODY_SIZE]);
      if expected != FromLe32(stored[BODY_SIZE..]) {
        return false, previous;
      }
      return true, Decode(stored);
    }

    method SyncConfigVersion(firmwareVersion: seq<byte>, uninitialised: Config)
      requires Valid() && Sized(uninitialised)
      modifies flash, flash.cells
      ensures flash.cells[..] == Synced(old(flash.cells[..]), firmwareVersion, uninitialised)
      ensures flash.history == old(flash.history) <==> !SyncWrites(old(flash.cells[..]), firmwareVersion, uninitialised)
    {
      hide Saved, CrcOk, Block, Decode, SameText, VersionField;
      var ok, cfg := LoadConfig(uninitialised);
      if !ok {
        ok, cfg := LoadConfig(cfg);
      }
      if cfg.version[0] == 0 || !SameText(cfg.version, firmwareVersion) {
        cfg := cfg.(version := VersionField(firmwareVersion));
        SaveConfig(cfg);
      }
    }

    method SavePortal(ssid: seq<byte>, password: seq<byte>)
      requires Valid()
      modifies flash, flash.cells
      ensures flash.cells[..] == PortalSaved(old(flash.cells[..]), ssid, password)
    {
      hide Saved, CrcOk, Block, Decode;
      var ok, cfg := LoadConfig(ZERO);
      cfg := cfg.(ssid := StrNCpy(CStr(ssid, 0), 31) + cfg.ssid[31..]);
      cfg := cfg.(password := StrNCpy(CStr(password, 0), 63) + cfg.password[63..]);
      SaveConfig(cfg);
    }

    // The end of send_measurement_flow: a response may bring an identifier.
    method AssignId(cfg: Config, deviceId: Option<seq<byte>>)
      requires Valid() && Sized(cfg)
      modifies flash, flash.cells
      ensures flash.cells[..] ==
              if deviceId.Some? && cfg.id[0] == 0 then Saved(old(flash.cells[..]), WithId(cfg, deviceId.value))
              else old(flash.cells[..])
    {
      hide Saved;
      if deviceId.Some? && cfg.id[0] == 0 {
        var text := CStr(deviceId.value, 0);
        var copyLen := |text|;
        if copyLen >= 64 {
          copyLen := 63;
        }
        var newCfg := cfg.(id := text[..copyLen] + cfg.id[copyLen..]);
        newCfg := newCfg.(id := newCfg.id[copyLen := 0]);
        assert newCfg.id == text[..copyLen] + [0] + cfg.id[copyLen + 1..];
        SaveConfig(newCfg);
      }
    }
  }

  // ---- save and load ----

  // A save writes its block, and nothing outside the configuration sector.
  lemma SavedBlock(f: seq<byte>, c: Config)
    requires HasConfig(f) && Sized(c)
    ensures var g := Saved(f, c);
            && HasConfig(g) && At(g) == At(f) && Block(g) == Encode(WithCrc(c))
            && g[..At(f)] == f[..At(f)] && g[At(f) + SECTOR_SIZE..] == f[At(f) + SECTOR_SIZE..]
            && g[At(f) + BLOCK_SIZE..At(f) + SECTOR_SIZE] == Ones(SECTOR_SIZE - BLOCK_SIZE)
  {
    hide Encode, WithCrc;
    var g := Saved(f, c);
    assert g[At(f)..At(f) + BLOCK_SIZE] == Encode(WithCrc(c));
  }

  lemma SavedPassesCrc(c: Config)
    requires Sized(c)
    ensures CrcOk(Encode(WithCrc(c)))
  {
    hide Crc, Le32, FromLe32;
    var d := WithCrc(c);
    DecodeEncode(d);
    assert Encode(d)[BODY_SIZE..] == Le32(d.crc);
    Le32RoundTrip(d.crc);
  }

  // A block that was saved never looks like erased flash.
  lemma NeverBlank(c: Config)
    requires Sized(c)
    ensures !Blank(Encode(WithCrc(c)))
  {
    hide Crc, Le32, FromLe32;
    var d := WithCrc(c);
    var b := Encode(d);
    if Blank(b) {
      DecodeEncode(d);
      assert b[..BODY_SIZE] == Ones(192);
      assert b[192..] == Ones(4);
      OnesRead();
      OnesFailTheCrc();
      assert false;
    }
  }

  lemma OnesRead()
    ensures FromLe32(Ones(4)) == 0xFFFFFFFF
  {
    WordOfOnes(Ones(4)[0]);
  }

  // Loading after a save returns the saved fields, with the right CRC and without touching the flash.
  lemma LoadAfterSave(f: seq<byte>, c: Config, previous: Config)
    requires HasConfig(f) && Sized(c) && Sized(previous)
    ensures Loaded(Saved(f, c), previous) == Load(Saved(f, c), true, WithCrc(c))
  {
    hide Saved, Encode, CrcOk, Decode, Body;
    SavedBlock(f, c);
    SavedPassesCrc(c);
    NeverBlank(c);
    DecodeEncode(WithCrc(c));
  }

  // Saving what the block holds gives the same block back if and only if the block passes the check.
  lemma SaveAfterLoad(f: seq<byte>)
    requires HasConfig(f)
    ensures Block(Saved(f, Decode(Block(f)))) == Block(f) <==> CrcOk(Block(f))
  {
    hide Crc, Le32, FromLe32, Saved, Block;
    var b := Block(f);
    var c := Decode(b);
    SavedBlock(f, c);
    EncodeDecode(b);
    DecodeEncode(WithCrc(c));
  }

  // ---- corruption ----

  // Two blocks that both pass the check and differ only inside 32 consecutive bits, in the CRC's bit
  // order and CRC field included, are equal.
  lemma BurstInBlockDetected(a: seq<byte>, b: seq<byte>, at: nat, width: nat)
    requires |a| == |b| == BLOCK_SIZE && CrcOk(a) && CrcOk(b)
    requires DifferInBurst(Bits(a), Bits(b), at, width)
    ensures a == b
  {
    hide Crc, Reg, Bits, FromLe32, Iter;
    CrcMatchesIffResidue(a[..BODY_SIZE], a[BODY_SIZE..]);
    CrcMatchesIffResidue(b[..BODY_SIZE], b[BODY_SIZE..]);
    assert a[..BODY_SIZE] + a[BODY_SIZE..] == a && b[..BODY_SIZE] + b[BODY_SIZE..] == b;
    BurstDetected(INIT, a, b, at, width);
  }

  // In particular no change of up to four consecutive bytes passes.
  lemma FourBytesDetected(a: seq<byte>, b: seq<byte>, k: nat)
    requires |a| == |b| == BLOCK_SIZE && CrcOk(a) && CrcOk(b)
    requires k + 4 <= BLOCK_SIZE && a[..k] == b[..k] && a[k + 4..] == b[k + 4..]
    ensures a == b
  {
    hide Crc, Bits, CrcOk;
    FourBytesAreABurst(a, b, k);
    BurstInBlockDetected(a, b, 8 * k, 32);
  }
}
