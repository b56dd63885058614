// The build host's manifest generator.
module ManifestTool {
  import opened Bytes
  import opened Search
  import opened Crc32
  import opened OtaService

  // The 40 bytes of the packed struct.
  function ManifestBlock(m: Manifest): (b: seq<byte>)
    requires |m.version| == VERSION_SIZE
    ensures |b| == MANIFEST_SIZE
  {
    m.version + Le32(m.size) + Le32(m.checksum)
  }

  // Reading the struct back from its bytes.
  lemma ManifestRoundTrip(m: Manifest)
    requires |m.version| == VERSION_SIZE
    ensures ParseManifest(ManifestBlock(m)) == m
  {
    hide Le32, FromLe32;
    var b := ManifestBlock(m);
    assert b[..32] == m.version && b[32..36] == Le32(m.size) && b[36..40] == Le32(m.checksum);
    Le32RoundTrip(m.size);
    Le32RoundTrip(m.checksum);
  }

  // Where the fields stand in the 40 bytes, for the tool and for the device.
  lemma ManifestLayout(m: Manifest, block: seq<byte>)
    requires |m.version| == VERSION_SIZE && |block| == MANIFEST_SIZE
    ensures var b := ManifestBlock(m); b[..32] == m.version && b[32..36] == Le32(m.size) && b[36..] == Le32(m.checksum)
    ensures ParseManifest(block).version == block[..32]
    ensures Le32(ParseManifest(block).size) == block[32..36] && Le32(ParseManifest(block).checksum) == block[36..]
  {
    hide Le32, FromLe32;
    FromLe32RoundTrip(block[32..36]);
    FromLe32RoundTrip(block[36..40]);
  }

  // size is the file length as ftell reports it into a uint32_t.
  method GenManifest(firmware: seq<byte>, versionStr: seq<byte>, size: bv32) returns (block: seq<byte>)
    requires size as nat == |firmware|
    ensures block == ManifestBlock(Manifest(VersionField(versionStr), size, Crc(firmware)))
    ensures ParseManifest(block) == Manifest(VersionField(versionStr), size, Crc(firmware))
  {
    hide ParseManifest, Le32, Crc;
    var checksum := ToolCrc32(firmware);
    var m := Manifest(Zeros(VERSION_SIZE), 0, 0);
    m := m.(version := StrNCpy(CStr(versionStr, 0), VERSION_SIZE));
    m := m.(version := m.version[VERSION_SIZE - 1 := 0]);
    m := m.(size := size);
    m := m.(checksum := checksum);
    block := ManifestBlock(m);
    ManifestRoundTrip(m);
  }
}
