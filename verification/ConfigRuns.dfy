// The configuration over whole sequences of boots.
module ConfigRuns {
  import opened Bytes
  import opened Search
  import opened Crc32
  import opened Flash
  import opened FlashLayout
  import opened DeviceConfig
  import opened ApplyUpdate

  // What writes the flash: a measurement cycle (version sync, load, and the identifier of the server's
  // response if there is one), a portal save, a plain load, or an update, which leaves something in the
  // OTA region and copies its first `size` bytes over the main one (none if the download failed).
  datatype Event =
    | Cycle(version: seq<byte>, uninitialised: Config, deviceId: Option<seq<byte>>)
    | Portal(ssid: seq<byte>, password: seq<byte>)
    | PlainLoad(previous: Config)
    | Update(staged: seq<byte>, size: nat)

  // An update comes on a 2 MiB part, and its image stops below the configuration sector.
  predicate Proper(e: Event, flashSize: nat) {
    match e
    case Cycle(_, uninitialised, _) => Sized(uninitialised)
    case Portal(_, _) => true
    case PlainLoad(previous) => Sized(previous)
    case Update(staged, size) =>
      && flashSize == TWO_MIB && |staged| == OTA_OFFSET && size <= OTA_OFFSET
      && RoundUp(size, SECTOR_SIZE) <= ConfigOffset(flashSize)
  }

  function Cycled(f: seq<byte>, version: seq<byte>, uninitialised: Config, deviceId: Option<seq<byte>>): (g: seq<byte>)
    requires HasConfig(f) && Sized(uninitialised)
    ensures |g| == |f|
  {
    var l := Loaded(Synced(f, version, uninitialised), ZERO);
    if deviceId.Some? && l.config.id[0] == 0 then Saved(l.flash, WithId(l.config, deviceId.value)) else l.flash
  }

  // app_main_run_cycle, as far as the configuration goes.
  method RunCycle(store: Store, version: seq<byte>, uninitialised: Config, deviceId: Option<seq<byte>>)
    requires store.Valid() && Sized(uninitialised)
    modifies store.flash, store.flash.cells
    ensures store.flash.cells[..] == Cycled(old(store.flash.cells[..]), version, uninitialised, deviceId)
  {
    hide Loaded, Synced, Saved, WithId;
    store.SyncConfigVersion(version, uninitialised);
    var ok, cfg := store.LoadConfig(ZERO);
    store.AssignId(cfg, deviceId);
  }

  function Updated(f: seq<byte>, staged: seq<byte>, size: nat): (g: seq<byte>)
    requires |f| == TWO_MIB && |staged| == OTA_OFFSET && size <= OTA_OFFSET
    ensures |g| == |f|
  {
    Applied(f[..OTA_OFFSET] + staged, size)
  }

  function After(f: seq<byte>, e: Event): (g: seq<byte>)
    requires HasConfig(f) && Proper(e, |f|)
    ensures |g| == |f|
  {
    match e
    case Cycle(version, uninitialised, deviceId) => Cycled(f, version, uninitialised, deviceId)
    case Portal(ssid, password) => PortalSaved(f, ssid, password)
    case PlainLoad(previous) => Loaded(f, previous).flash
    case Update(staged, size) => Updated(f, staged, size)
  }

  function Run(f: seq<byte>, events: seq<Event>): (g: seq<byte>)
    requires HasConfig(f) && forall e | e in events :: Proper(e, |f|)
    ensures |g| == |f|
    decreases events
  {
    if events == [] then f else Run(After(f, events[0]), events[1..])
  }

  // Every text field ends in a terminator.
  predicate Terminated(c: Config)
    requires Sized(c)
  {
    c.id[63] == 0 && c.ssid[31] == 0 && c.password[63] == 0 && c.version[31] == 0
  }

  // Never written, or a block that passes the check and holds terminated fields.
  ghost predicate Sound(f: seq<byte>)
    requires HasConfig(f)
  {
    Blank(Block(f)) || (CrcOk(Block(f)) && Terminated(Decode(Block(f))))
  }

  // The configuration a load would return.
  function Current(f: seq<byte>): (c: Config)
    requires HasConfig(f)
    ensures Sized(c)
  {
    Loaded(f, ZERO).config
  }

  // Saving terminated fields leaves a sound store that holds them.
  lemma SaveIsSound(f: seq<byte>, c: Config)
    requires HasConfig(f) && Sized(c) && Terminated(c)
    ensures var g := Saved(f, c);
            && HasConfig(g) && Sound(g) && !Blank(Block(g)) && Current(g) == WithCrc(c)
            && forall p: Config | Sized(p) :: Loaded(g, p) == Load(g, true, WithCrc(c))
  {
    hide Encode, CrcOk, Crc;
    SavedBlock(f, c);
    SavedPassesCrc(c);
    DecodeEncode(WithCrc(c));
    NeverBlank(c);
  }

  // A load from a sound store succeeds, whatever the caller's struct held, and leaves a sound store.
  lemma LoadIsSound(f: seq<byte>, previous: Config)
    requires HasConfig(f) && Sound(f) && Sized(previous)
    ensures var l := Loaded(f, previous);
            && l.ok && HasConfig(l.flash) && Sound(l.flash) && Terminated(l.config) && !Blank(Block(l.flash))
            && l.config == Current(f) && Current(l.flash) == l.config
  {
    hide Saved, Encode, CrcOk, Decode, Crc, WithCrc;
    if Blank(Block(f)) {
      SaveIsSound(f, ZERO);
      ZeroWithCrc();
    }
  }

  lemma ZeroWithCrc()
    ensures Terminated(WithCrc(ZERO)) && WithCrc(WithCrc(ZERO)) == WithCrc(ZERO)
  {
    hide Crc;
  }

  lemma SyncIsSound(f: seq<byte>, version: seq<byte>, uninitialised: Config)
    requires HasConfig(f) && Sound(f) && Sized(uninitialised)
    ensures var g := Synced(f, version, uninitialised);
            && HasConfig(g) && Sound(g) && !Blank(Block(g)) && Current(g).id == Current(f).id
            && g == Synced(f, version, ZERO)
  {
    hide Saved, Loaded, Block, CrcOk, Decode, Crc, SameText, VersionField;
    LoadIsSound(f, uninitialised);
    LoadIsSound(f, ZERO);
    var l := Loaded(f, uninitialised);
    SaveIsSound(l.flash, l.config.(version := VersionField(version)));
    SameLoad(f, uninitialised, ZERO);
  }

  // What the caller's struct held is looked at exactly when a block that is not erased fails the check;
  // on a sound store it never is.
  lemma SameLoad(f: seq<byte>, u: Config, v: Config)
    requires HasConfig(f) && Sized(u) && Sized(v)
    ensures Loaded(f, u) == Loaded(f, v) <==> u == v || Blank(Block(f)) || CrcOk(Block(f))
    ensures Sound(f) ==> Loaded(f, u) == Loaded(f, v)
  {
    hide Saved, CrcOk, Decode, Block;
  }

  lemma CredentialsTerminated(c: Config, ssid: seq<byte>, password: seq<byte>)
    requires Sized(c) && Terminated(c)
    ensures Terminated(WithCredentials(c, ssid, password))
  {
  }

  lemma IdTerminated(c: Config, id: seq<byte>)
    requires Sized(c) && Terminated(c)
    ensures Terminated(WithId(c, id))
  {
  }

  // An update whose image stops below the configuration sector keeps identifier, credentials and version.
  lemma UpdateKeepsConfig(f: seq<byte>, staged: seq<byte>, size: nat)
    requires |f| == TWO_MIB && HasConfig(f) && Proper(Update(staged, size), |f|)
    ensures var g := Updated(f, staged, size);
            HasConfig(g) && Block(g) == Block(f) && Current(g) == Current(f) && (Sound(f) ==> Sound(g))
  {
    hide Applied, RoundUp, CrcOk, Decode, Saved;
    var h, g, c := f[..OTA_OFFSET] + staged, Updated(f, staged, size), At(f);
    AppliedTail(h, size, c);
    assert Block(f) == Block(h) == h[c..][..BLOCK_SIZE];
    assert Block(g) == g[c..][..BLOCK_SIZE];
  }

  // One event: the store stays sound, and an identifier once set stays.
  lemma EventIsSound(f: seq<byte>, e: Event)
    requires HasConfig(f) && Proper(e, |f|) && Sound(f)
    ensures var g := After(f, e);
            && HasConfig(g) && Sound(g)
            && (Current(f).id[0] != 0 ==> Current(g).id == Current(f).id)
  {
    hide Saved, Loaded, Block, CrcOk, Decode, Crc, Synced, WithCredentials, WithId, Terminated;
    match e {
      case Cycle(version, uninitialised, deviceId) =>
        var s := Synced(f, version, uninitialised);
        SyncIsSound(f, version, uninitialised);
        LoadIsSound(s, ZERO);
        var l := Loaded(s, ZERO);
        if deviceId.Some? {
          IdTerminated(l.config, deviceId.value);
          SaveIsSound(l.flash, WithId(l.config, deviceId.value));
        }
      case Portal(ssid, password) =>
        LoadIsSound(f, ZERO);
        var l := Loaded(f, ZERO);
        CredentialsTerminated(l.config, ssid, password);
        SaveIsSound(l.flash, WithCredentials(l.config, ssid, password));
        IdUntouched(l.config, ssid, password);
      case PlainLoad(previous) =>
        LoadIsSound(f, previous);
      case Update(staged, size) =>
        UpdateKeepsConfig(f, staged, size);
    }
  }

  lemma IdUntouched(c: Config, ssid: seq<byte>, password: seq<byte>)
    requires Sized(c)
    ensures WithCrc(WithCredentials(c, ssid, password)).id == c.id
  {
  }

  // Over every run: the store stays sound, so every load succeeds with terminated fields,
  // and a device identifier, once not empty, never changes.
  lemma {:induction false} RunIsSound(f: seq<byte>, events: seq<Event>, previous: Config)
    requires HasConfig(f) && Sound(f) && Sized(previous)
    requires forall e | e in events :: Proper(e, |f|)
    ensures var g := Run(f, events);
            && HasConfig(g) && Sound(g)
            && Loaded(g, previous).ok && Terminated(Loaded(g, previous).config)
            && (Current(f).id[0] != 0 ==> Current(g).id == Current(f).id)
    decreases events
  {
    hide Loaded, After, Sound, Terminated, Block;
    if events == [] {
      LoadIsSound(f, previous);
    } else {
      EventIsSound(f, events[0]);
      RunIsSound(After(f, events[0]), events[1..], previous);
    }
  }

  // A measurement cycle leaves the credentials alone, and the version as the sync at its start left it.
  lemma CycleKeepsCredentials(f: seq<byte>, version: seq<byte>, uninitialised: Config, deviceId: Option<seq<byte>>)
    requires HasConfig(f) && Sound(f) && Sized(uninitialised)
    ensures var c, d := Current(f), Current(Cycled(f, version, uninitialised, deviceId));
            && d.ssid == c.ssid && d.password == c.password
            && d.version == Current(Synced(f, version, uninitialised)).version
  {
    hide Saved, Block, CrcOk, Decode, Crc, CStr;
    LoadIsSound(f, uninitialised);
    var l := Loaded(f, uninitialised);
    SaveIsSound(l.flash, l.config.(version := VersionField(version)));
    var s := Synced(f, version, uninitialised);
    SyncIsSound(f, version, uninitialised);
    LoadIsSound(s, ZERO);
    var c := Loaded(s, ZERO);
    if deviceId.Some? {
      IdTerminated(c.config, deviceId.value);
      SaveIsSound(c.flash, WithId(c.config, deviceId.value));
    }
  }

  // Only a portal save changes the credentials, and only a cycle the version or the identifier.
  lemma EventKeepsFields(f: seq<byte>, e: Event)
    requires HasConfig(f) && Proper(e, |f|) && Sound(f)
    ensures var c, d := Current(f), Current(After(f, e));
            && (!e.Portal? ==> d.ssid == c.ssid && d.password == c.password)
            && (!e.Cycle? ==> d.version == c.version && d.id == c.id)
  {
    hide Saved, Loaded, Block, CrcOk, Decode, Crc, Synced, WithId, CStr, StrNCpy, Current;
    match e {
      case Cycle(version, uninitialised, deviceId) =>
        CycleKeepsCredentials(f, version, uninitialised, deviceId);
      case Portal(ssid, password) =>
        PortalStores(f, ssid, password);
      case PlainLoad(previous) =>
        LoadIsSound(f, previous);
      case Update(staged, size) =>
        UpdateKeepsConfig(f, staged, size);
    }
  }

  // Over every run without a portal save the credentials stay, and without a cycle version and identifier.
  lemma {:induction false} RunKeepsFields(f: seq<byte>, events: seq<Event>)
    requires HasConfig(f) && Sound(f)
    requires forall e | e in events :: Proper(e, |f|)
    ensures var c, d := Current(f), Current(Run(f, events));
            && ((forall e | e in events :: !e.Portal?) ==> d.ssid == c.ssid && d.password == c.password)
            && ((forall e | e in events :: !e.Cycle?) ==> d.version == c.version && d.id == c.id)
    decreases events
  {
    hide After, Sound, Current, Proper;
    if events != [] {
      assert events[0] in events;
      EventIsSound(f, events[0]);
      EventKeepsFields(f, events[0]);
      RunKeepsFields(After(f, events[0]), events[1..]);
    }
  }

  lemma {:induction false} RunConcat(f: seq<byte>, a: seq<Event>, b: seq<Event>)
    requires HasConfig(f)
    requires forall e | e in a + b :: Proper(e, |f|)
    ensures HasConfig(Run(f, a)) && Run(f, a + b) == Run(Run(f, a), b)
    decreases a
  {
    hide After, Proper;
    if a == [] {
      assert a + b == b;
    } else {
      assert (a + b)[1..] == a[1..] + b;
      assert a[0] in a + b;
      RunConcat(After(f, a[0]), a[1..], b);
    }
  }

  // Runs start from an erased configuration sector, whatever the rest of the flash holds. At every point
  // the store is sound, a load succeeds with terminated fields, and an identifier found there stays.
  lemma RunFromErasedSector(f: seq<byte>, events: seq<Event>, more: seq<Event>, previous: Config)
    requires HasConfig(f) && Blank(Block(f)) && Sized(previous)
    requires forall e | e in events + more :: Proper(e, |f|)
    ensures var g := Run(f, events);
            && HasConfig(g) && Sound(g) && Loaded(g, previous).ok && Terminated(Loaded(g, previous).config)
            && (Current(g).id[0] != 0 ==> Current(Run(f, events + more)).id == Current(g).id)
  {
    hide Loaded, Terminated, Run, Proper, Block, CrcOk, Decode;
    RunIsSound(f, events, previous);
    RunIsSound(Run(f, events), more, previous);
    RunConcat(f, events, more);
  }

  // ---- what the writers leave ----

  lemma FieldText(text: seq<byte>, n: nat, tail: seq<byte>)
    requires 0 !in text && tail == [0]
    ensures CStr(StrNCpy(text, n) + tail, 0) == text[..Min(|text|, n)]
  {
    var k := Min(|text|, n);
    var s := StrNCpy(text, n) + tail;
    assert s[..k] == text[..k];
    assert 0 !in text[..k];
    CStrIs(s, 0, k);
  }

  // After a portal save a load returns the given credentials, cut to 31 and 63 bytes, and all else as before.
  lemma PortalStores(f: seq<byte>, ssid: seq<byte>, password: seq<byte>)
    requires HasConfig(f) && Sound(f)
    ensures var c, d := Current(f), Current(PortalSaved(f, ssid, password));
            && CStr(d.ssid, 0) == CStr(ssid, 0)[..Min(|CStr(ssid, 0)|, 31)]
            && CStr(d.password, 0) == CStr(password, 0)[..Min(|CStr(password, 0)|, 63)]
            && d.id == c.id && d.version == c.version
  {
    hide Saved, Loaded, Block, CrcOk, Decode, Crc, CStr, StrNCpy;
    LoadIsSound(f, ZERO);
    var l := Loaded(f, ZERO);
    CredentialsTerminated(l.config, ssid, password);
    SaveIsSound(l.flash, WithCredentials(l.config, ssid, password));
    FieldText(CStr(ssid, 0), 31, l.config.ssid[31..]);
    FieldText(CStr(password, 0), 63, l.config.password[63..]);
  }

  // After a sync the stored version reads as the running one, cut to 31 characters.
  lemma SyncStoresVersion(f: seq<byte>, version: seq<byte>, uninitialised: Config)
    requires HasConfig(f) && Sound(f) && Sized(uninitialised)
    ensures CStr(Current(Synced(f, version, uninitialised)).version, 0) ==
            CStr(version, 0)[..Min(|CStr(version, 0)|, 31)]
  {
    hide Saved, Loaded, Block, CrcOk, Decode, Crc, CStr, VersionField, Blank, Sound;
    LoadIsSound(f, uninitialised);
    var l := Loaded(f, uninitialised);
    if NeedsVersion(l.config, version) {
      SaveIsSound(l.flash, l.config.(version := VersionField(version)));
      VersionFieldText(version);
    } else {
      SameTextShort(l.config.version, version);
      ShortField(l.config.version);
      var a, b := CStr(l.config.version, 0), CStr(version, 0);
      assert a[..Min(|a|, 32)] == a && b[..Min(|b|, 32)] == b && b[..Min(|b|, 31)] == b;
    }
  }

  // The first identifier a response brings is the one that is kept.
  lemma FirstIdStored(f: seq<byte>, version: seq<byte>, uninitialised: Config, id: seq<byte>)
    requires HasConfig(f) && Sound(f) && Sized(uninitialised)
    ensures Current(f).id[0] == 0 ==>
              CStr(Current(Cycled(f, version, uninitialised, Some(id))).id, 0) == CStr(id, 0)[..Min(|CStr(id, 0)|, 63)]
  {
    hide Saved, Loaded, Block, CrcOk, Decode, Crc, Synced, CStr;
    var s := Synced(f, version, uninitialised);
    SyncIsSound(f, version, uninitialised);
    LoadIsSound(s, ZERO);
    var l := Loaded(s, ZERO);
    IdTerminated(l.config, id);
    SaveIsSound(l.flash, WithId(l.config, id));
    IdText(l.config, id);
  }

  lemma IdText(c: Config, id: seq<byte>)
    requires Sized(c)
    ensures CStr(WithId(c, id).id, 0) == CStr(id, 0)[..Min(|CStr(id, 0)|, 63)]
  {
    var text := CStr(id, 0);
    var n := Min(|text|, 63);
    assert WithId(c, id).id[..n] == text[..n];
    assert 0 !in text[..n];
    CStrIs(WithId(c, id).id, 0, n);
  }

  // ---- wear ----

  lemma SameTextAsField(version: seq<byte>)
    ensures SameText(VersionField(version), version) <==> |CStr(version, 0)| <= 31
    ensures VersionField(version)[0] == 0 <==> CStr(version, 0) == []
  {
    hide CStr, VersionField;
    VersionFieldText(version);
    FieldStart(VersionField(version));
  }

  lemma FieldStart(field: seq<byte>)
    requires |field| == 32
    ensures field[0] == 0 <==> CStr(field, 0) == []
    ensures |CStr(field, 0)| <= 32
  {
  }

  lemma ShortField(field: seq<byte>)
    requires |field| == 32 && field[31] == 0
    ensures |CStr(field, 0)| <= 31
  {
    assert field[31] in field[..32];
  }

  lemma SameTextShort(field: seq<byte>, version: seq<byte>)
    requires |field| == 32 && field[31] == 0 && field[0] != 0 && SameText(field, version)
    ensures 1 <= |CStr(version, 0)| <= 31
  {
    hide CStr;
    ShortField(field);
    FieldStart(field);
    var a, b := CStr(field, 0), CStr(version, 0);
    assert a[..Min(|a|, |field|)] == b[..Min(|b|, |field|)];
    assert Min(|a|, 32) == |a[..Min(|a|, 32)]| == |b[..Min(|b|, 32)]| == Min(|b|, 32);
  }

  // A second sync with the same version leaves the flash alone if and only if the version
  // has 1 to 31 characters; any other version is rewritten on every boot.
  lemma SecondSyncSilent(f: seq<byte>, version: seq<byte>, first: Config, second: Config)
    requires HasConfig(f) && Sound(f) && Sized(first) && Sized(second)
    ensures !SyncWrites(Synced(f, version, first), version, second) <==> 1 <= |CStr(version, 0)| <= 31
  {
    hide Saved, Loaded, Block, CrcOk, Decode, Crc, CStr, VersionField, SameText, Blank, Sound;
    LoadIsSound(f, first);
    var l := Loaded(f, first);
    var g := Synced(f, version, first);
    if NeedsVersion(l.config, version) {
      SaveIsSound(l.flash, l.config.(version := VersionField(version)));
      SameTextAsField(version);
    } else {
      LoadIsSound(l.flash, second);
      SameTextShort(l.config.version, version);
    }
  }

  // ---- an erased or damaged sector ----

  // Erasing the configuration sector, all of it to 0xFF, makes it read as never written, and nothing but
  // 0xFF in the whole block does.
  lemma ErasedIsBlank(f: seq<byte>)
    requires HasConfig(f)
    ensures var g := EraseRange(f, At(f), 4096); HasConfig(g) && Blank(Block(g)) && Sound(g)
    ensures Blank(Block(f)) <==> forall i :: 0 <= i < 196 ==> Block(f)[i] == 0xFF
  {
    hide CrcOk, Decode;
  }

  // Loading from an erased sector gives empty fields.
  lemma ErasedLoadsEmpty(f: seq<byte>, previous: Config)
    requires HasConfig(f) && Blank(Block(f)) && Sized(previous)
    ensures var l := Loaded(f, previous);
            && l.ok && !Blank(Block(l.flash))
            && CStr(l.config.id, 0) == [] && CStr(l.config.ssid, 0) == []
            && CStr(l.config.password, 0) == [] && CStr(l.config.version, 0) == []
  {
    hide Crc, CStr, Block, Saved;
    SavedBlock(f, ZERO);
    NeverBlank(ZERO);
    ZerosAreEmpty(64);
    ZerosAreEmpty(32);
  }

  lemma ZerosAreEmpty(n: nat)
    requires n > 0
    ensures CStr(Zeros(n), 0) == []
  {
    CStrIs(Zeros(n), 0, 0);
  }

  // A saved block with any change inside four consecutive bytes, CRC field included, is refused: the load
  // fails, writes nothing and leaves the caller's struct alone. The one exception is a change that makes
  // the whole block 0xFF, which no block with terminated fields allows.
  lemma DamageRefused(f: seq<byte>, c: Config, g: seq<byte>, k: nat, previous: Config)
    requires HasConfig(f) && HasConfig(g) && Sized(c) && Sized(previous) && k + 4 <= BLOCK_SIZE
    ensures var a, b := Block(Saved(f, c)), Block(g);
            a != b && a[..k] == b[..k] && a[k + 4..] == b[k + 4..] ==>
              && (Loaded(g, previous) == Load(g, false, previous) <==> !Blank(b))
              && (Terminated(c) ==> !Blank(b))
  {
    hide Encode, CrcOk, Crc, Saved, Decode;
    var a, b := Block(Saved(f, c)), Block(g);
    if a != b && a[..k] == b[..k] && a[k + 4..] == b[k + 4..] {
      SavedBlock(f, c);
      SavedPassesCrc(c);
      if CrcOk(b) {
        FourBytesDetected(a, b, k);
      }
      DecodeEncode(WithCrc(c));
      if Terminated(c) {
        TerminatorsApart(a, b, k);
      }
    }
  }

  lemma TerminatorsApart(a: seq<byte>, b: seq<byte>, k: nat)
    requires |a| == |b| == BLOCK_SIZE && k + 4 <= BLOCK_SIZE && a[..k] == b[..k] && a[k + 4..] == b[k + 4..]
    requires Terminated(Decode(a))
    ensures !Blank(b)
  {
    assert a[63] == 0 && a[95] == 0;
    if k <= 63 {
      assert b[95] == b[k + 4..][95 - k - 4] == a[k + 4..][95 - k - 4] == a[95];
    } else {
      assert b[63] == b[..k][63] == a[..k][63] == a[63];
    }
  }

  // What a version sync makes of a damaged block: the caller's uninitialised struct is written over it,
  // with the running version, unless that struct happens to hold this version already.
  lemma SyncOverDamage(f: seq<byte>, version: seq<byte>, uninitialised: Config, previous: Config)
    requires HasConfig(f) && !Blank(Block(f)) && !CrcOk(Block(f)) && Sized(uninitialised) && Sized(previous)
    ensures var g := Synced(f, version, uninitialised);
            if NeedsVersion(uninitialised, version) then
              && HasConfig(g) && Loaded(g, previous).ok && Loaded(g, previous).flash == g
              && var d := Loaded(g, previous).config;
              && d.id == uninitialised.id && d.ssid == uninitialised.ssid && d.password == uninitialised.password
              && CStr(d.version, 0) == CStr(version, 0)[..Min(|CStr(version, 0)|, 31)]
            else g == f
  {
    hide Saved, Block, CrcOk, Decode, Crc, CStr, NeedsVersion, VersionField, Encode;
    var c := uninitialised.(version := VersionField(version));
    SavedBlock(f, c);
    LoadAfterSave(f, c, previous);
    VersionFieldText(version);
  }

  // A portal save over a damaged block: the credentials, and nothing else, in a sound store.
  lemma PortalOverDamage(f: seq<byte>, ssid: seq<byte>, password: seq<byte>)
    requires HasConfig(f) && !Blank(Block(f)) && !CrcOk(Block(f))
    ensures var g := PortalSaved(f, ssid, password);
            && HasConfig(g) && Sound(g)
            && CStr(Current(g).ssid, 0) == CStr(ssid, 0)[..Min(|CStr(ssid, 0)|, 31)]
            && CStr(Current(g).password, 0) == CStr(password, 0)[..Min(|CStr(password, 0)|, 63)]
            && CStr(Current(g).id, 0) == [] && CStr(Current(g).version, 0) == []
  {
    hide Saved, Block, CrcOk, Decode, Crc, CStr, StrNCpy;
    CredentialsTerminated(ZERO, ssid, password);
    SaveIsSound(f, WithCredentials(ZERO, ssid, password));
    FieldText(CStr(ssid, 0), 31, ZERO.ssid[31..]);
    FieldText(CStr(password, 0), 63, ZERO.password[63..]);
    ZerosAreEmpty(64);
    ZerosAreEmpty(32);
  }
}
