// One measurement cycle end to end: from the server's answer to the stored identifier and the next boot.
module MeasurementFlow {
  import opened Bytes
  import opened Search
  import opened JsonParser
  import opened JsonRoundTrip
  import opened ServerResponse
  import opened DeviceConfig
  import ConfigRuns
  import opened DeepSleep

  // What an answer says; no answer says nothing.
  function Answered(text: string): (r: Response) {
    var pairs := Pairs(text, 0, MAX_PAIRS);
    ScannedInBounds(text, 0, MAX_PAIRS);
    if text == "" then Response("", false, false, false) else Concluded(text, pairs)
  }

  function IdOffered(text: string): Option<seq<byte>> {
    var r := Answered(text);
    if r.hasDeviceId then Some(Ascii(r.deviceId)) else None
  }

  // send_measurement_flow from the answer on.
  method UseAnswer(store: Store, pm: PowerManager, cfg: Config, text: string) returns (ok: bool)
    requires store.Valid() && Sized(cfg) && pm.Valid()
    modifies store.flash, store.flash.cells, pm.scratch
    ensures ok <==> text != ""
    ensures store.flash.cells[..] ==
            var id := IdOffered(text);
            if id.Some? && cfg.id[0] == 0 then Saved(old(store.flash.cells[..]), WithId(cfg, id.value))
            else old(store.flash.cells[..])
    ensures pm.Valid()
    ensures pm.State() ==
            if Answered(text).shouldUpdate then old(pm.State()).(flag := Raw(OtaPending)) else old(pm.State())
  {
    hide Saved, WithId, Concluded, Pairs;
    if text == "" {
      return false;
    }
    var parsed, response := ParseServerResponse(text);
    store.AssignId(cfg, if response.hasDeviceId then Some(Ascii(response.deviceId)) else None);
    if response.shouldUpdate {
      pm.SetBootFlag(OtaPending);
    }
    return true;
  }

  // A normal boot: the cycle, and the request for the sleep behind it.
  method NormalBoot(
    store: Store, pm: PowerManager, version: seq<byte>, uninitialised: Config, text: string, totalMs: nat,
    ghost applied: bool)
    requires store.Valid() && Sized(uninitialised) && pm.Valid()
    modifies store.flash, store.flash.cells, pm.scratch
    ensures store.flash.cells[..] ==
            ConfigRuns.Cycled(old(store.flash.cells[..]), version, uninitialised, IdOffered(text))
    ensures pm.Valid() && pm.State() == Ended(old(pm.State()), Cycle(Answered(text).shouldUpdate, totalMs, applied))
  {
    hide Saved, WithId, Loaded, Synced, Answered, IdOffered;
    store.SyncConfigVersion(version, uninitialised);
    var hasConfig, cfg := store.LoadConfig(ZERO);
    var ok := UseAnswer(store, pm, cfg, text);
    pm.RequestDeepSleep(totalMs);
  }

  // ---- what a printed answer comes to ----

  // The bytes of a C string.
  ghost predicate IsCText(s: string) {
    forall c | c in s :: 0 < c as int < 256
  }

  lemma CodeIsNotNul(c: char)
    requires 0 < c as int < 256
    ensures CharCode(c) != 0
  {
  }

  lemma AsciiCStr(s: string)
    requires IsCText(s)
    ensures CStr(Ascii(s), 0) == Ascii(s)
  {
    hide CharCode;
    forall i | 0 <= i < |s|
      ensures Ascii(s)[i] != 0
    {
      assert s[i] in s;
      CodeIsNotNul(s[i]);
    }
    assert Ascii(s)[..|s|] == Ascii(s);
    CStrIs(Ascii(s), 0, |s|);
  }

  // An offered identifier is a piece of the answer that fits its field.
  lemma IdIsPiece(text: string)
    requires IsCText(text)
    ensures var r := Answered(text);
            r.hasDeviceId ==> IsCText(r.deviceId) && |r.deviceId| <= 63
  {
    hide Pairs, Get, FlagFrom;
    var pairs := Pairs(text, 0, MAX_PAIRS);
    ScannedInBounds(text, 0, MAX_PAIRS);
    GetInBounds(text, pairs, "DeviceId");
    var r := Answered(text);
    if r.hasDeviceId {
      var v := Get(text, pairs, "DeviceId").value;
      assert r.deviceId == text[v.start..v.start + v.length];
      forall c | c in r.deviceId
        ensures c in text
      {
        var i :| 0 <= i < |r.deviceId| && r.deviceId[i] == c;
        assert text[v.start + i] == c;
      }
    }
  }

  lemma AnswerUnderstood(ms: seq<Member>, tail: string)
    requires AllPrintable(ms, tail)
    ensures Answered(Print(ms, tail)) == Understood(ms[..Min(|ms|, 8)])
  {
    hide Pairs, Concluded, AllPrintable;
    ResponseUnderstood(ms, tail);
    if ms != [] {
      assert '\"' in PrintMember(ms[0], Print(ms[1..], tail));
    }
  }

  lemma CycleKeepsId(f: seq<byte>, version: seq<byte>, uninitialised: Config, id: Option<seq<byte>>)
    requires HasConfig(f) && ConfigRuns.Sound(f) && Sized(uninitialised)
    ensures ConfigRuns.Current(f).id[0] != 0 || id == None ==>
              ConfigRuns.Current(ConfigRuns.Cycled(f, version, uninitialised, id)).id == ConfigRuns.Current(f).id
  {
    hide Saved, Loaded, Block, CrcOk, DeviceConfig.Decode, Synced;
    ConfigRuns.SyncIsSound(f, version, uninitialised);
    ConfigRuns.LoadIsSound(Synced(f, version, uninitialised), ZERO);
  }

  // End to end, for every printed answer, on every sound store and after every normal boot: the next load
  // returns the identifier the device had, or else the one the first eight members bring, or else none; and
  // the next boot finds an update pending if and only if those members ask for it.
  lemma AnswerTakesEffect(
    f: seq<byte>, r: Regs, version: seq<byte>, uninitialised: Config, ms: seq<Member>, tail: string, totalMs: nat,
    applied: bool)
    requires HasConfig(f) && ConfigRuns.Sound(f) && Sized(uninitialised)
    requires AllPrintable(ms, tail) && IsCText(Print(ms, tail))
    requires FlagOf(r.flag) == NoFlag
    ensures var text, said := Print(ms, tail), Understood(ms[..Min(|ms|, 8)]);
            var g := ConfigRuns.Cycled(f, version, uninitialised, IdOffered(text));
            var c, d := ConfigRuns.Current(f), ConfigRuns.Current(g);
            var next := Ended(r, Cycle(Answered(text).shouldUpdate, totalMs, applied));
            && (c.id[0] != 0 || !said.hasDeviceId ==> d.id == c.id)
            && (c.id[0] == 0 && said.hasDeviceId ==> CStr(d.id, 0) == Ascii(said.deviceId))
            && FlagOf(next.flag) == (if said.shouldUpdate then OtaPending else Sleeping)
  {
    hide Answered, Understood, Print, AllPrintable, ConfigRuns.Cycled, ConfigRuns.Current, ConfigRuns.Sound, IsCText;
    var text := Print(ms, tail);
    AnswerUnderstood(ms, tail);
    IdIsPiece(text);
    CycleKeepsId(f, version, uninitialised, IdOffered(text));
    if Answered(text).hasDeviceId {
      var id := Answered(text).deviceId;
      AsciiCStr(id);
      ConfigRuns.FirstIdStored(f, version, uninitialised, Ascii(id));
      assert Ascii(id)[..|id|] == Ascii(id);
    }
  }
}
