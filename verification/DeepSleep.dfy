// One long sleep cut into watchdog-sized chunks, one per boot, and the flags that survive a reset.
module DeepSleep {
  import opened Bytes

  // MAX_WATCHDOG_CHUNK, in milliseconds.
  const CHUNK_MS: nat := 8000

  // Scratch register indices.
  const CHUNKS: nat := 0
  const REMAINDER: nat := 1
  const LAST_CHUNK: nat := 2
  const BOOT_FLAG: nat := 3

  datatype BootFlag = NoFlag | Sleeping | OtaPending

  function Raw(flag: BootFlag): nat {
    match flag
    case NoFlag => 0
    case Sleeping => 1
    case OtaPending => 2
  }

  // Any other register value reads as NoFlag.
  function FlagOf(raw: nat): (flag: BootFlag)
    ensures raw <= 2 ==> Raw(flag) == raw
    ensures raw > 2 ==> flag == NoFlag
  {
    if raw == 1 then Sleeping else if raw == 2 then OtaPending else NoFlag
  }

  // The four registers.
  datatype Regs = Regs(chunks: nat, remainder: nat, lastChunk: nat, flag: nat)

  // What a boot does before anything else runs.
  datatype Outcome = Slept(ms: nat) | Normal | OtaUpdate

  function Requested(r: Regs, totalMs: nat): Regs {
    if FlagOf(r.flag) == OtaPending then Regs(1, 0, 0, r.flag)
    else Regs(totalMs / CHUNK_MS % WORD, totalMs % CHUNK_MS, 0, Raw(Sleeping))
  }

  // continue_deep_sleep: the registers afterwards and the time slept, 0 for returning to main.
  function Continued(r: Regs): (Regs, nat) {
    if FlagOf(r.flag) == NoFlag then (r, 0)
    else if r.lastChunk < r.chunks then (r.(lastChunk := r.lastChunk + 1), CHUNK_MS)
    else (if FlagOf(r.flag) == Sleeping then r.(flag := Raw(NoFlag)) else r, r.remainder)
  }

  // A whole boot, up to the branch that main takes.
  function Booted(r: Regs): (Regs, Outcome) {
    var (s, ms) := Continued(r);
    if ms > 0 then (s, Slept(ms))
    else if FlagOf(s.flag) == OtaPending then (s.(flag := Raw(NoFlag)), OtaUpdate)
    else (s, Normal)
  }

  // A measurement cycle: whether the server asked for an update, the sleep that follows, and whether the
  // update, if there is one, comes to its image being applied.
  datatype Cycle = Cycle(shouldUpdate: bool, totalMs: nat, applied: bool)

  function Ended(r: Regs, c: Cycle): Regs {
    Requested(if c.shouldUpdate then r.(flag := Raw(OtaPending)) else r, c.totalMs)
  }

  class PowerManager {
    const scratch: array<nat>

    ghost predicate Valid()
      reads scratch
    {
      scratch.Length == 4 && forall i :: 0 <= i < 4 ==> scratch[i] < WORD
    }

    ghost function State(): Regs
      reads scratch
      requires Valid()
    {
      Regs(scratch[CHUNKS], scratch[REMAINDER], scratch[LAST_CHUNK], scratch[BOOT_FLAG])
    }

    constructor (scratch: array<nat>)
      requires scratch.Length == 4 && forall i :: 0 <= i < 4 ==> scratch[i] < WORD
      ensures Valid() && this.scratch == scratch
    {
      this.scratch := scratch;
    }

    method GetBootFlag() returns (flag: BootFlag)
      requires Valid()
      ensures flag == FlagOf(State().flag)
    {
      var raw := scratch[BOOT_FLAG];
      match raw
      case 0 => return NoFlag;
      case 1 => return Sleeping;
      case 2 => return OtaPending;
      case _ => return NoFlag;
    }

    method SetBootFlag(flag: BootFlag)
      requires Valid()
      modifies scratch
      ensures Valid() && State() == old(State()).(flag := Raw(flag))
    {
      scratch[BOOT_FLAG] := Raw(flag);
    }

    method RequestDeepSleep(totalMs: nat)
      requires Valid()
      modifies scratch
      ensures Valid() && State() == Requested(old(State()), totalMs)
    {
      var flag := GetBootFlag();
      if flag == OtaPending {
        scratch[CHUNKS] := 1;
        scratch[REMAINDER] := 0;
        scratch[LAST_CHUNK] := 0;
        return;
      }
      var chunks := totalMs / CHUNK_MS % WORD;  // assigned to a uint32_t
      var remainder := totalMs % CHUNK_MS;
      scratch[CHUNKS] := chunks;
      scratch[REMAINDER] := remainder;
      scratch[LAST_CHUNK] := 0;
      scratch[BOOT_FLAG] := 1;
    }

    // The time slept before the watchdog resets the device; 0 when the call returns.
    method ContinueDeepSleep() returns (sleptMs: nat)
      requires Valid()
      modifies scratch
      ensures Valid() && (State(), sleptMs) == Continued(old(State()))
    {
      var mode := GetBootFlag();
      if mode == NoFlag {
        return 0;
      }
      var chunks := scratch[CHUNKS];
      var remainder := scratch[REMAINDER];
      var lastChunk := scratch[LAST_CHUNK];
      if lastChunk < chunks {
        lastChunk := lastChunk + 1;
        scratch[LAST_CHUNK] := lastChunk;
        sleptMs := CHUNK_MS;
      } else {
        sleptMs := remainder;
        if mode == Sleeping {
          SetBootFlag(NoFlag);
        }
      }
    }

    // The start of main.
    method Boot() returns (outcome: Outcome)
      requires Valid()
      modifies scratch
      ensures Valid() && (State(), outcome) == Booted(old(State()))
    {
      var ms := ContinueDeepSleep();
      if ms > 0 {
        return Slept(ms);
      }
      var flag := GetBootFlag();
      if flag == OtaPending {
        SetBootFlag(NoFlag);
        return OtaUpdate;
      }
      return Normal;
    }

    // The end of a measurement cycle: the server may have asked for an update.
    method EndCycle(c: Cycle)
      requires Valid()
      modifies scratch
      ensures Valid() && State() == Ended(old(State()), c)
    {
      if c.shouldUpdate {
        SetBootFlag(OtaPending);
      }
      RequestDeepSleep(c.totalMs);
    }
  }

  // ---- runs of boots ----

  function AfterBoots(r: Regs, n: nat): Regs
    decreases n
  {
    if n == 0 then r else AfterBoots(Booted(r).0, n - 1)
  }

  function Trace(r: Regs, n: nat): (t: seq<Outcome>)
    ensures |t| == n
    decreases n
  {
    if n == 0 then [] else [Booted(r).1] + Trace(Booted(r).0, n - 1)
  }

  function TotalSlept(t: seq<Outcome>): nat {
    if t == [] then 0 else (if t[0].Slept? then t[0].ms else 0) + TotalSlept(t[1..])
  }

  ghost predicate AllSleep(t: seq<Outcome>) {
    forall o | o in t :: o.Slept? && 0 < o.ms <= 8000
  }

  // The number of boots that sleep once the registers are set.
  function SleepCount(r: Regs): nat
    requires r.lastChunk <= r.chunks
  {
    r.chunks - r.lastChunk + (if r.remainder > 0 then 1 else 0)
  }

  // From a requested sleep: that many boots sleep, the time is what the registers say, and the next
  // boot is a normal one with the flag cleared.
  lemma {:induction false} SleepRun(r: Regs)
    requires r.flag == Raw(Sleeping) && r.lastChunk <= r.chunks && r.remainder < CHUNK_MS
    ensures var n := SleepCount(r);
            && AllSleep(Trace(r, n))
            && TotalSlept(Trace(r, n)) == (r.chunks - r.lastChunk) * CHUNK_MS + r.remainder
            && Booted(AfterBoots(r, n)).1 == Normal
            && Booted(AfterBoots(r, n)).0.flag == Raw(NoFlag)
    decreases r.chunks - r.lastChunk
  {
    var n := SleepCount(r);
    var s := Booted(r).0;
    if r.lastChunk < r.chunks {
      SleepRun(s);
      assert Trace(r, n) == [Slept(CHUNK_MS)] + Trace(s, n - 1);
      assert Trace(r, n)[1..] == Trace(s, n - 1);
    } else if r.remainder > 0 {
      assert Trace(r, 1) == [Slept(r.remainder)] + Trace(s, 0);
      assert Trace(r, 1)[1..] == [];
      assert AfterBoots(r, 1) == AfterBoots(s, 0);
    }
  }

  lemma Quotient(total: nat)
    ensures total == total / CHUNK_MS * CHUNK_MS + total % CHUNK_MS
    ensures (total / CHUNK_MS % WORD) * CHUNK_MS + total % CHUNK_MS == total <==> total / CHUNK_MS < WORD
  {
  }

  // Conservation: after a request with no update pending the device sleeps exactly the requested time,
  // in quotient plus (for a remainder) one chunks of at most CHUNK_MS, if and only if the quotient fits
  // the 32-bit register; then it boots normally.
  lemma SleepIsConserved(r: Regs, totalMs: nat)
    requires FlagOf(r.flag) != OtaPending
    ensures var s := Requested(r, totalMs);
            var n := SleepCount(s);
            && AllSleep(Trace(s, n))
            && Booted(AfterBoots(s, n)).1 == Normal && Booted(AfterBoots(s, n)).0.flag == Raw(NoFlag)
            && (TotalSlept(Trace(s, n)) == totalMs <==> totalMs / 8000 < 0x1_0000_0000)
            && (totalMs / 8000 < 0x1_0000_0000 ==> n == totalMs / 8000 + (if totalMs % 8000 > 0 then 1 else 0))
  {
    SleepRun(Requested(r, totalMs));
    Quotient(totalMs);
  }

  // ---- boots and cycles in turn ----

  // What up to n boots do, if every normal one runs the next cycle and ends in its sleep request. An
  // update resets the device if its image is applied; otherwise the update loop never ends. `applies`
  // tells which, for the update the last cycle asked for.
  function Life(r: Regs, applies: bool, cycles: seq<Cycle>, n: nat): (t: seq<Outcome>)
    decreases n
  {
    if n == 0 then []
    else
      var (s, outcome) := Booted(r);
      match outcome
      case Slept(_) => [outcome] + Life(s, applies, cycles, n - 1)
      case OtaUpdate => if applies then [outcome] + Life(s, applies, cycles, n - 1) else [outcome]
      case Normal =>
        if cycles == [] then [outcome]
        else [outcome] + Life(Ended(s, cycles[0]), cycles[0].applied, cycles[1..], n - 1)
  }

  // One long sleep in chunks.
  function Chunks(count: nat, remainder: nat): seq<Outcome> {
    if count > 0 then [Slept(CHUNK_MS)] + Chunks(count - 1, remainder)
    else if remainder > 0 then [Slept(remainder)]
    else []
  }

  // The device never boots again.
  predicate Halts(c: Cycle) {
    c.shouldUpdate && !c.applied
  }

  // What the boots after a cycle do, up to the next normal one.
  function Log(c: Cycle): seq<Outcome> {
    if Halts(c) then [Slept(CHUNK_MS), OtaUpdate]
    else if c.shouldUpdate then [Slept(CHUNK_MS), OtaUpdate, Normal]
    else Chunks(c.totalMs / CHUNK_MS % WORD, c.totalMs % CHUNK_MS) + [Normal]
  }

  function LogAll(cycles: seq<Cycle>): seq<Outcome> {
    if cycles == [] then [] else Log(cycles[0]) + (if Halts(cycles[0]) then [] else LogAll(cycles[1..]))
  }

  lemma {:induction false} TraceIsChunks(r: Regs)
    requires r.flag == Raw(Sleeping) && r.lastChunk <= r.chunks && r.remainder < CHUNK_MS
    ensures Trace(r, SleepCount(r)) == Chunks(r.chunks - r.lastChunk, r.remainder)
    decreases r.chunks - r.lastChunk
  {
    if r.lastChunk < r.chunks {
      TraceIsChunks(Booted(r).0);
    } else if r.remainder > 0 {
      assert Trace(r, 1) == [Slept(r.remainder)] + Trace(Booted(r).0, 0);
    }
  }

  // Boots that are not normal take no cycle.
  lemma {:induction false} LifeAsleep(r: Regs, applies: bool, cycles: seq<Cycle>, n: nat, m: nat)
    requires Normal !in Trace(r, n) && (applies || OtaUpdate !in Trace(r, n))
    ensures Life(r, applies, cycles, n + m) == Trace(r, n) + Life(AfterBoots(r, n), applies, cycles, m)
    decreases n
  {
    hide Booted;
    if n > 0 {
      var s := Booted(r).0;
      assert Trace(r, n) == [Booted(r).1] + Trace(s, n - 1);
      assert Booted(r).1 in Trace(r, n);
      LifeAsleep(s, applies, cycles, n - 1, m);
    }
  }

  // The boots of one update: one chunk of sleep, then the update branch with the flag cleared.
  lemma UpdateBoots(r: Regs, c: Cycle)
    requires c.shouldUpdate
    ensures var s := Ended(r, c);
            && Trace(s, 1) == [Slept(CHUNK_MS)] && Trace(s, 2) == [Slept(CHUNK_MS), OtaUpdate]
            && Booted(AfterBoots(s, 1)).1 == OtaUpdate
            && AfterBoots(s, 2).flag == Raw(NoFlag)
  {
    var s := Ended(r, c);
    var s1 := Booted(s).0;
    assert Trace(s, 1) == [Booted(s).1] + Trace(s1, 0);
    assert Trace(s, 2) == [Booted(s).1] + Trace(s1, 1);
    assert Trace(s1, 1) == [Booted(s1).1] + Trace(Booted(s1).0, 0);
    assert AfterBoots(s, 1) == AfterBoots(s1, 0);
    assert AfterBoots(s, 2) == AfterBoots(s1, 1) == AfterBoots(Booted(s1).0, 0);
  }

  // About to boot normally, with no flag left.
  ghost predicate Awake(r: Regs) {
    Booted(r).1 == Normal && FlagOf(Booted(r).0.flag) == NoFlag
  }

  // Over any list of cycles: each cycle with an update leads to one chunk of sleep and then once into the
  // update branch, each other one to its own sleep in chunks, and both to the next normal boot; only an
  // update that is not applied ends the life of the device, however many boots it is given.
  lemma {:induction false} LifeIsLog(r: Regs, applies: bool, cycles: seq<Cycle>, n: nat)
    requires Awake(r) && n > |LogAll(cycles)|
    ensures Life(r, applies, cycles, n) == [Normal] + LogAll(cycles)
    decreases cycles
  {
    hide Booted, Ended, Awake, Log, Life, Trace, AfterBoots;
    AwakeIsNormal(r);
    NormalBoot(r, applies, cycles, n - 1);
    if cycles != [] {
      var c, rest := cycles[0], cycles[1..];
      var s := Ended(Booted(r).0, c);
      if Halts(c) {
        HaltingUpdate(Booted(r).0, c, rest, n - 1);
      } else {
        var k := CycleBoots(Booted(r).0, c);
        LifeAsleep(s, c.applied, rest, k, n - 1 - k);
        LifeIsLog(AfterBoots(s, k), c.applied, rest, n - 1 - k);
        Regroup(Trace(s, k), LogAll(rest));
      }
    }
  }

  lemma HaltingUpdate(r: Regs, c: Cycle, cycles: seq<Cycle>, n: nat)
    requires Halts(c) && n >= |Log(c)|
    ensures Life(Ended(r, c), c.applied, cycles, n) == Log(c)
  {
    hide Booted, Ended, Trace, AfterBoots;
    var s := Ended(r, c);
    UpdateBoots(r, c);
    LifeAsleep(s, false, cycles, 1, n - 1);
    assert Life(AfterBoots(s, 1), false, cycles, n - 1) == [OtaUpdate];
  }

  lemma Regroup(a: seq<Outcome>, b: seq<Outcome>)
    ensures a + ([Normal] + b) == (a + [Normal]) + b
  {
  }

  lemma NormalBoot(r: Regs, applies: bool, cycles: seq<Cycle>, k: nat)
    requires Booted(r).1 == Normal
    ensures Life(r, applies, cycles, 1 + k) ==
            if cycles == [] then [Normal]
            else [Normal] + Life(Ended(Booted(r).0, cycles[0]), cycles[0].applied, cycles[1..], k)
  {
    hide Booted, Ended;
  }

  lemma AwakeIsNormal(r: Regs)
    requires Awake(r)
    ensures Booted(r).1 == Normal && FlagOf(Booted(r).0.flag) == NoFlag
  {
  }

  // The boots between a cycle and the next normal boot.
  lemma CycleBoots(r: Regs, c: Cycle) returns (n: nat)
    requires FlagOf(r.flag) == NoFlag && !Halts(c)
    ensures var s := Ended(r, c);
            && Normal !in Trace(s, n) && (c.applied || OtaUpdate !in Trace(s, n))
            && Trace(s, n) + [Normal] == Log(c) && |Log(c)| == n + 1 && Awake(AfterBoots(s, n))
  {
    hide Trace, AfterBoots;
    var s := Ended(r, c);
    if c.shouldUpdate {
      UpdateBoots(r, c);
      n := 2;
    } else {
      SleepRun(s);
      TraceIsChunks(s);
      n := SleepCount(s);
    }
  }

  // ---- totals ----

  function UpdatesIn(t: seq<Outcome>): nat {
    if t == [] then 0 else (if t[0] == OtaUpdate then 1 else 0) + UpdatesIn(t[1..])
  }

  function UpdatesAsked(cycles: seq<Cycle>): nat {
    if cycles == [] then 0 else (if cycles[0].shouldUpdate then 1 else 0) + UpdatesAsked(cycles[1..])
  }

  // The sleep the cycles ask for: one chunk in front of an update.
  function SleepAsked(cycles: seq<Cycle>): nat {
    if cycles == [] then 0
    else (if cycles[0].shouldUpdate then 8000 else cycles[0].totalMs) + SleepAsked(cycles[1..])
  }

  // The quotient of every sleep fits its 32-bit register.
  ghost predicate AllFit(cycles: seq<Cycle>) {
    forall c | c in cycles :: c.shouldUpdate || c.totalMs / 8000 < 0x1_0000_0000
  }

  // The cycles up to and including the first whose update is not applied.
  function Lived(cycles: seq<Cycle>): (r: seq<Cycle>)
    ensures r <= cycles
  {
    if cycles == [] then []
    else [cycles[0]] + (if Halts(cycles[0]) then [] else Lived(cycles[1..]))
  }

  // All cycles are lived if and only if every update asked for before the last cycle is applied.
  lemma {:induction false} AllLived(cycles: seq<Cycle>)
    ensures Lived(cycles) == cycles <==> forall i :: 0 <= i < |cycles| - 1 ==> !Halts(cycles[i])
  {
    if cycles != [] {
      var rest := cycles[1..];
      AllLived(rest);
      assert cycles == [cycles[0]] + rest;
      assert Lived(cycles)[1..] == if Halts(cycles[0]) then [] else Lived(rest);
      if forall i :: 0 <= i < |cycles| - 1 ==> !Halts(cycles[i]) {
        assert forall i :: 0 <= i < |rest| - 1 ==> rest[i] == cycles[i + 1];
      }
      if Lived(cycles) == cycles && rest != [] {
        assert Lived(rest) == rest;
        assert forall i :: 1 <= i < |cycles| - 1 ==> cycles[i] == rest[i - 1];
      }
    }
  }

  lemma {:induction false} TotalsConcat(a: seq<Outcome>, b: seq<Outcome>)
    ensures TotalSlept(a + b) == TotalSlept(a) + TotalSlept(b)
    ensures UpdatesIn(a + b) == UpdatesIn(a) + UpdatesIn(b)
  {
    if a == [] {
      assert a + b == b;
    } else {
      assert (a + b)[1..] == a[1..] + b;
      TotalsConcat(a[1..], b);
    }
  }

  lemma {:induction false} ChunksTotal(count: nat, remainder: nat)
    ensures TotalSlept(Chunks(count, remainder)) == count * CHUNK_MS + remainder
    ensures UpdatesIn(Chunks(count, remainder)) == 0
  {
    if count > 0 {
      ChunksTotal(count - 1, remainder);
      assert Chunks(count, remainder)[1..] == Chunks(count - 1, remainder);
    }
  }

  lemma LogTotals(c: Cycle)
    ensures UpdatesIn(Log(c)) == if c.shouldUpdate then 1 else 0
    ensures TotalSlept(Log(c)) <= if c.shouldUpdate then CHUNK_MS else c.totalMs
    ensures TotalSlept(Log(c)) == (if c.shouldUpdate then CHUNK_MS else c.totalMs) <==> AllFit([c])
  {
    var q, rem := c.totalMs / CHUNK_MS % WORD, c.totalMs % CHUNK_MS;
    ChunksTotal(q, rem);
    Quotient(c.totalMs);
    TotalsConcat(if c.shouldUpdate then [Slept(CHUNK_MS), OtaUpdate] else Chunks(q, rem), [Normal]);
    assert c in [c];
  }

  lemma {:induction false} LogAllTotals(cycles: seq<Cycle>)
    ensures UpdatesIn(LogAll(cycles)) == UpdatesAsked(Lived(cycles))
    ensures TotalSlept(LogAll(cycles)) <= SleepAsked(Lived(cycles))
    ensures TotalSlept(LogAll(cycles)) == SleepAsked(Lived(cycles)) <==> AllFit(Lived(cycles))
    decreases |cycles|
  {
    hide Log, Halts;
    if cycles != [] {
      var c, later := cycles[0], if Halts(cycles[0]) then [] else cycles[1..];
      LogTotals(c);
      LogAllTotals(later);
      TotalsConcat(Log(c), LogAll(later));
      assert Lived(cycles) == [c] + Lived(later);
      assert Lived(cycles)[1..] == Lived(later);
    }
  }

  // From power-up over any list of cycles, for however many boots: up to and including the first update
  // that is not applied, the update branch is entered once for every cycle that asks for it, and the time
  // slept is what the cycles ask for if and only if every quotient fits its register. That covers all cycles
  // if and only if every update asked for before the last one is applied.
  lemma CyclesAreConserved(r: Regs, applies: bool, cycles: seq<Cycle>, n: nat)
    requires FlagOf(r.flag) == NoFlag && n > |LogAll(cycles)|
    ensures var t, lived := Life(r, applies, cycles, n), Lived(cycles);
            && UpdatesIn(t) == UpdatesAsked(lived)
            && (TotalSlept(t) == SleepAsked(lived) <==> AllFit(lived))
            && (lived == cycles <==> forall i :: 0 <= i < |cycles| - 1 ==> !Halts(cycles[i]))
  {
    hide Life, LogAll, Chunks, UpdatesAsked, SleepAsked, AllFit, Lived;
    LifeIsLog(r, applies, cycles, n);
    LogAllTotals(cycles);
    TotalsConcat([Normal], LogAll(cycles));
    AllLived(cycles);
  }
}
