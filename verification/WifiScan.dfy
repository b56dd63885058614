// The multi-pass WiFi scan: worker, results and timeouts in any order.
module WifiScan {
  import opened Bytes
  import opened Search

  const MAX_NETWORKS: nat := 32

  datatype Network = Network(ssid: string, secure: bool)

  // ---- lists without repeated names ----

  predicate Has(list: seq<Network>, ssid: string) {
    exists i :: 0 <= i < |list| && list[i].ssid == ssid
  }

  // What storing a result does: nothing for a known name or a full list.
  function Add(list: seq<Network>, n: Network): seq<Network> {
    if Has(list, n.ssid) || |list| >= MAX_NETWORKS then list else list + [n]
  }

  function AddAll(list: seq<Network>, ns: seq<Network>): seq<Network>
    decreases ns
  {
    if ns == [] then list else AddAll(Add(list, ns[0]), ns[1..])
  }

  // The first network of every name, in order of appearance.
  function FirstSeen(ns: seq<Network>): seq<Network>
    decreases |ns|
  {
    if ns == [] then []
    else
      var k := |ns| - 1;
      var before := FirstSeen(ns[..k]);
      if Has(before, ns[k].ssid) then before else before + [ns[k]]
  }

  function Cut32(list: seq<Network>): seq<Network> {
    list[..Min(|list|, MAX_NETWORKS)]
  }

  ghost predicate NoRepeats(list: seq<Network>) {
    forall i, j :: 0 <= i < j < |list| ==> list[i].ssid != list[j].ssid
  }

  // FirstSeen means what it says: no repeats, every name of the input, and each entry is the first of its name.
  lemma {:induction false} FirstSeenMeaning(ns: seq<Network>)
    ensures NoRepeats(FirstSeen(ns))
    ensures forall s :: Has(FirstSeen(ns), s) <==> Has(ns, s)
    ensures forall n | n in FirstSeen(ns) :: exists i :: 0 <= i < |ns| && ns[i] == n && !Has(ns[..i], n.ssid)
    decreases |ns|
  {
    if ns != [] {
      var k := |ns| - 1;
      FirstSeenMeaning(ns[..k]);
      forall s
        ensures Has(FirstSeen(ns), s) <==> Has(ns, s)
      {
        HasSplit(ns, s);
        HasAppend(FirstSeen(ns[..k]), ns[k], s);
      }
      forall n | n in FirstSeen(ns)
        ensures exists i :: 0 <= i < |ns| && ns[i] == n && !Has(ns[..i], n.ssid)
      {
        if n in FirstSeen(ns[..k]) {
          var i :| 0 <= i < k && ns[..k][i] == n && !Has(ns[..k][..i], n.ssid);
          assert ns[..k][..i] == ns[..i];
        } else {
          assert ns[k] == n && !Has(ns[..k], n.ssid);
        }
      }
    }
  }

  lemma HasSplit(ns: seq<Network>, s: string)
    requires ns != []
    ensures Has(ns, s) <==> Has(ns[..|ns| - 1], s) || ns[|ns| - 1].ssid == s
  {
    var k := |ns| - 1;
    if Has(ns, s) {
      var i :| 0 <= i < |ns| && ns[i].ssid == s;
      assert i < k ==> ns[..k][i].ssid == s;
    }
    if Has(ns[..k], s) {
      var i :| 0 <= i < k && ns[..k][i].ssid == s;
      assert ns[i].ssid == s;
    }
  }

  lemma HasAppend(list: seq<Network>, n: Network, s: string)
    ensures Has(list + [n], s) <==> Has(list, s) || n.ssid == s
  {
    HasSplit(list + [n], s);
    assert (list + [n])[..|list|] == list;
  }

  lemma {:induction false} AddAllConcat(list: seq<Network>, a: seq<Network>, b: seq<Network>)
    ensures AddAll(list, a + b) == AddAll(AddAll(list, a), b)
    decreases a
  {
    hide Add;
    if a == [] {
      assert a + b == b;
    } else {
      assert (a + b)[1..] == a[1..] + b;
      AddAllConcat(Add(list, a[0]), a[1..], b);
    }
  }

  // Storing one result after another builds the first-seen list, cut at the capacity.
  lemma {:induction false} AddAllIsFirstSeen(ns: seq<Network>)
    ensures AddAll([], ns) == Cut32(FirstSeen(ns))
    decreases |ns|
  {
    if ns != [] {
      var k := |ns| - 1;
      assert ns == ns[..k] + [ns[k]];
      AddAllIsFirstSeen(ns[..k]);
      AddAllConcat([], ns[..k], [ns[k]]);
      AddOne(AddAll([], ns[..k]), ns[k]);
      AddToCut(FirstSeen(ns[..k]), ns[k]);
    }
  }

  lemma AddOne(list: seq<Network>, n: Network)
    ensures AddAll(list, [n]) == Add(list, n)
  {
    assert [n][1..] == [];
  }

  lemma AddToCut(list: seq<Network>, n: Network)
    ensures Add(Cut32(list), n) == Cut32(if Has(list, n.ssid) then list else list + [n])
  {
    if |list| <= MAX_NETWORKS {
      assert Cut32(list) == list;
    }
  }

  // ---- merging ----

  lemma HasMonotone(list: seq<Network>, ns: seq<Network>, s: string)
    ensures Has(list, s) ==> Has(AddAll(list, ns), s)
    ensures |list| <= |AddAll(list, ns)| && list <= AddAll(list, ns)
    decreases ns
  {
    if ns != [] {
      var next := Add(list, ns[0]);
      if Has(list, s) {
        var i :| 0 <= i < |list| && list[i].ssid == s;
        assert next[i].ssid == s;
      }
      HasMonotone(next, ns[1..], s);
    }
  }

  ghost predicate Covers(list: seq<Network>, ns: seq<Network>) {
    |list| >= MAX_NETWORKS || forall i :: 0 <= i < |ns| ==> Has(list, ns[i].ssid)
  }

  // A list that has taken in ns knows all its names, or is full.
  lemma {:induction false} AddAllCovers(list: seq<Network>, ns: seq<Network>)
    ensures Covers(AddAll(list, ns), ns)
    decreases ns
  {
    if ns != [] {
      var next := Add(list, ns[0]);
      AddAllCovers(next, ns[1..]);
      HasMonotone(next, ns[1..], ns[0].ssid);
      if |AddAll(list, ns)| < MAX_NETWORKS {
        assert |next| < MAX_NETWORKS;
        HasAppend(list, ns[0], ns[0].ssid);
        forall i | 0 <= i < |ns|
          ensures Has(AddAll(list, ns), ns[i].ssid)
        {
          if i > 0 {
            assert ns[1..][i - 1] == ns[i];
          }
        }
      }
    }
  }

  // A full list without repeats fills every other list.
  lemma {:induction false} Pigeonhole(list: seq<Network>, full: seq<Network>)
    requires NoRepeats(full) && (forall i :: 0 <= i < |full| ==> Has(list, full[i].ssid))
    ensures |list| >= |full|
  {
    var names := set i | 0 <= i < |list| :: list[i].ssid;
    NamesBound(list);
    NamesDistinct(full);
    var fullNames := set i | 0 <= i < |full| :: full[i].ssid;
    forall s | s in fullNames
      ensures s in names
    {
      var i :| 0 <= i < |full| && full[i].ssid == s;
      assert Has(list, full[i].ssid);
    }
    SubsetSize(fullNames, names);
  }

  lemma SubsetSize(a: set<string>, b: set<string>)
    requires a <= b
    ensures |a| <= |b|
  {
    assert b == a + (b - a);
  }

  lemma {:induction false} NamesBound(list: seq<Network>)
    ensures |set i | 0 <= i < |list| :: list[i].ssid| <= |list|
  {
    if list != [] {
      var k := |list| - 1;
      NamesBound(list[..k]);
      var a := set i | 0 <= i < k :: list[..k][i].ssid;
      assert (set i | 0 <= i < |list| :: list[i].ssid) == a + {list[k].ssid};
    }
  }

  lemma {:induction false} NamesDistinct(list: seq<Network>)
    requires NoRepeats(list)
    ensures |set i | 0 <= i < |list| :: list[i].ssid| == |list|
  {
    if list != [] {
      var k := |list| - 1;
      NamesDistinct(list[..k]);
      var a := set i | 0 <= i < k :: list[..k][i].ssid;
      assert (set i | 0 <= i < |list| :: list[i].ssid) == a + {list[k].ssid};
      assert list[k].ssid !in a;
    }
  }

  lemma {:induction false} AddAllNoRepeats(list: seq<Network>, ns: seq<Network>)
    requires NoRepeats(list) && |list| <= MAX_NETWORKS
    ensures NoRepeats(AddAll(list, ns)) && |AddAll(list, ns)| <= MAX_NETWORKS
    decreases ns
  {
    if ns != [] {
      AddAllNoRepeats(Add(list, ns[0]), ns[1..]);
    }
  }

  // Merging the networks a pass kept is the same as merging all results of the pass.
  lemma {:induction false} MergeKeptIsMergeAll(master: seq<Network>, kept: seq<Network>, results: seq<Network>)
    requires NoRepeats(kept) && |kept| <= MAX_NETWORKS
    ensures AddAll(master, AddAll(kept, results)) == AddAll(AddAll(master, kept), results)
    decreases results
  {
    if results != [] {
      var n := results[0];
      var m := AddAll(master, kept);
      MergeKeptIsMergeAll(master, Add(kept, n), results[1..]);
      AddAllCovers(master, kept);
      if Add(kept, n) == kept + [n] {
        AddAllConcat(master, kept, [n]);
        AddOne(m, n);
      } else {
        assert Add(kept, n) == kept;
        assert Add(m, n) == m by {
          if |m| < MAX_NETWORKS {
            if Has(kept, n.ssid) {
              var i :| 0 <= i < |kept| && kept[i].ssid == n.ssid;
              assert Has(m, kept[i].ssid);
            } else {
              Pigeonhole(m, kept);
            }
          }
        }
      }
    }
  }

  // ---- the scanner as a value ----

  datatype Scan = Scan(networks: seq<Network>, master: seq<Network>, remaining: int, inProgress: bool, scheduled: bool)

  // The stored form of a result: the name up to a NUL, hidden networks under one common name.
  function Named(ssid: string, secure: bool): Network {
    var text := CStr(ssid, '\0');
    Network(if text == "" then "[Hidden SSID]" else text, secure)
  }

  function Finished(s: Scan): Scan {
    if !s.inProgress then s
    else Scan(s.networks, AddAll(s.master, s.networks), s.remaining - 1, false, s.scheduled || s.remaining - 1 > 0)
  }

  function Worked(s: Scan, failed: bool): Scan {
    if s.inProgress then s.(scheduled := false)
    else s.(networks := [], inProgress := !failed, scheduled := false)
  }

  function Polled(s: Scan, timedOut: bool): Scan {
    if s.inProgress && (|s.networks| >= MAX_NETWORKS || timedOut) then Finished(s) else s
  }

  function Seen(s: Scan, n: Network): Scan {
    if s.inProgress then s.(networks := Add(s.networks, n)) else s
  }

  predicate IsDone(s: Scan) {
    !s.inProgress && s.remaining == 0
  }

  // ---- the scanner as the firmware runs it ----

  class Scanner {
    const networks: array<Network>
    var networkCount: nat
    const masterList: array<Network>
    var masterCount: nat
    var scansRemaining: int
    var scanInProgress: bool
    // Whether the worker is queued in the async context.
    var scheduled: bool

    ghost predicate Valid()
      reads this
    {
      && networks.Length == MAX_NETWORKS && masterList.Length == MAX_NETWORKS && networks != masterList
      && networkCount <= MAX_NETWORKS && masterCount <= MAX_NETWORKS
    }

    ghost function State(): Scan
      reads this, networks, masterList
      requires Valid()
    {
      Scan(networks[..networkCount], masterList[..masterCount], scansRemaining, scanInProgress, scheduled)
    }

    constructor ()
      ensures Valid() && State() == Scan([], [], 1, false, false)
    {
      networks := new Network[MAX_NETWORKS](_ => Network("", false));
      masterList := new Network[MAX_NETWORKS](_ => Network("", false));
      networkCount, masterCount, scansRemaining, scanInProgress, scheduled := 0, 0, 1, false, false;
    }

    method Start(scans: int)
      requires Valid()
      modifies this
      ensures Valid() && State() == Scan([], [], scans, false, true)
    {
      scansRemaining := scans;
      masterCount := 0;
      networkCount := 0;
      scanInProgress := false;
      scheduled := true;
    }

    method Worker(failed: bool)
      requires Valid()
      modifies this
      ensures Valid() && State() == Worked(old(State()), failed)
    {
      scheduled := false;
      if scanInProgress {
        return;
      }
      networkCount := 0;
      scanInProgress := true;
      if failed {
        scanInProgress := false;
      }
    }

    method Find(list: array<Network>, count: nat, ssid: string) returns (found: bool)
      requires count <= list.Length
      ensures found <==> Has(list[..count], ssid)
    {
      var i := 0;
      while i < count
        invariant 0 <= i <= count
        invariant forall k :: 0 <= k < i ==> list[k].ssid != ssid
      {
        if list[i].ssid == ssid {
          assert list[..count][i].ssid == ssid;
          return true;
        }
        i := i + 1;
      }
      return false;
    }

    method ScanCallback(result: Option<(string, bool)>)
      requires Valid()
      modifies this, networks, masterList
      ensures Valid()
      ensures State() == match result
                         case None => Finished(old(State()))
                         case Some(r) => Seen(old(State()), Named(r.0, r.1))
    {
      if !scanInProgress {
        return;
      }
      if result.None? {
        FinishScan();
        return;
      }
      var ssid := CStr(result.value.0, '\0');
      if ssid == "" {
        ssid := "[Hidden SSID]";
      }
      var found := Find(networks, networkCount, ssid);
      if found {
        return;
      }
      if networkCount < MAX_NETWORKS {
        networks[networkCount] := Network(ssid, result.value.1);
        networkCount := networkCount + 1;
      }
    }

    method MergeIntoMaster()
      requires Valid()
      modifies this`masterCount, masterList
      ensures Valid()
      ensures masterList[..masterCount] == AddAll(old(masterList[..masterCount]), networks[..networkCount])
    {
      var i := 0;
      while i < networkCount
        invariant 0 <= i <= networkCount && Valid()
        invariant networks[..networkCount] == old(networks[..networkCount])
        invariant AddAll(masterList[..masterCount], networks[i..networkCount]) ==
                  AddAll(old(masterList[..masterCount]), networks[..networkCount])
      {
        ghost var before := masterList[..masterCount];
        var found := Find(masterList, masterCount, networks[i].ssid);
        if !found && masterCount < MAX_NETWORKS {
          masterList[masterCount] := networks[i];
          masterCount := masterCount + 1;
        }
        assert masterList[..masterCount] == Add(before, networks[i]);
        assert networks[i..networkCount][0] == networks[i];
        assert networks[i..networkCount][1..] == networks[i + 1..networkCount];
        i := i + 1;
      }
    }

    method FinishScan()
      requires Valid()
      modifies this, masterList
      ensures Valid() && State() == Finished(old(State()))
    {
      if !scanInProgress {
        return;
      }
      scanInProgress := false;
      MergeIntoMaster();
      scansRemaining := scansRemaining - 1;
      if scansRemaining > 0 {
        scheduled := true;
      }
    }

    method Poll(timedOut: bool)
      requires Valid()
      modifies this, masterList
      ensures Valid() && State() == Polled(old(State()), timedOut)
    {
      if scanInProgress {
        if networkCount >= MAX_NETWORKS {
          FinishScan();
        } else if timedOut {
          FinishScan();
        }
      }
    }

    method IsFinished() returns (done: bool)
      requires Valid()
      ensures done <==> IsDone(State())
    {
      done := !scanInProgress && scansRemaining == 0;
    }
  }

  // ---- runs ----

  datatype Event =
    | WorkerFired(failed: bool)
    | ResultSeen(ssid: string, secure: bool)
    | ScanEnded
    | PollCalled(timedOut: bool)

  // A result as the radio reports it.
  datatype Sighting = Sighting(ssid: string, secure: bool)

  // The scanner with what happened since start: the passes begun, the results since the last one began
  // and those of each finished one.
  datatype Session = Session(scan: Scan, requested: int, begun: nat, current: seq<Sighting>, passes: seq<seq<Sighting>>)

  function Begin(scans: int): Session {
    Session(Scan([], [], scans, false, true), scans, 0, [], [])
  }

  // The worker only fires when it is scheduled.
  function Step(s: Session, e: Event): Session {
    match e
    case WorkerFired(failed) =>
      if !s.scan.scheduled then s
      else if s.scan.inProgress then s.(scan := Worked(s.scan, failed))
      else if failed then s.(scan := Worked(s.scan, failed), current := [])
      else s.(scan := Worked(s.scan, failed), begun := s.begun + 1, current := [])
    case ResultSeen(ssid, secure) =>
      s.(scan := Seen(s.scan, Named(ssid, secure)),
         current := if s.scan.inProgress then s.current + [Sighting(ssid, secure)] else s.current)
    case ScanEnded => Close(s, Finished(s.scan))
    case PollCalled(timedOut) => Close(s, Polled(s.scan, timedOut))
  }

  function Close(s: Session, next: Scan): Session {
    if s.scan.inProgress && !next.inProgress then s.(scan := next, passes := s.passes + [s.current])
    else s.(scan := next)
  }

  function Run(s: Session, events: seq<Event>): Session
    decreases events
  {
    if events == [] then s else Run(Step(s, events[0]), events[1..])
  }

  // Stored names are never empty and hold no terminator.
  ghost predicate ProperNames(list: seq<Network>) {
    forall n | n in list :: n.ssid != "" && '\0' !in n.ssid
  }

  // The stored forms of results.
  function Entries(rs: seq<Sighting>): (ns: seq<Network>)
    ensures |ns| == |rs| && forall i :: 0 <= i < |rs| ==> ns[i] == Named(rs[i].ssid, rs[i].secure)
  {
    seq(|rs|, i requires 0 <= i < |rs| => Named(rs[i].ssid, rs[i].secure))
  }

  // The network an entry of a list stands for: the name seen, up to a NUL, hidden networks under one
  // common name, and the security seen with it.
  ghost predicate StandsFor(n: Network, r: Sighting) {
    && n.secure == r.secure
    && (CStr(r.ssid, '\0') != "" ==> n.ssid == CStr(r.ssid, '\0'))
    && (CStr(r.ssid, '\0') == "" ==> n.ssid == "[Hidden SSID]")
  }

  lemma NamedStandsFor(r: Sighting)
    ensures StandsFor(Named(r.ssid, r.secure), r)
    ensures r.ssid != "" && '\0' !in r.ssid ==> Named(r.ssid, r.secure) == Network(r.ssid, r.secure)
  {
    if '\0' !in r.ssid {
      assert r.ssid[..|r.ssid|] == r.ssid;
      CStrIs(r.ssid, '\0', |r.ssid|);
    }
  }

  // For names without a NUL: the entry of a named network is that network, and the common name stands for
  // empty names only (and for a network that really bears it).
  lemma PlainEntry(n: Network, r: Sighting)
    requires '\0' !in r.ssid && StandsFor(n, r)
    ensures r.ssid != "" ==> n == Network(r.ssid, r.secure)
    ensures n.ssid == "[Hidden SSID]" <==> r.ssid == "" || r.ssid == "[Hidden SSID]"
  {
    assert r.ssid[..|r.ssid|] == r.ssid;
    CStrIs(r.ssid, '\0', |r.ssid|);
  }

  lemma EntriesConcat(a: seq<Sighting>, b: seq<Sighting>)
    ensures Entries(a + b) == Entries(a) + Entries(b)
  {
    hide Named;
  }

  lemma EntriesProper(rs: seq<Sighting>)
    ensures ProperNames(Cut32(FirstSeen(Entries(rs))))
  {
    var ns := Entries(rs);
    FirstSeenMeaning(ns);
    forall n | n in Cut32(FirstSeen(ns))
      ensures n.ssid != "" && '\0' !in n.ssid
    {
      assert n in FirstSeen(ns);
    }
  }

  ghost predicate Inv(s: Session) {
    && s.scan.networks == AddAll([], Entries(s.current))
    && s.scan.master == AddAll([], Entries(Flatten(s.passes)))
    && |s.passes| + s.scan.remaining == s.requested
    && s.begun == |s.passes| + (if s.scan.inProgress then 1 else 0)
    && (s.scan.scheduled ==> !s.scan.inProgress)
    && (s.requested >= 1 ==> s.scan.remaining >= 0 && (s.scan.scheduled || s.scan.inProgress ==> s.scan.remaining > 0))
    && (s.requested >= 1 && IsDone(s.scan) ==> s.passes != [] && s.current == s.passes[|s.passes| - 1])
  }

  // Closing a pass merges its results.
  lemma CloseMerges(s: Session)
    requires Inv(s) && s.scan.inProgress
    ensures AddAll(s.scan.master, s.scan.networks) == AddAll([], Entries(Flatten(s.passes + [s.current])))
  {
    hide Entries, Add;
    FlattenConcat(s.passes, [s.current]);
    assert Flatten([s.current]) == s.current;
    EntriesConcat(Flatten(s.passes), s.current);
    AddAllConcat([], Entries(Flatten(s.passes)), Entries(s.current));
    MergeKeptIsMergeAll(s.scan.master, [], Entries(s.current));
  }

  lemma OneMore(current: seq<Sighting>, r: Sighting)
    ensures AddAll([], Entries(current + [r])) == Add(AddAll([], Entries(current)), Named(r.ssid, r.secure))
  {
    hide Add, Named;
    EntriesConcat(current, [r]);
    assert Entries([r]) == [Named(r.ssid, r.secure)];
    AddAllConcat([], Entries(current), Entries([r]));
    AddOne(AddAll([], Entries(current)), Named(r.ssid, r.secure));
  }

  lemma StepKeepsInv(s: Session, e: Event)
    requires Inv(s)
    ensures Inv(Step(s, e))
  {
    hide Add, Named, Flatten, Entries;
    match e {
      case WorkerFired(failed) =>
        NoEntries();
      case ResultSeen(ssid, secure) =>
        OneMore(s.current, Sighting(ssid, secure));
      case ScanEnded =>
        if s.scan.inProgress {
          CloseMerges(s);
        }
      case PollCalled(timedOut) =>
        if s.scan.inProgress {
          CloseMerges(s);
        }
    }
  }

  lemma NoEntries()
    ensures Entries([]) == []
  {
  }

  lemma {:induction false} RunKeepsInv(s: Session, events: seq<Event>)
    requires Inv(s)
    ensures Inv(Run(s, events)) && Run(s, events).requested == s.requested
    decreases events
  {
    hide Inv;
    if events != [] {
      StepKeepsInv(s, events[0]);
      RunKeepsInv(Step(s, events[0]), events[1..]);
    }
  }

  // Over every interleaving: each pass begun is finished at most once, finished passes and the counter
  // make up the request, both lists stay within capacity and free of repeats, and the master list is the
  // first-seen list of everything the finished passes reported, cut at the capacity.
  lemma ScanIsConserved(scans: int, events: seq<Event>)
    ensures var s := Run(Begin(scans), events);
            && |s.passes| <= s.begun <= |s.passes| + 1
            && |s.passes| + s.scan.remaining == scans
            && s.scan.master == Cut32(FirstSeen(Entries(Flatten(s.passes))))
            && NoRepeats(s.scan.master) && |s.scan.master| <= 32 && ProperNames(s.scan.master)
            && s.scan.networks == Cut32(FirstSeen(Entries(s.current)))
            && NoRepeats(s.scan.networks) && |s.scan.networks| <= 32 && ProperNames(s.scan.networks)
  {
    hide AddAll, FirstSeen, Entries, Cut32;
    var s := Run(Begin(scans), events);
    BeginInv(scans);
    RunKeepsInv(Begin(scans), events);
    AddAllIsFirstSeen(Entries(Flatten(s.passes)));
    AddAllNoRepeats([], Entries(Flatten(s.passes)));
    AddAllIsFirstSeen(Entries(s.current));
    AddAllNoRepeats([], Entries(s.current));
    EntriesProper(Flatten(s.passes));
    EntriesProper(s.current);
  }

  lemma BeginInv(scans: int)
    ensures Inv(Begin(scans))
  {
  }

  // The scan reads as finished exactly when as many passes are as were requested; only a request of
  // none also has to wait for the pass that runs all the same.
  lemma FinishedMeansAllPasses(scans: int, events: seq<Event>)
    ensures var s := Run(Begin(scans), events);
            && (scans >= 1 ==> |s.passes| <= scans)
            && (IsDone(s.scan) <==> |s.passes| == scans && (scans >= 1 || !s.scan.inProgress))
  {
    hide AddAll;
    BeginInv(scans);
    RunKeepsInv(Begin(scans), events);
  }

  // A list made of results: each entry stands for the first result of its name, and each result has an
  // entry of its name unless the list is full.
  ghost predicate ListsFirst(list: seq<Network>, rs: seq<Sighting>) {
    && (forall n | n in list :: IsFirst(n, rs))
    && (|list| < 32 ==> forall r | r in rs :: exists n :: n in list && SameName(n, r))
  }

  ghost predicate IsFirst(n: Network, rs: seq<Sighting>) {
    exists i :: 0 <= i < |rs| && StandsFor(n, rs[i]) && NotBefore(n.ssid, rs, i)
  }

  // None of the first i results is listed under this name.
  ghost predicate NotBefore(name: string, rs: seq<Sighting>, i: nat) {
    forall j, n: Network :: 0 <= j < i && j < |rs| && StandsFor(n, rs[j]) ==> n.ssid != name
  }

  ghost predicate SameName(n: Network, r: Sighting) {
    StandsFor(Network(n.ssid, r.secure), r)
  }

  lemma FirstSeenLists(rs: seq<Sighting>)
    ensures ListsFirst(Cut32(FirstSeen(Entries(rs))), rs)
  {
    hide FirstSeen, StandsFor, Named;
    var ns := Entries(rs);
    var list := Cut32(FirstSeen(ns));
    FirstSeenMeaning(ns);
    forall n | n in list
      ensures IsFirst(n, rs)
    {
      assert n in FirstSeen(ns);
      var i :| 0 <= i < |ns| && ns[i] == n && !Has(ns[..i], n.ssid);
      NamedStandsFor(rs[i]);
      NotHadBefore(rs, i, n.ssid);
    }
    if |list| < 32 {
      assert list == FirstSeen(ns);
      forall r | r in rs
        ensures exists n :: n in list && SameName(n, r)
      {
        var i :| 0 <= i < |rs| && rs[i] == r;
        assert Has(ns, ns[i].ssid);
        var k :| 0 <= k < |list| && list[k].ssid == ns[i].ssid;
        NamedStandsFor(rs[i]);
        assert Network(list[k].ssid, rs[i].secure) == ns[i] by {
          SecureKept(rs[i]);
        }
        assert list[k] in list && SameName(list[k], rs[i]);
      }
    }
  }

  lemma SecureKept(r: Sighting)
    ensures Named(r.ssid, r.secure).secure == r.secure
  {
  }

  lemma NotHadBefore(rs: seq<Sighting>, i: nat, name: string)
    requires i <= |rs| && !Has(Entries(rs)[..i], name)
    ensures NotBefore(name, rs, i)
  {
    hide Named;
    forall j, n: Network | 0 <= j < i && StandsFor(n, rs[j])
      ensures n.ssid != name
    {
      NamedStandsFor(rs[j]);
      assert Entries(rs)[..i][j].ssid == n.ssid;
    }
  }

  // Every record is a result that was seen.
  ghost predicate AllSeen(rs: seq<Sighting>, events: seq<Event>) {
    forall r | r in rs :: ResultSeen(r.ssid, r.secure) in events
  }

  ghost predicate FromEvents(s: Session, events: seq<Event>) {
    AllSeen(s.current, events) && forall pass | pass in s.passes :: AllSeen(pass, events)
  }

  lemma StepRecords(s: Session, before: seq<Event>, e: Event)
    requires FromEvents(s, before)
    ensures FromEvents(Step(s, e), before + [e])
  {
    hide Seen, Named, Finished, Worked, Polled;
    var t := Step(s, e);
    forall pass | pass in t.passes
      ensures AllSeen(pass, before + [e])
    {
      assert pass in s.passes || pass == s.current;
    }
  }

  lemma {:induction false} RunRecords(s: Session, before: seq<Event>, events: seq<Event>)
    requires FromEvents(s, before)
    ensures FromEvents(Run(s, events), before + events)
    decreases events
  {
    hide Step, FromEvents;
    if events == [] {
      assert before + events == before;
    } else {
      StepRecords(s, before, events[0]);
      RunRecords(Step(s, events[0]), before + [events[0]], events[1..]);
      assert before + events == (before + [events[0]]) + events[1..];
    }
  }

  // What the portal offers once a started scan reads as finished: the networks of the last pass and of no
  // other, each with the name and the security its first result brought, and all of them unless there are
  // 32; and the results of that pass are results that were seen.
  lemma PortalOffersLastPass(scans: int, events: seq<Event>)
    requires scans >= 1
    ensures var s := Run(Begin(scans), events);
            IsDone(s.scan) ==>
              && |s.passes| == scans
              && ListsFirst(s.scan.networks, s.passes[scans - 1])
              && forall r | r in s.passes[scans - 1] :: ResultSeen(r.ssid, r.secure) in events
  {
    hide AddAll, FirstSeen, Entries, ListsFirst, Run;
    var s := Run(Begin(scans), events);
    BeginInv(scans);
    RunKeepsInv(Begin(scans), events);
    AddAllIsFirstSeen(Entries(s.current));
    FirstSeenLists(s.current);
    RunRecords(Begin(scans), [], events);
    assert [] + events == events;
    assert IsDone(s.scan) ==> s.passes[scans - 1] in s.passes;
  }

  // An open pass ends by a poll if and only if the time is over or 32 networks are listed, and always by
  // the radio's last result.
  lemma PassEnds(s: Session, timedOut: bool)
    requires s.scan.inProgress
    ensures !Step(s, PollCalled(timedOut)).scan.inProgress <==> timedOut || |s.scan.networks| >= 32
    ensures !(timedOut || |s.scan.networks| >= 32) ==> Step(s, PollCalled(timedOut)) == s
    ensures !Step(s, ScanEnded).scan.inProgress
    ensures Step(s, ScanEnded).passes == s.passes + [s.current]
  {
    hide AddAll;
  }

  // Between passes with none scheduled and some outstanding, nothing ever moves again.
  lemma {:induction false} IdleIsStuck(s: Session, events: seq<Event>)
    requires !s.scan.scheduled && !s.scan.inProgress
    ensures Run(s, events) == s
    decreases events
  {
    if events != [] {
      IdleIsStuck(s, events[1..]);
    }
  }

  ghost predicate CanFinish(s: Session) {
    exists events :: IsDone(Run(s, events).scan)
  }

  lemma RunNothing(s: Session)
    ensures Run(s, []) == s
  {
  }

  lemma RunFirst(s: Session, e: Event, rest: seq<Event>)
    ensures Run(s, [e] + rest) == Run(Step(s, e), rest)
  {
    hide Step;
    assert ([e] + rest)[1..] == rest;
  }

  // One way for the remaining passes to run: each begins and ends.
  lemma {:induction false} PassesToGo(s: Session) returns (events: seq<Event>)
    requires Inv(s) && s.requested >= 1 && (s.scan.scheduled || s.scan.inProgress)
    ensures IsDone(Run(s, events).scan)
    decreases s.scan.remaining
  {
    hide AddAll, Add, Run;
    var begun := if s.scan.inProgress then s else Step(s, WorkerFired(false));
    var ended := Step(begun, ScanEnded);
    StepKeepsInv(s, WorkerFired(false));
    StepKeepsInv(begun, ScanEnded);
    RunNothing(ended);
    events := [];
    if !IsDone(ended.scan) {
      events := PassesToGo(ended);
    }
    RunFirst(begun, ScanEnded, events);
    events := [ScanEnded] + events;
    if !s.scan.inProgress {
      RunFirst(s, WorkerFired(false), events);
      events := [WorkerFired(false)] + events;
    }
  }

  // A scan can still come to read as finished if and only if a pass is scheduled or open, or none is left.
  lemma CanFinishWhen(s: Session)
    requires Inv(s) && s.requested >= 1
    ensures CanFinish(s) <==> s.scan.scheduled || s.scan.inProgress || s.scan.remaining == 0
  {
    if s.scan.scheduled || s.scan.inProgress {
      var events := PassesToGo(s);
      assert IsDone(Run(s, events).scan);
    } else if s.scan.remaining == 0 {
      assert IsDone(Run(s, []).scan);
    } else {
      forall events
        ensures !IsDone(Run(s, events).scan)
      {
        IdleIsStuck(s, events);
      }
    }
  }

  // Some scheduled worker of the run failed to request its pass.
  ghost predicate WorkerFailed(s: Session, events: seq<Event>)
    decreases events
  {
    && events != []
    && ((s.scan.scheduled && events[0] == WorkerFired(true)) || WorkerFailed(Step(s, events[0]), events[1..]))
  }

  lemma {:induction false} FailureStops(s: Session, events: seq<Event>)
    requires Inv(s) && s.requested >= 1
    requires s.scan.scheduled || s.scan.inProgress || s.scan.remaining == 0
    ensures var t := Run(s, events).scan;
            t.scheduled || t.inProgress || t.remaining == 0 <==> !WorkerFailed(s, events)
    decreases events
  {
    hide AddAll, Add;
    if events != [] {
      var t := Step(s, events[0]);
      StepKeepsInv(s, events[0]);
      if s.scan.scheduled && events[0] == WorkerFired(true) {
        IdleIsStuck(t, events[1..]);
      } else {
        FailureStops(t, events[1..]);
      }
    }
  }

  // After any run of a started scan: it can still finish if and only if no scheduled worker has failed.
  lemma FinishesUnlessWorkerFails(scans: int, events: seq<Event>)
    requires scans >= 1
    ensures CanFinish(Run(Begin(scans), events)) <==> !WorkerFailed(Begin(scans), events)
  {
    hide Inv, Run, CanFinish, WorkerFailed;
    BeginInv(scans);
    RunKeepsInv(Begin(scans), events);
    CanFinishWhen(Run(Begin(scans), events));
    FailureStops(Begin(scans), events);
  }
}
