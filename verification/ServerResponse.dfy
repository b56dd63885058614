// The three facts the device takes from the server's answer.
module ServerResponse {
  import opened Bytes
  import opened Search
  import opened JsonParser
  import opened JsonRoundTrip

  const ID_SIZE: nat := 64
  const MAX_PAIRS: nat := 8

  datatype Response = Response(deviceId: string, hasDeviceId: bool, isLightEnabled: bool, shouldUpdate: bool)

  function FlagFrom(s: string, pairs: seq<Pair>, key: string): bool
    requires InText(s, pairs)
  {
    match Get(s, pairs, key)
    case None => false
    case Some(v) => GetBool(s, v) == Some(true)
  }

  ghost predicate InBounds(s: string, pairs: seq<Pair>) {
    InText(s, pairs) && forall i :: 0 <= i < |pairs| ==> pairs[i].start + pairs[i].length <= |s|
  }

  lemma GetInBounds(s: string, pairs: seq<Pair>, key: string)
    requires InBounds(s, pairs)
    ensures var v := Get(s, pairs, key); v.Some? ==> v.value.start + v.value.length <= |s|
    decreases pairs
  {
    if pairs != [] {
      GetInBounds(s, pairs[1..], key);
    }
  }

  function IdFrom(s: string, pairs: seq<Pair>): Option<string>
    requires InBounds(s, pairs)
  {
    GetInBounds(s, pairs, "DeviceId");
    match Get(s, pairs, "DeviceId")
    case None => None
    case Some(v) => if v.typ == NULLTYPE then None else GetString(s, v, ID_SIZE)
  }

  lemma ScannedInBounds(s: string, p: nat, max: nat)
    requires p <= |s|
    ensures InBounds(s, Pairs(s, p, max))
    decreases max
  {
    hide ScanPair;
    if p < |s| && max > 0 && ScanPair(s, p).Some? {
      var (pair, next) := ScanPair(s, p).value;
      PairIsSlice(s, p);
      ScannedInBounds(s, next, max - 1);
    }
  }

  // What the parser takes from the pairs of a text.
  function Concluded(s: string, pairs: seq<Pair>): Response
    requires InBounds(s, pairs)
  {
    var id := IdFrom(s, pairs);
    Response(if id.Some? then id.value else "", id.Some?,
             FlagFrom(s, pairs, "IsLightEnabled"), FlagFrom(s, pairs, "ShouldUpdate"))
  }

  method ParseServerResponse(json: string) returns (ok: bool, out: Response)
    ensures ok
    ensures var pairs := Pairs(json, 0, MAX_PAIRS); InBounds(json, pairs) && out == Concluded(json, pairs)
  {
    out := Response("", false, false, false);
    var pairs := new Pair[MAX_PAIRS](_ => Pair(0, 0, 0));
    var count := ParseJsonPairs(json, pairs, MAX_PAIRS);
    ScannedInBounds(json, 0, MAX_PAIRS);
    ghost var found := pairs[..count];
    var v := JsonValue(UNKNOWN, 0, 0);
    var has: bool;
    has, v := JsonGet(json, pairs, count, "DeviceId", v);
    if has {
      GetInBounds(json, found, "DeviceId");
      if v.typ == NULLTYPE {
        out := out.(deviceId := "", hasDeviceId := false);
      } else {
        var id := GetString(json, v, ID_SIZE);
        if id.Some? {
          out := out.(deviceId := id.value, hasDeviceId := true);
        }
      }
    }
    has, v := JsonGet(json, pairs, count, "IsLightEnabled", v);
    if has {
      var b := GetBool(json, v);
      if b.Some? {
        out := out.(isLightEnabled := b.value);
      }
    }
    has, v := JsonGet(json, pairs, count, "ShouldUpdate", v);
    if has {
      var b := GetBool(json, v);
      if b.Some? {
        out := out.(shouldUpdate := b.value);
      }
    }
    return true, out;
  }

  // ---- the answer as an object ----

  // The value under the first key that extends the one looked for.
  function Lookup(ms: seq<Member>, key: string): Option<Value> {
    if ms == [] then None
    else if key <= ms[0].key then Some(ms[0].value)
    else Lookup(ms[1..], key)
  }

  // The type the device gives a value: a quoted true, false or null counts as the literal,
  // an empty string, and unquoted text that is no number, as nothing.
  function TypeOf(v: Value): JsonType {
    if ValueText(v) == "null" then NULLTYPE
    else if ValueText(v) == "true" || ValueText(v) == "false" then BOOLEAN
    else if v.Str? then (if v.text == "" then UNKNOWN else STRING)
    else if v.Bare? && v.text != "" && ('0' <= v.text[0] <= '9' || v.text[0] == '-') then NUMBER
    else UNKNOWN
  }

  function BoolOf(v: Value): bool {
    ValueText(v) == "true"
  }

  function IdOf(v: Value): Option<string> {
    if TypeOf(v) == STRING && |ValueText(v)| < ID_SIZE then Some(ValueText(v)) else None
  }

  ghost predicate ProperValue(v: Value) {
    v.Bare? ==> IsBareText(v.text)
  }

  lemma SliceMatches(s: string, start: nat, length: nat, text: string, literal: string)
    requires start + length <= |s| && length == |text| && s[start..start + length] == text
    ensures length == |literal| ==> (Matches(s, literal, start) <==> text == literal)
  {
  }

  lemma ClassifiedAsPrinted(s: string, start: nat, length: nat, v: Value)
    requires HoldsValue(s, start, length, v) && ProperValue(v)
    ensures Classify(s, start, length) == TypeOf(v)
    ensures Matches(s, "true", start) && length == 4 <==> ValueText(v) == "true"
    ensures Matches(s, "false", start) && length == 5 <==> ValueText(v) == "false"
  {
    var t := ValueText(v);
    SliceMatches(s, start, length, t, "null");
    SliceMatches(s, start, length, t, "true");
    SliceMatches(s, start, length, t, "false");
    if v.Bare? {
      assert s[start] == s[start..start + length][0];
    }
  }

  // A quote-free key is found in front of a member's key exactly if that key extends it.
  lemma KeyMatches(s: string, pair: Pair, m: Member, key: string)
    requires pair.key + |m.key| < |s| && s[pair.key..pair.key + |m.key|] == m.key && s[pair.key + |m.key|] == '\"'
    requires '\"' !in key
    ensures Matches(s, key, pair.key) <==> key <= m.key
  {
    var k := pair.key;
    if key <= m.key {
      assert s[k..k + |key|] == s[k..k + |m.key|][..|key|];
    }
    if Matches(s, key, k) {
      if |key| <= |m.key| {
        assert s[k..k + |key|] == s[k..k + |m.key|][..|key|];
      }
    }
  }

  ghost predicate AllReadBack(s: string, pairs: seq<Pair>, ms: seq<Member>) {
    |pairs| == |ms| && forall i :: 0 <= i < |ms| ==> ReadsBack(s, pairs[i], ms[i]) && ProperValue(ms[i].value)
  }

  lemma ReadBackInBounds(s: string, pairs: seq<Pair>, ms: seq<Member>)
    requires AllReadBack(s, pairs, ms)
    ensures InBounds(s, pairs)
  {
    forall i | 0 <= i < |pairs|
      ensures pairs[i].key <= |s| && 1 <= pairs[i].start && pairs[i].start + pairs[i].length <= |s|
    {
      assert ReadsBack(s, pairs[i], ms[i]);
    }
  }

  lemma {:induction false} GetIsLookup(s: string, pairs: seq<Pair>, ms: seq<Member>, key: string)
    requires AllReadBack(s, pairs, ms) && InBounds(s, pairs) && '\"' !in key
    ensures Get(s, pairs, key).Some? == Lookup(ms, key).Some?
    ensures Get(s, pairs, key).Some? ==>
              var v, w := Get(s, pairs, key).value, Lookup(ms, key).value;
              v.typ == TypeOf(w) && HoldsValue(s, v.start, v.length, w) && ProperValue(w)
    decreases ms
  {
    hide TypeOf, Classify, HoldsValue, ProperValue;
    if ms != [] {
      assert ReadsBack(s, pairs[0], ms[0]) && ProperValue(ms[0].value);
      KeyMatches(s, pairs[0], ms[0], key);
      ClassifiedAsPrinted(s, pairs[0].start, pairs[0].length, ms[0].value);
      assert AllReadBack(s, pairs[1..], ms[1..]) by {
        assert forall i :: 0 <= i < |ms| - 1 ==> pairs[1..][i] == pairs[i + 1] && ms[1..][i] == ms[i + 1];
      }
      GetIsLookup(s, pairs[1..], ms[1..], key);
    }
  }

  // What the device concludes from an object.
  function Understood(ms: seq<Member>): Response {
    var id := match Lookup(ms, "DeviceId") case None => None case Some(v) => IdOf(v);
    var light := match Lookup(ms, "IsLightEnabled") case None => false case Some(v) => BoolOf(v);
    var update := match Lookup(ms, "ShouldUpdate") case None => false case Some(v) => BoolOf(v);
    Response(if id.Some? then id.value else "", id.Some?, light, update)
  }

  lemma FlagUnderstood(s: string, pairs: seq<Pair>, ms: seq<Member>, key: string)
    requires AllReadBack(s, pairs, ms) && InBounds(s, pairs) && '\"' !in key
    ensures FlagFrom(s, pairs, key) == match Lookup(ms, key) case None => false case Some(v) => BoolOf(v)
  {
    hide Get, Classify;
    GetIsLookup(s, pairs, ms, key);
    if Lookup(ms, key).Some? {
      var v, w := Get(s, pairs, key).value, Lookup(ms, key).value;
      ClassifiedAsPrinted(s, v.start, v.length, w);
    }
  }

  lemma IdUnderstood(s: string, pairs: seq<Pair>, ms: seq<Member>)
    requires AllReadBack(s, pairs, ms) && InBounds(s, pairs)
    ensures IdFrom(s, pairs) == match Lookup(ms, "DeviceId") case None => None case Some(v) => IdOf(v)
  {
    hide Get;
    GetInBounds(s, pairs, "DeviceId");
    GetIsLookup(s, pairs, ms, "DeviceId");
  }

  lemma {:induction false} PrintableIsProper(ms: seq<Member>, tail: string)
    requires AllPrintable(ms, tail)
    ensures forall i :: 0 <= i < |ms| ==> ProperValue(ms[i].value)
    decreases ms
  {
    hide Print;
    if ms != [] {
      PrintableIsProper(ms[1..], tail);
      assert forall i :: 1 <= i < |ms| ==> ms[i] == ms[1..][i - 1];
    }
  }

  // For every printed object, with any quote-free text in front: the parser concludes exactly what the
  // first eight members say, a key being answered by the first member whose key extends it.
  lemma ResponseUnderstood(ms: seq<Member>, tail: string)
    requires AllPrintable(ms, tail)
    ensures var s := Print(ms, tail);
            var pairs := Pairs(s, 0, MAX_PAIRS);
            InBounds(s, pairs) && Concluded(s, pairs) == Understood(ms[..Min(|ms|, 8)])
  {
    hide Print, AllPrintable, ReadsBack, ProperValue, Pairs, PairsAt, IdFrom, FlagFrom, Lookup;
    var s := Print(ms, tail);
    var n := Min(|ms|, MAX_PAIRS);
    assert s[0..] == s;
    PrintedObjectScanned(s, 0, ms, tail, MAX_PAIRS);
    PairsReadBack(s, 0, ms, tail, n);
    PrintableIsProper(ms, tail);
    var pairs := PairsAt(0, ms[..n]);
    assert AllReadBack(s, pairs, ms[..n]);
    ReadBackInBounds(s, pairs, ms[..n]);
    IdUnderstood(s, pairs, ms[..n]);
    FlagUnderstood(s, pairs, ms[..n], "IsLightEnabled");
    FlagUnderstood(s, pairs, ms[..n], "ShouldUpdate");
  }

  // ---- what prefix matching does to the answer ----

  // The value under the key itself, as the server means it.
  function Exact(ms: seq<Member>, key: string): Option<Value> {
    if ms == [] then None
    else if ms[0].key == key then Some(ms[0].value)
    else Exact(ms[1..], key)
  }

  // The first member whose key extends the one looked for.
  function FirstExtending(ms: seq<Member>, key: string): (r: Option<nat>)
    ensures r.Some? ==> r.value < |ms| && key <= ms[r.value].key
    ensures forall j :: 0 <= j < (if r.Some? then r.value else |ms|) ==> !(key <= ms[j].key)
  {
    if ms == [] then None
    else if key <= ms[0].key then Some(0)
    else
      var r := FirstExtending(ms[1..], key);
      assert forall j :: 1 <= j < |ms| ==> ms[j] == ms[1..][j - 1];
      if r.Some? then Some(r.value + 1) else None
  }

  // No key extends the one looked for, or the first that does is that key or has the value meant.
  predicate Unshadowed(ms: seq<Member>, key: string) {
    match FirstExtending(ms, key)
    case None => true
    case Some(k) => ms[k].key == key || Exact(ms[k..], key) == Some(ms[k].value)
  }

  // Looking up finds the value meant if and only if no other key stands in front of it with another value.
  lemma {:induction false} LookupIsExact(ms: seq<Member>, key: string)
    ensures Lookup(ms, key) == Exact(ms, key) <==> Unshadowed(ms, key)
    ensures FirstExtending(ms, key) == None ==> Lookup(ms, key) == None && Exact(ms, key) == None
    ensures FirstExtending(ms, key).Some? ==> Lookup(ms, key) == Some(ms[FirstExtending(ms, key).value].value)
    decreases ms
  {
    if ms != [] {
      if key <= ms[0].key {
        assert ms[0..] == ms;
      } else {
        LookupIsExact(ms[1..], key);
        if FirstExtending(ms, key).Some? {
          var k := FirstExtending(ms[1..], key).value;
          assert ms[k + 1..] == ms[1..][k..];
        }
      }
    }
  }

  // The first member whose key extends the one looked for says the same.
  predicate SaysAlso(ms: seq<Member>, key: string, b: bool) {
    var k := FirstExtending(ms, key);
    k.Some? && BoolOf(ms[k.value].value) == b
  }

  // What the server means, recovered: of the three values among the first eight members, the identifier comes
  // through if and only if no other key shadows it, it has 1 to 63 characters and it is none of the literals;
  // a flag, if and only if the first member whose key extends its key says the same.
  lemma ResponseRecovered(ms: seq<Member>, tail: string, id: string, light: bool, update: bool)
    requires AllPrintable(ms, tail)
    requires var seen := ms[..Min(|ms|, 8)];
             && Exact(seen, "DeviceId") == Some(Str(id))
             && Exact(seen, "IsLightEnabled") == Some(Bool(light)) && Exact(seen, "ShouldUpdate") == Some(Bool(update))
    ensures var s := Print(ms, tail);
            var seen, pairs := ms[..Min(|ms|, 8)], Pairs(s, 0, MAX_PAIRS);
            && InBounds(s, pairs)
            && ((Concluded(s, pairs).hasDeviceId && Concluded(s, pairs).deviceId == id) <==>
                Unshadowed(seen, "DeviceId") && 1 <= |id| <= 63 && id !in {"true", "false", "null"})
            && (Concluded(s, pairs).isLightEnabled == light <==> SaysAlso(seen, "IsLightEnabled", light))
            && (Concluded(s, pairs).shouldUpdate == update <==> SaysAlso(seen, "ShouldUpdate", update))
            && (Unshadowed(seen, "IsLightEnabled") ==> SaysAlso(seen, "IsLightEnabled", light))
            && (Unshadowed(seen, "ShouldUpdate") ==> SaysAlso(seen, "ShouldUpdate", update))
  {
    hide Print, AllPrintable, Pairs, Concluded, Lookup, Exact, FirstExtending, Unshadowed;
    var seen := ms[..Min(|ms|, MAX_PAIRS)];
    ResponseUnderstood(ms, tail);
    LookupIsExact(seen, "DeviceId");
    LookupIsExact(seen, "IsLightEnabled");
    LookupIsExact(seen, "ShouldUpdate");
  }

  // Such an object: a key that goes on behind the one looked for, in front of it.
  lemma ShadowedId()
    ensures var ms := [Member("{", "DeviceIdOld", "", " ", Str("a")), Member(", ", "DeviceId", "", " ", Str("b"))];
            && AllPrintable(ms, "}")
            && Exact(ms, "DeviceId") == Some(Str("b")) && !Unshadowed(ms, "DeviceId")
            && Understood(ms).hasDeviceId && Understood(ms).deviceId == "a"
  {
    var ms := [Member("{", "DeviceIdOld", "", " ", Str("a")), Member(", ", "DeviceId", "", " ", Str("b"))];
    assert "DeviceId" <= ms[0].key by {
      assert ms[0].key[..8] == "DeviceId";
    }
    assert ms[1..][1..] == [];
    assert Exact(ms[1..], "DeviceId") == Some(Str("b"));
    assert FirstExtending(ms, "DeviceId") == Some(0);
    assert ms[0..] == ms;
  }
}
