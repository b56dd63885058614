// The flat key/value scanner. A C string is the text before its terminator, pointers are indices into it.
module JsonParser {
  import opened Bytes
  import opened Search

  datatype Pair = Pair(key: nat, start: nat, length: nat)

  predicate IsSpace(c: char) {
    c == ' ' || c == '\t' || c == '\n' || c == '\r'
  }

  // What ends an unquoted value. A tab does not.
  predicate EndsToken(c: char) {
    c == ',' || c == '}' || c == ' ' || c == '\n' || c == '\r'
  }

  function SkipSpace(s: string, from: nat): (r: nat)
    requires from <= |s|
    ensures from <= r <= |s| && (r < |s| ==> !IsSpace(s[r]))
    ensures forall j :: from <= j < r ==> IsSpace(s[j])
    decreases |s| - from
  {
    if from < |s| && IsSpace(s[from]) then SkipSpace(s, from + 1) else from
  }

  function TokenEnd(s: string, from: nat): (r: nat)
    requires from <= |s|
    ensures from <= r <= |s| && (r < |s| ==> EndsToken(s[r]))
    ensures forall j :: from <= j < r ==> !EndsToken(s[j])
    decreases |s| - from
  {
    if from < |s| && !EndsToken(s[from]) then TokenEnd(s, from + 1) else from
  }

  // The value at v, and the cursor behind it.
  function ScanValue(s: string, v: nat): (r: Option<(nat, nat, nat)>)
    requires v <= |s|
    ensures r.Some? ==> v <= r.value.0 && r.value.0 + r.value.1 <= r.value.2 <= |s|
  {
    if v < |s| && s[v] == '\"' then
      match IndexOf(s, '\"', v + 1)
      case None => None
      case Some(e) => Some((v + 1, e - (v + 1), e + 1))
    else if Matches(s, "true", v) then Some((v, 4, v + 4))
    else if Matches(s, "false", v) then Some((v, 5, v + 5))
    else if Matches(s, "null", v) then Some((v, 4, v + 4))
    else Some((v, TokenEnd(s, v) - v, TokenEnd(s, v)))
  }

  // One turn of the scan: the pair it stores and the new cursor, or None for a break.
  function ScanPair(s: string, p: nat): (r: Option<(Pair, nat)>)
    requires p <= |s|
    ensures r.Some? ==> p < r.value.1 <= |s|
  {
    match IndexOf(s, '\"', p)
    case None => None
    case Some(keyStart) =>
      match IndexOf(s, '\"', keyStart + 1)
      case None => None
      case Some(keyEnd) =>
        match IndexOf(s, ':', keyEnd)
        case None => None
        case Some(colon) =>
          match ScanValue(s, SkipSpace(s, colon + 1))
          case None => None
          case Some((start, length, next)) => Some((Pair(keyStart + 1, start, length), next))
  }

  // All pairs from the cursor on, at most `max`.
  function Pairs(s: string, p: nat, max: nat): (r: seq<Pair>)
    requires p <= |s|
    ensures |r| <= max
    decreases max
  {
    if p == |s| || max == 0 then []
    else match ScanPair(s, p)
      case None => []
      case Some((pair, next)) => [pair] + Pairs(s, next, max - 1)
  }

  method SkipSpaces(json: string, from: nat) returns (v: nat)
    requires from <= |json|
    ensures v == SkipSpace(json, from)
  {
    v := from;
    while v < |json| && IsSpace(json[v])
      invariant from <= v <= |json|
      invariant SkipSpace(json, v) == SkipSpace(json, from)
    {
      v := v + 1;
    }
  }

  // The branches on the value: where it starts, its length, and the cursor behind it.
  method ReadValue(json: string, v: nat) returns (r: Option<(nat, nat, nat)>)
    requires v <= |json|
    ensures r == ScanValue(json, v)
  {
    if v < |json| && json[v] == '\"' {
      var close := IndexOf(json, '\"', v + 1);
      if close.None? {
        return None;
      }
      return Some((v + 1, close.value - (v + 1), close.value + 1));
    } else if Matches(json, "true", v) {
      return Some((v, 4, v + 4));
    } else if Matches(json, "false", v) {
      return Some((v, 5, v + 5));
    } else if Matches(json, "null", v) {
      return Some((v, 4, v + 4));
    } else {
      var end := v;
      while end < |json| && !EndsToken(json[end])
        invariant v <= end <= |json|
        invariant TokenEnd(json, end) == TokenEnd(json, v)
      {
        end := end + 1;
      }
      return Some((v, end - v, end));
    }
  }

  // The body of the scan loop up to the store.
  method ReadPair(json: string, p: nat) returns (r: Option<(Pair, nat)>)
    requires p <= |json|
    ensures r == ScanPair(json, p)
  {
    hide ScanValue, SkipSpace;
    var keyStart := IndexOf(json, '\"', p);
    if keyStart.None? {
      return None;
    }
    var keyEnd := IndexOf(json, '\"', keyStart.value + 1);
    if keyEnd.None? {
      return None;
    }
    var colon := IndexOf(json, ':', keyEnd.value);
    if colon.None? {
      return None;
    }
    var v := SkipSpaces(json, colon.value + 1);
    var value := ReadValue(json, v);
    if value.None? {
      return None;
    }
    var (valueStart, valueLength, next) := value.value;
    return Some((Pair(keyStart.value + 1, valueStart, valueLength), next));
  }

  method ParseJsonPairs(json: string, out: array<Pair>, maxPairs: nat) returns (count: nat)
    requires maxPairs <= out.Length
    modifies out
    ensures count <= maxPairs
    ensures out[..count] == Pairs(json, 0, maxPairs)
    ensures forall k :: count <= k < out.Length ==> out[k] == old(out[k])
  {
    hide ScanPair;
    count := 0;
    var p := 0;
    while p < |json| && count < maxPairs
      invariant p <= |json| && count <= maxPairs
      invariant out[..count] + Pairs(json, p, maxPairs - count) == Pairs(json, 0, maxPairs)
      invariant forall k :: count <= k < out.Length ==> out[k] == old(out[k])
      decreases |json| - p
    {
      var r := ReadPair(json, p);
      if r.None? {
        break;
      }
      StoreOne(json, p, maxPairs - count, out[..count]);
      out[count] := r.value.0;
      assert out[..count + 1] == out[..count] + [r.value.0];
      count := count + 1;
      p := r.value.1;
    }
    assert out[..count] + [] == out[..count];
  }

  lemma StoreOne(s: string, p: nat, max: nat, stored: seq<Pair>)
    requires p < |s| && max > 0 && ScanPair(s, p).Some?
    ensures var (pair, next) := ScanPair(s, p).value;
            stored + Pairs(s, p, max) == stored + [pair] + Pairs(s, next, max - 1)
  {
    hide ScanPair;
  }

  // ---- every text ----

  // Each key slice (up to its closing quote) and each value slice lies inside the text,
  // key before value, and every pair behind the one before it.
  ghost predicate Slices(s: string, from: nat, pairs: seq<Pair>)
    decreases pairs
  {
    pairs == [] ||
    (var pair := pairs[0];
     && from < pair.key <= |s|
     && s[pair.key - 1] == '\"'
     && (exists close :: ClosesKey(s, pair.key, close) && close < pair.start)
     && pair.start + pair.length <= |s|
     && Slices(s, pair.start + pair.length, pairs[1..]))
  }

  ghost predicate ClosesKey(s: string, key: nat, close: int) {
    key <= close < |s| && s[close] == '\"' && '\"' !in s[key..close]
  }

  lemma PairIsSlice(s: string, p: nat)
    requires p <= |s| && ScanPair(s, p).Some?
    ensures var (pair, next) := ScanPair(s, p).value;
            && p < pair.key <= |s| && s[pair.key - 1] == '\"'
            && (exists close :: ClosesKey(s, pair.key, close) && close < pair.start)
            && pair.start + pair.length <= next <= |s|
  {
    var (pair, next) := ScanPair(s, p).value;
    var keyStart := IndexOf(s, '\"', p).value;
    var keyEnd := IndexOf(s, '\"', keyStart + 1).value;
    assert ClosesKey(s, pair.key, keyEnd) && keyEnd < pair.start;
  }

  lemma {:induction false} ScanIsSafe(s: string, p: nat, max: nat, from: nat)
    requires from <= p <= |s|
    ensures Slices(s, from, Pairs(s, p, max))
    decreases max
  {
    hide ScanPair;
    if p < |s| && max > 0 && ScanPair(s, p).Some? {
      var (pair, next) := ScanPair(s, p).value;
      PairIsSlice(s, p);
      ScanIsSafe(s, next, max - 1, pair.start + pair.length);
      assert Pairs(s, p, max)[1..] == Pairs(s, next, max - 1);
    }
  }

  // ---- lookup ----

  datatype JsonType = STRING | BOOLEAN | NUMBER | NULLTYPE | UNKNOWN

  datatype JsonValue = JsonValue(typ: JsonType, start: nat, length: nat)

  function Classify(s: string, start: nat, length: nat): JsonType
    requires 1 <= start <= |s|
  {
    if length == 4 && Matches(s, "null", start) then NULLTYPE
    else if length == 4 && Matches(s, "true", start) then BOOLEAN
    else if length == 5 && Matches(s, "false", start) then BOOLEAN
    else if length > 0 && s[start - 1] == '\"' then STRING
    else if start < |s| && ('0' <= s[start] <= '9' || s[start] == '-') then NUMBER
    else UNKNOWN
  }

  ghost predicate InText(s: string, pairs: seq<Pair>) {
    forall i :: 0 <= i < |pairs| ==> pairs[i].key <= |s| && 1 <= pairs[i].start <= |s|
  }

  // The value of the first pair whose key starts with the text looked for.
  function Get(s: string, pairs: seq<Pair>, key: string): Option<JsonValue>
    requires InText(s, pairs)
  {
    if pairs == [] then None
    else if Matches(s, key, pairs[0].key) then
      Some(JsonValue(Classify(s, pairs[0].start, pairs[0].length), pairs[0].start, pairs[0].length))
    else Get(s, pairs[1..], key)
  }

  method JsonGet(json: string, pairs: array<Pair>, count: nat, key: string, previous: JsonValue)
    returns (found: bool, out: JsonValue)
    requires count <= pairs.Length && InText(json, pairs[..count])
    ensures found == Get(json, pairs[..count], key).Some?
    ensures out == if found then Get(json, pairs[..count], key).value else previous
  {
    out := previous;
    var i := 0;
    while i < count
      invariant 0 <= i <= count
      invariant Get(json, pairs[i..count], key) == Get(json, pairs[..count], key)
    {
      assert InText(json, pairs[i..count]);
      assert pairs[i..count][1..] == pairs[i + 1..count];
      assert pairs[..count][i] == pairs[i];
      if Matches(json, key, pairs[i].key) {
        out := JsonValue(Classify(json, pairs[i].start, pairs[i].length), pairs[i].start, pairs[i].length);
        return true, out;
      }
      i := i + 1;
    }
    return false, out;
  }

  function GetString(s: string, v: JsonValue, maxLen: nat): Option<string>
    requires v.start + v.length <= |s|
  {
    if v.typ != STRING || v.length >= maxLen then None else Some(s[v.start..v.start + v.length])
  }

  function GetBool(s: string, v: JsonValue): Option<bool> {
    if v.typ != BOOLEAN then None
    else if v.length == 4 && Matches(s, "true", v.start) then Some(true)
    else if v.length == 5 && Matches(s, "false", v.start) then Some(false)
    else None
  }
}
