// Printing flat objects and scanning them back; the server response as the device reads it.
module JsonRoundTrip {
  import opened Bytes
  import opened Search
  import opened JsonParser

  // A string, a literal, or any other unquoted text: a number, but also what the scan makes of nested values.
  datatype Value = Str(text: string) | Bool(b: bool) | Null | Bare(text: string)

  // A member with the text around it: before the key, before the colon, and before the value.
  datatype Member = Member(gap: string, key: string, mid: string, space: string, value: Value)

  function ValueText(v: Value): string {
    match v
    case Str(text) => text
    case Bool(b) => if b then "true" else "false"
    case Null => "null"
    case Bare(text) => text
  }

  // Printing in front of the rest of the text.
  function PrintValue(v: Value, rest: string): string {
    if v.Str? then "\"" + (v.text + ("\"" + rest)) else ValueText(v) + rest
  }

  function PrintColon(m: Member, rest: string): string {
    m.mid + (":" + (m.space + PrintValue(m.value, rest)))
  }

  function PrintMember(m: Member, rest: string): string {
    m.gap + ("\"" + (m.key + ("\"" + PrintColon(m, rest))))
  }

  function Print(ms: seq<Member>, tail: string): string {
    if ms == [] then tail else PrintMember(ms[0], Print(ms[1..], tail))
  }

  // Where the parts of a member printed at `base` start.
  function KeyAt(base: nat, m: Member): nat {
    base + |m.gap| + 1
  }

  function ColonAt(base: nat, m: Member): nat {
    KeyAt(base, m) + |m.key| + 1 + |m.mid|
  }

  function ValueAt(base: nat, m: Member): nat {
    ColonAt(base, m) + 1 + |m.space|
  }

  function EndAt(base: nat, m: Member): nat {
    ValueAt(base, m) + |ValueText(m.value)| + (if m.value.Str? then 2 else 0)
  }

  // No character that ends an unquoted value.
  predicate IsUnbroken(text: string) {
    forall c | c in text :: c !in {',', '}', ' ', '\n', '\r'}
  }

  // Neither a string, nor one of the literals, nor white space.
  predicate IsBareText(text: string) {
    text != "" && text[0] !in {'\"', 't', 'f', 'n', '\t'} && IsUnbroken(text)
  }

  predicate IsNumberText(text: string) {
    text != "" && ('0' <= text[0] <= '9' || text[0] == '-') && IsUnbroken(text)
  }

  // The text ends, or goes on with a character that ends an unquoted value.
  predicate Breaks(rest: string) {
    rest == "" || rest[0] in {',', '}', ' ', '\n', '\r'}
  }

  // Quote-free keys, strings and gaps; before the colon no colon, after it only white space;
  // and behind an unquoted value something that ends it.
  predicate Printable(m: Member, rest: string) {
    && '\"' !in m.gap && '\"' !in m.key && ':' !in m.mid
    && (forall c | c in m.space :: c in {' ', '\t', '\n', '\r'})
    && (m.value.Str? ==> '\"' !in m.value.text)
    && (m.value.Bare? ==> IsBareText(m.value.text) && Breaks(rest))
  }

  predicate AllPrintable(ms: seq<Member>, tail: string)
    decreases ms
  {
    if ms == [] then '\"' !in tail
    else Printable(ms[0], Print(ms[1..], tail)) && AllPrintable(ms[1..], tail)
  }

  // What the scan makes of a member printed at `base`.
  function PairAt(base: nat, m: Member): Pair {
    Pair(KeyAt(base, m), if m.value.Str? then ValueAt(base, m) + 1 else ValueAt(base, m), |ValueText(m.value)|)
  }

  function PairsAt(base: nat, ms: seq<Member>): (r: seq<Pair>)
    ensures |r| == |ms|
    decreases ms
  {
    if ms == [] then [] else [PairAt(base, ms[0])] + PairsAt(EndAt(base, ms[0]), ms[1..])
  }

  // ---- one member ----

  ghost predicate PrintedAt(s: string, base: nat, m: Member, rest: string) {
    base <= |s| && s[base..] == PrintMember(m, rest)
  }

  lemma KeyLayout(s: string, base: nat, m: Member, rest: string)
    requires PrintedAt(s, base, m, rest)
    ensures var k := KeyAt(base, m);
            && k + |m.key| < |s|
            && s[base..k - 1] == m.gap && s[k - 1] == '\"'
            && s[k..k + |m.key|] == m.key && s[k + |m.key|] == '\"'
            && s[k + |m.key| + 1..] == PrintColon(m, rest)
  {
    hide PrintColon;
    var k := KeyAt(base, m);
    Cut(s, base, m.gap, "\"" + (m.key + ("\"" + PrintColon(m, rest))));
    Cut(s, k - 1, "\"", m.key + ("\"" + PrintColon(m, rest)));
    Cut(s, k, m.key, "\"" + PrintColon(m, rest));
    Cut(s, k + |m.key|, "\"", PrintColon(m, rest));
  }

  lemma ColonLayout(s: string, at: nat, m: Member, rest: string)
    requires at <= |s| && s[at..] == PrintColon(m, rest)
    ensures var c := at + |m.mid|;
            && c + 1 + |m.space| <= |s|
            && s[at..c] == m.mid && s[c] == ':' && s[c + 1..c + 1 + |m.space|] == m.space
            && s[c + 1 + |m.space|..] == PrintValue(m.value, rest)
  {
    hide PrintValue;
    var c := at + |m.mid|;
    Cut(s, at, m.mid, ":" + (m.space + PrintValue(m.value, rest)));
    Cut(s, c, ":", m.space + PrintValue(m.value, rest));
    Cut(s, c + 1, m.space, PrintValue(m.value, rest));
  }

  lemma ValueLayout(s: string, v: nat, value: Value, rest: string)
    requires v <= |s| && s[v..] == PrintValue(value, rest)
    ensures var n := |ValueText(value)|;
            if value.Str? then
              && v + n + 2 <= |s| && s[v] == '\"' && s[v + 1..v + 1 + n] == value.text && s[v + 1 + n] == '\"'
              && s[v + n + 2..] == rest
            else
              v + n <= |s| && s[v..v + n] == ValueText(value) && s[v + n..] == rest
  {
    if value.Str? {
      Cut(s, v, "\"", value.text + ("\"" + rest));
      Cut(s, v + 1, value.text, "\"" + rest);
      Cut(s, v + 1 + |value.text|, "\"", rest);
    } else {
      Cut(s, v, ValueText(value), rest);
    }
  }

  lemma SpaceSkipped(s: string, from: nat, v: nat)
    requires from <= v <= |s| && forall c | c in s[from..v] :: IsSpace(c)
    requires v < |s| ==> !IsSpace(s[v])
    ensures SkipSpace(s, from) == v
  {
    assert forall j :: from <= j < v ==> s[j] in s[from..v];
  }

  lemma TokenFound(s: string, from: nat, e: nat)
    requires from <= e <= |s| && forall c | c in s[from..e] :: !EndsToken(c)
    requires e < |s| ==> EndsToken(s[e])
    ensures TokenEnd(s, from) == e
  {
    assert forall j :: from <= j < e ==> s[j] in s[from..e];
  }

  lemma StringScanned(s: string, v: nat, text: string)
    requires v + |text| + 2 <= |s| && s[v] == '\"' && s[v + 1..v + 1 + |text|] == text && s[v + 1 + |text|] == '\"'
    requires '\"' !in text
    ensures ScanValue(s, v) == Some((v + 1, |text|, v + |text| + 2))
  {
    FirstAfter(s, v + 1, v + 1 + |text|, '\"');
  }

  lemma LiteralScanned(s: string, v: nat, value: Value)
    requires value.Bool? || value.Null?
    requires v + |ValueText(value)| <= |s| && s[v..v + |ValueText(value)|] == ValueText(value)
    ensures v < |s| && s[v] == ValueText(value)[0]
    ensures ScanValue(s, v) == Some((v, |ValueText(value)|, v + |ValueText(value)|))
  {
    var t := ValueText(value);
    assert s[v] == s[v..v + |t|][0];
    assert v + 4 <= |s| ==> s[v..v + 4][0] == s[v];
    assert v + 5 <= |s| ==> s[v..v + 5][0] == s[v];
  }

  // Neither a string nor one of the literals: what the scan takes up to the next break.
  predicate IsPlainToken(text: string) {
    IsUnbroken(text) && (text != "" ==> text[0] !in {'\"', 't', 'f', 'n'})
  }

  // An unquoted value, be it empty, is scanned as printed if and only if the text ends behind it or goes on
  // with a comma, a closing brace, a space or a line end; a tab, for one, is taken into the value.
  lemma TokenNeedsBreak(s: string, v: nat, text: string, rest: string)
    requires IsPlainToken(text) && v <= |s| && s[v..] == text + rest
    requires text == "" ==> rest == "" || rest[0] !in {'\"', 't', 'f', 'n'}
    ensures ScanValue(s, v) == Some((v, |text|, v + |text|)) <==>
            rest == "" || rest[0] in {',', '}', ' ', '\n', '\r'}
  {
    hide ScanValue;
    Cut(s, v, text, rest);
    var e := v + |text|;
    assert e < |s| ==> s[e] == s[e..][0];
    PlainScanned(s, v);
    if rest == "" || rest[0] in {',', '}', ' ', '\n', '\r'} {
      TokenFound(s, v, e);
    } else {
      assert TokenEnd(s, v) != e;
    }
  }

  lemma FirstDiffers(s: string, v: nat, literal: string)
    requires v < |s| && literal != "" && s[v] != literal[0]
    ensures !Matches(s, literal, v)
  {
    assert v + |literal| <= |s| ==> s[v..v + |literal|][0] == s[v];
  }

  lemma PlainScanned(s: string, v: nat)
    requires v <= |s| && (v < |s| ==> s[v] !in {'\"', 't', 'f', 'n'})
    ensures ScanValue(s, v) == Some((v, TokenEnd(s, v) - v, TokenEnd(s, v)))
  {
    if v < |s| {
      FirstDiffers(s, v, "true");
      FirstDiffers(s, v, "false");
      FirstDiffers(s, v, "null");
    }
  }

  // In particular a number in front of a comma ends there, and one in front of a tab does not.
  lemma NumberNeedsEnd(s: string, v: nat, text: string, rest: string)
    requires IsNumberText(text) && v <= |s| && s[v..] == text + rest
    ensures ScanValue(s, v) == Some((v, |text|, v + |text|)) <==>
            rest == "" || rest[0] == ',' || rest[0] == '}' || rest[0] == ' ' || rest[0] == '\n' || rest[0] == '\r'
  {
    hide ScanValue;
    TokenNeedsBreak(s, v, text, rest);
  }

  // The value of a printed member, scanned.
  lemma ValueScanned(s: string, v: nat, value: Value, rest: string)
    requires v <= |s| && s[v..] == PrintValue(value, rest)
    requires value.Str? ==> '\"' !in value.text
    requires value.Bare? ==> IsBareText(value.text) && Breaks(rest)
    ensures v < |s| && !IsSpace(s[v])
    ensures var n := |ValueText(value)|;
            ScanValue(s, v) == Some(if value.Str? then (v + 1, n, v + n + 2) else (v, n, v + n))
  {
    hide ScanValue;
    ValueLayout(s, v, value, rest);
    match value
    case Str(text) => StringScanned(s, v, text);
    case Bool(b) => LiteralScanned(s, v, value);
    case Null => LiteralScanned(s, v, value);
    case Bare(text) =>
      TokenNeedsBreak(s, v, text, rest);
      assert s[v] == s[v..v + |text|][0] == text[0];
      assert text[0] in text;
  }

  lemma ColonFound(s: string, e: nat, mid: string)
    requires e + 1 + |mid| < |s| && s[e] != ':' && s[e + 1..e + 1 + |mid|] == mid && s[e + 1 + |mid|] == ':'
    requires ':' !in mid
    ensures IndexOf(s, ':', e) == Some(e + 1 + |mid|)
  {
    assert s[e..e + 1 + |mid|] == [s[e]] + mid;
    FirstAfter(s, e, e + 1 + |mid|, ':');
  }

  // The scan's path through the key, given where its parts are.
  lemma PairFrom(s: string, p: nat, k: nat, e: nat, c: nat, start: nat, length: nat, next: nat)
    requires p < k <= e < c <= |s|
    requires IndexOf(s, '\"', p) == Some(k - 1) && IndexOf(s, '\"', k) == Some(e) && IndexOf(s, ':', e) == Some(c)
    requires c < |s| && ScanValue(s, SkipSpace(s, c + 1)) == Some((start, length, next))
    ensures ScanPair(s, p) == Some((Pair(k, start, length), next))
  {
    hide ScanValue, SkipSpace;
  }

  lemma KeyScanned(s: string, base: nat, m: Member, rest: string)
    requires PrintedAt(s, base, m, rest) && Printable(m, rest)
    ensures var k := KeyAt(base, m);
            && k + |m.key| + 1 <= |s| && s[k + |m.key| + 1..] == PrintColon(m, rest) && s[k + |m.key|] != ':'
            && IndexOf(s, '\"', base) == Some(k - 1) && IndexOf(s, '\"', k) == Some(k + |m.key|)
  {
    hide PrintMember, PrintColon;
    var k := KeyAt(base, m);
    KeyLayout(s, base, m, rest);
    FirstAfter(s, base, k - 1, '\"');
    FirstAfter(s, k, k + |m.key|, '\"');
  }

  lemma ColonPart(s: string, e: nat, m: Member, rest: string)
    requires e + 1 <= |s| && s[e + 1..] == PrintColon(m, rest) && s[e] != ':' && ':' !in m.mid
    requires forall x | x in m.space :: IsSpace(x)
    ensures var c := e + 1 + |m.mid|;
            var v := c + 1 + |m.space|;
            && c < |s| && IndexOf(s, ':', e) == Some(c)
            && v <= |s| && (forall x | x in s[c + 1..v] :: IsSpace(x)) && s[v..] == PrintValue(m.value, rest)
  {
    hide PrintColon, PrintValue, IsSpace;
    ColonLayout(s, e + 1, m, rest);
    ColonFound(s, e, m.mid);
  }

  lemma ColonScanned(s: string, e: nat, m: Member, rest: string)
    requires e + 1 <= |s| && s[e + 1..] == PrintColon(m, rest) && s[e] != ':' && Printable(m, rest)
    ensures var c := e + 1 + |m.mid|;
            var v := c + 1 + |m.space|;
            var n := |ValueText(m.value)|;
            && c < |s| && IndexOf(s, ':', e) == Some(c) && v <= |s| && SkipSpace(s, c + 1) == v
            && ScanValue(s, v) == Some(if m.value.Str? then (v + 1, n, v + n + 2) else (v, n, v + n))
  {
    hide PrintColon, PrintValue, ScanValue, ValueText, SkipSpace, IndexOf, IsBareText;
    var c := e + 1 + |m.mid|;
    var v := c + 1 + |m.space|;
    ColonPart(s, e, m, rest);
    ValueScanned(s, v, m.value, rest);
    SpaceSkipped(s, c + 1, v);
  }

  lemma MemberScanned(s: string, base: nat, m: Member, rest: string)
    requires PrintedAt(s, base, m, rest) && Printable(m, rest)
    ensures ScanPair(s, base) == Some((PairAt(base, m), EndAt(base, m)))
  {
    hide PrintedAt, Printable, PrintColon, ScanValue, ValueText, ScanPair, SkipSpace;
    KeyScanned(s, base, m, rest);
    var k := KeyAt(base, m);
    ColonScanned(s, k + |m.key|, m, rest);
    var pair := PairAt(base, m);
    PairFrom(s, base, k, k + |m.key|, ColonAt(base, m), pair.start, pair.length, EndAt(base, m));
  }

  lemma MemberRest(s: string, base: nat, m: Member, rest: string)
    requires PrintedAt(s, base, m, rest)
    ensures base < EndAt(base, m) <= |s| && s[EndAt(base, m)..] == rest
  {
    hide PrintMember, PrintColon, PrintValue;
    KeyLayout(s, base, m, rest);
    ColonLayout(s, KeyAt(base, m) + |m.key| + 1, m, rest);
    ValueLayout(s, ValueAt(base, m), m.value, rest);
  }

  // ---- whole objects ----

  lemma NoPairs(s: string, p: nat, max: nat)
    requires p <= |s| && '\"' !in s[p..]
    ensures Pairs(s, p, max) == []
  {
    assert forall j :: p <= j < |s| ==> s[j] == s[p..][j - p];
  }

  // The scan returns the pairs of a printed object in order, up to the limit.
  lemma {:induction false} PrintedObjectScanned(s: string, base: nat, ms: seq<Member>, tail: string, max: nat)
    requires base <= |s| && s[base..] == Print(ms, tail) && AllPrintable(ms, tail)
    ensures Pairs(s, base, max) == PairsAt(base, ms[..Min(|ms|, max)])
    decreases ms
  {
    hide ScanPair, PrintMember, PairAt, EndAt, Printable;
    if ms == [] {
      NoPairs(s, base, max);
    } else if max > 0 {
      var rest := Print(ms[1..], tail);
      MemberScanned(s, base, ms[0], rest);
      MemberRest(s, base, ms[0], rest);
      PrintedObjectScanned(s, EndAt(base, ms[0]), ms[1..], tail, max - 1);
      assert ms[..Min(|ms|, max)][1..] == ms[1..][..Min(|ms|, max) - 1];
    }
  }

  // What the device sees of a member: its key text and its value, at the places the pair names.
  ghost predicate ReadsBack(s: string, pair: Pair, m: Member) {
    && pair.key + |m.key| < |s|
    && s[pair.key..pair.key + |m.key|] == m.key && s[pair.key + |m.key|] == '\"'
    && HoldsValue(s, pair.start, pair.length, m.value)
  }

  ghost predicate HoldsValue(s: string, start: nat, length: nat, value: Value) {
    && 1 <= start && start + length <= |s|
    && length == |ValueText(value)| && s[start..start + length] == ValueText(value)
    && (value.Str? <==> s[start - 1] == '\"')
    && (value.Str? ==> start + length < |s| && s[start + length] == '\"')
  }

  lemma SpaceBefore(s: string, c: nat, v: nat)
    requires c < v <= |s| && s[c] == ':' && forall x | x in s[c + 1..v] :: IsSpace(x)
    ensures s[v - 1] != '\"'
  {
    if v - 1 > c {
      assert s[c + 1..v][v - c - 2] == s[v - 1];
      assert IsSpace(s[c + 1..v][v - c - 2]);
    }
  }

  lemma ValueReadsBack(s: string, at: nat, m: Member, rest: string)
    requires at <= |s| && s[at..] == PrintColon(m, rest) && forall c | c in m.space :: IsSpace(c)
    ensures var v := at + |m.mid| + 1 + |m.space|;
            HoldsValue(s, if m.value.Str? then v + 1 else v, |ValueText(m.value)|, m.value)
  {
    hide PrintColon, PrintValue;
    var v := at + |m.mid| + 1 + |m.space|;
    ColonLayout(s, at, m, rest);
    SpaceBefore(s, at + |m.mid|, v);
    ValueLayout(s, v, m.value, rest);
  }

  lemma PairReadsBack(s: string, base: nat, m: Member, rest: string)
    requires PrintedAt(s, base, m, rest) && Printable(m, rest)
    ensures ReadsBack(s, PairAt(base, m), m)
  {
    hide PrintMember, PrintColon, HoldsValue;
    KeyLayout(s, base, m, rest);
    ValueReadsBack(s, KeyAt(base, m) + |m.key| + 1, m, rest);
  }

  lemma {:induction false} PairsReadBack(s: string, base: nat, ms: seq<Member>, tail: string, n: nat)
    requires base <= |s| && s[base..] == Print(ms, tail) && AllPrintable(ms, tail) && n <= |ms|
    ensures forall i :: 0 <= i < n ==> ReadsBack(s, PairsAt(base, ms[..n])[i], ms[i])
    decreases ms
  {
    hide PrintMember, PairAt, EndAt, Printable, ReadsBack;
    if n > 0 {
      var rest := Print(ms[1..], tail);
      PairReadsBack(s, base, ms[0], rest);
      MemberRest(s, base, ms[0], rest);
      PairsReadBack(s, EndAt(base, ms[0]), ms[1..], tail, n - 1);
      assert ms[..n][1..] == ms[1..][..n - 1];
      forall i | 0 <= i < n
        ensures ReadsBack(s, PairsAt(base, ms[..n])[i], ms[i])
      {
        if i > 0 {
          assert PairsAt(base, ms[..n])[i] == PairsAt(EndAt(base, ms[0]), ms[1..][..n - 1])[i - 1];
          assert ms[1..][i - 1] == ms[i];
        }
      }
    }
  }

  // ---- texts that end too early ----

  // No quote is left, or only one.
  lemma NoKeyEnds(s: string, p: nat, a: string, b: string)
    requires p <= |s| && '\"' !in a && '\"' !in b
    requires s[p..] == a || s[p..] == a + ("\"" + b)
    ensures ScanPair(s, p) == None && forall max: nat :: Pairs(s, p, max) == []
  {
    if s[p..] == a {
      assert forall j :: p <= j < |s| ==> s[j] == a[j - p];
    } else {
      var k := p + |a|;
      Cut(s, p, a, "\"" + b);
      Cut(s, k, "\"", b);
      FirstAfter(s, p, k, '\"');
      assert forall j :: k + 1 <= j < |s| ==> s[j] == s[k + 1..][j - k - 1];
    }
  }

  // The first c behind a gap without one.
  lemma CharFound(s: string, p: nat, gap: string, c: char, rest: string)
    requires p <= |s| && c !in gap && s[p..] == gap + ([c] + rest)
    ensures var k := p + |gap|; k < |s| && s[k] == c && s[k + 1..] == rest && IndexOf(s, c, p) == Some(k)
    ensures s[p..p + |gap|] == gap
  {
    var k := p + |gap|;
    Cut(s, p, gap, [c] + rest);
    Cut(s, k, [c], rest);
    FirstAfter(s, p, k, c);
  }

  lemma QuotesFound(s: string, p: nat, gap: string, key: string, rest: string)
    requires p <= |s| && '\"' !in gap && '\"' !in key && s[p..] == gap + ("\"" + (key + ("\"" + rest)))
    ensures var k := p + |gap|;
            var e := k + 1 + |key|;
            && e < |s| && s[e] == '\"' && s[e + 1..] == rest
            && IndexOf(s, '\"', p) == Some(k) && IndexOf(s, '\"', k + 1) == Some(e)
  {
    hide IndexOf;
    CharFound(s, p, gap, '\"', key + ("\"" + rest));
    CharFound(s, p + |gap| + 1, key, '\"', rest);
  }

  lemma NoneBehind(s: string, from: nat, c: char)
    requires from <= |s| && c !in s[from..]
    ensures IndexOf(s, c, from) == None
  {
    assert forall j :: from <= j < |s| ==> s[j] == s[from..][j - from];
  }

  // A key without a colon behind it.
  lemma NoColonEnds(s: string, p: nat, gap: string, key: string, rest: string)
    requires p <= |s| && '\"' !in gap && '\"' !in key && ':' !in rest
    requires s[p..] == gap + ("\"" + (key + ("\"" + rest)))
    ensures ScanPair(s, p) == None && forall max: nat :: Pairs(s, p, max) == []
  {
    hide IndexOf;
    QuotesFound(s, p, gap, key, rest);
    var e := p + |gap| + 1 + |key|;
    assert s[e..] == ['\"'] + s[e + 1..];
    NoneBehind(s, e, ':');
  }

  lemma OpenValue(s: string, v: nat, text: string)
    requires v <= |s| && s[v..] == "\"" + text && '\"' !in text
    ensures v < |s| && s[v] == '\"' && ScanValue(s, v) == None
  {
    Cut(s, v, "\"", text);
    NoneBehind(s, v + 1, '\"');
  }

  lemma OpenBehindSpace(s: string, from: nat, space: string, text: string)
    requires from <= |s| && s[from..] == space + ("\"" + text) && '\"' !in text
    requires forall c | c in space :: c in {' ', '\t', '\n', '\r'}
    ensures ScanValue(s, SkipSpace(s, from)) == None
  {
    hide SkipSpace, ScanValue;
    Cut(s, from, space, "\"" + text);
    OpenValue(s, from + |space|, text);
    SpaceSkipped(s, from, from + |space|);
  }

  // A string value without its closing quote; `tail` is what stands behind the colon.
  lemma OpenStringEnds(
    s: string, p: nat, gap: string, key: string, mid: string, tail: string, space: string, text: string)
    requires '\"' !in gap && '\"' !in key && ':' !in mid && '\"' !in text
    requires forall c | c in space :: c in {' ', '\t', '\n', '\r'}
    requires tail == space + ("\"" + text)
    requires p <= |s| && s[p..] == gap + ("\"" + (key + ("\"" + (mid + (":" + tail)))))
    ensures ScanPair(s, p) == None && forall max: nat :: Pairs(s, p, max) == []
  {
    hide SkipSpace, IndexOf, ScanValue;
    var e := p + |gap| + 1 + |key|;
    QuotesFound(s, p, gap, key, mid + (":" + tail));
    CharFound(s, e + 1, mid, ':', tail);
    ColonFound(s, e, mid);
    OpenBehindSpace(s, e + 1 + |mid| + 1, space, text);
  }

  // Exactly the four white space characters are skipped in front of a value.
  lemma SpaceIsSkipped(s: string, from: nat, space: string, rest: string)
    requires from <= |s| && s[from..] == space + rest && forall c | c in space :: c in {' ', '\t', '\n', '\r'}
    ensures SkipSpace(s, from) == from + |space| <==> rest == "" || rest[0] !in {' ', '\t', '\n', '\r'}
  {
    Cut(s, from, space, rest);
    var v := from + |space|;
    assert v < |s| ==> s[v] == s[v..][0];
    if v == |s| || !IsSpace(s[v]) {
      SpaceSkipped(s, from, v);
    }
  }
}
