// The portal's request as the network delivers it: each segment is looked at by itself.
module PortalRequest {
  import opened Bytes
  import opened Search
  import opened FormData
  import opened DeviceConfig
  import ConfigRuns

  const CR: byte := 13
  const LF: byte := 10
  const BLANK_LINE: seq<byte> := [CR, LF, CR, LF]

  const BUFFER_SIZE: nat := 2048

  // What onReceive makes of a segment: the C string at the front of its zeroed buffer.
  function Copied(segment: seq<byte>): seq<byte> {
    CStr(segment[..Min(|segment|, BUFFER_SIZE - 1)], 0)
  }

  // Requests that are answered before the form is looked for, wherever the text stands.
  const PROBES: seq<string> := [
    "GET /generate_204", "GET /gen_204", "GET /hotspot-detect.html", "GET /captive.apple.com",
    "GET /connecttest.txt", "GET /redirect", "GET /canonical.html", "GET /msdownload", "GET /favicon.ico"
  ]

  predicate Diverted(req: seq<byte>) {
    || Ascii("GET /204") <= req
    || exists i :: 0 <= i < |PROBES| && Find(req, Ascii(PROBES[i]), 0).Some?
  }

  // The flash after handlePostSave, and whether a reboot was requested.
  function Posted(f: seq<byte>, req: seq<byte>): (seq<byte>, bool)
    requires HasConfig(f)
  {
    match Find(req, BLANK_LINE, 0)
    case None => (f, false)
    case Some(k) => (FieldsSaved(f, req[k + 4..]), true)
  }

  // The flash once the fields of a body are stored.
  function FieldsSaved(f: seq<byte>, body: seq<byte>): (g: seq<byte>)
    requires HasConfig(f)
    ensures |g| == |f|
  {
    PortalSaved(f, UrlDecoded(ExtractField(body, SSID_KEY)), UrlDecoded(ExtractField(body, PASSWORD_KEY)))
  }

  // ... and after onReceive. Every other request is answered without touching the flash.
  function Handled(f: seq<byte>, segment: seq<byte>): (r: (seq<byte>, bool))
    requires HasConfig(f)
    ensures |r.0| == |f|
  {
    var req := Copied(segment);
    if Diverted(req) || !(Ascii("POST /save") <= req) then (f, false) else Posted(f, req)
  }

  function Served(f: seq<byte>, segments: seq<seq<byte>>): (seq<byte>, bool)
    requires HasConfig(f)
    decreases segments
  {
    if segments == [] then (f, false)
    else
      var (g, reboot) := Handled(f, segments[0]);
      var (h, later) := Served(g, segments[1..]);
      (h, reboot || later)
  }

  method HandlePostSave(store: Store, req: seq<byte>) returns (rebootRequested: bool)
    requires store.Valid()
    modifies store.flash, store.flash.cells
    ensures (store.flash.cells[..], rebootRequested) == Posted(old(store.flash.cells[..]), req)
  {
    hide PortalSaved, UrlDecoded, ExtractField;
    var body := Find(req, BLANK_LINE, 0);
    if body.None? {
      return false;
    }
    var text := req[body.value + 4..];
    var ssid := UrlDecode(ExtractField(text, SSID_KEY));
    var password := UrlDecode(ExtractField(text, PASSWORD_KEY));
    store.SavePortal(ssid, password);
    return true;
  }

  method OnReceive(store: Store, segment: seq<byte>) returns (rebootRequested: bool)
    requires store.Valid()
    modifies store.flash, store.flash.cells
    ensures (store.flash.cells[..], rebootRequested) == Handled(old(store.flash.cells[..]), segment)
  {
    hide Posted, Copied;
    var req := Copied(segment);
    if Diverted(req) {
      return false;
    }
    if Ascii("POST /save") <= req {
      rebootRequested := HandlePostSave(store, req);
    } else {
      return false;
    }
  }

  // ---- requests that are none of the form ----

  // The first 2047 bytes, up to a NUL, hold the text.
  ghost predicate Shows(segment: seq<byte>, pat: seq<byte>) {
    exists j :: 0 <= j && j + |pat| <= 2047 && Matches(segment, pat, j) && 0 !in segment[..j + |pat|]
  }

  // Not a POST of the form, or one that holds the text of a captive portal probe or of the icon.
  ghost predicate NoFormPost(segment: seq<byte>) {
    || !(Ascii("POST /save") <= segment)
    || Shows(segment, Ascii("GET /generate_204")) || Shows(segment, Ascii("GET /gen_204"))
    || Shows(segment, Ascii("GET /hotspot-detect.html")) || Shows(segment, Ascii("GET /captive.apple.com"))
    || Shows(segment, Ascii("GET /connecttest.txt")) || Shows(segment, Ascii("GET /redirect"))
    || Shows(segment, Ascii("GET /canonical.html")) || Shows(segment, Ascii("GET /msdownload"))
    || Shows(segment, Ascii("GET /favicon.ico"))
  }

  lemma ShownIsFound(segment: seq<byte>, pat: seq<byte>)
    requires Shows(segment, pat)
    ensures Find(Copied(segment), pat, 0).Some?
  {
    var j :| 0 <= j && j + |pat| <= 2047 && Matches(segment, pat, j) && 0 !in segment[..j + |pat|];
    var req := Copied(segment);
    CopiedReaches(segment, j + |pat|);
    assert req[j..j + |pat|] == segment[j..j + |pat|];
    assert Matches(req, pat, j);
  }

  lemma CopiedReaches(segment: seq<byte>, k: nat)
    requires k <= |segment| && k <= 2047 && 0 !in segment[..k]
    ensures k <= |Copied(segment)| && Copied(segment) <= segment
  {
    var n := Min(|segment|, 2047);
    forall i | 0 <= i < k
      ensures segment[..n][i] != 0
    {
      assert segment[..n][i] == segment[..k][i];
    }
  }

  lemma ProbeIsDiverted(segment: seq<byte>)
    requires exists i :: 0 <= i < |PROBES| && Shows(segment, Ascii(PROBES[i]))
    ensures Diverted(Copied(segment))
  {
    hide Shows;
    var i :| 0 <= i < |PROBES| && Shows(segment, Ascii(PROBES[i]));
    ShownIsFound(segment, Ascii(PROBES[i]));
  }

  lemma ProbeShown(segment: seq<byte>)
    requires NoFormPost(segment) && Ascii("POST /save") <= segment
    ensures exists i :: 0 <= i < |PROBES| && Shows(segment, Ascii(PROBES[i]))
  {
    hide Shows, Ascii;
    assert PROBES[0] == "GET /generate_204" && PROBES[1] == "GET /gen_204" && PROBES[2] == "GET /hotspot-detect.html";
    assert PROBES[3] == "GET /captive.apple.com" && PROBES[4] == "GET /connecttest.txt" && PROBES[5] == "GET /redirect";
    assert PROBES[6] == "GET /canonical.html" && PROBES[7] == "GET /msdownload" && PROBES[8] == "GET /favicon.ico";
  }

  lemma NoFormIsIgnored(f: seq<byte>, segment: seq<byte>)
    requires HasConfig(f) && NoFormPost(segment)
    ensures Handled(f, segment) == (f, false)
  {
    hide Shows, Diverted, Posted, NoFormPost, Ascii;
    CopiedReaches(segment, 0);
    if Ascii("POST /save") <= segment {
      ProbeShown(segment);
      ProbeIsDiverted(segment);
    } else if Ascii("POST /save") <= Copied(segment) {
      PrefixOfPrefix(Ascii("POST /save"), Copied(segment), segment);
    }
  }

  lemma PrefixOfPrefix(a: seq<byte>, b: seq<byte>, c: seq<byte>)
    requires a <= b <= c
    ensures a <= c
  {
  }

  // Whatever else arrives, in any number of segments, leaves the flash alone and asks for no reboot.
  lemma {:induction false} OtherRequestsIgnored(f: seq<byte>, segments: seq<seq<byte>>)
    requires HasConfig(f) && forall segment | segment in segments :: NoFormPost(segment)
    ensures Served(f, segments) == (f, false)
    decreases segments
  {
    hide Handled, NoFormPost;
    if segments != [] {
      NoFormIsIgnored(f, segments[0]);
      OtherRequestsIgnored(f, segments[1..]);
    }
  }

  // ---- fields of a form that was cut off ----

  // The encoded values whose last two bytes can be cut off without a trace: an escaped percent sign at the
  // end loses its digits, and one in front of a final 2 is read for its own first digit.
  predicate EndsAsCut(v: seq<byte>) {
    || (v != [] && v[|v| - 1] == PERCENT)
    || (|v| >= 2 && v[|v| - 2] == PERCENT && v[|v| - 1] == 0x32)
  }

  // j bytes of the encoded value decode to the value.
  predicate Arrived(v: seq<byte>, j: nat) {
    var n := |UrlEncoded(v)|;
    j >= n || (j + 2 == n && EndsAsCut(v))
  }

  lemma {:induction false} EncodedLength(v: seq<byte>)
    ensures |UrlEncoded(v)| >= |v|
    ensures PERCENT in v ==> |UrlEncoded(v)| >= |v| + 2
  {
    hide EncodeByte;
    if v != [] {
      EncodedByteLength(v[0]);
      EncodedLength(v[1..]);
      assert v == [v[0]] + v[1..];
    }
  }

  lemma EncodedByteLength(c: byte)
    ensures |EncodeByte(c)| == 1 || (|EncodeByte(c)| == 3 && EncodeByte(c)[0] == PERCENT)
    ensures |EncodeByte(c)| == 3 ==> EncodeByte(c)[1] != PLUS && EncodeByte(c)[1] != PERCENT
    ensures c == PERCENT ==> EncodeByte(c) == [PERCENT, 0x32, 0x35]
  {
  }

  // Fewer bytes than one escape has decode to themselves.
  lemma PartOfEscape(e: seq<byte>, j: nat)
    requires |e| == 3 && e[0] == PERCENT && e[1] != PLUS && e[1] != PERCENT && j < 3
    ensures UrlDecoded(e[..j]) == e[..j]
  {
    NothingDecoded();
    if j == 1 {
      assert e[..1][1..] == [];
    } else if j == 2 {
      assert e[..2][1..] == [e[1]] && [e[1]][1..] == [];
      assert UrlDecoded([e[1]]) == [e[1]];
      assert UrlDecoded(e[..2]) == [e[0]] + [e[1]];
    }
  }

  lemma ArrivedInFirst(v: seq<byte>, j: nat)
    requires v != [] && j < |EncodeByte(v[0])|
    ensures var e := EncodeByte(v[0]);
            Arrived(v, j) <==> (|e| == 3 && e[..j] == v)
  {
    hide EncodeByte, UrlEncoded;
    EncodedByteLength(v[0]);
    EncodedLength(v);
    EncodedFirst(v);
    EncodedLength(v[1..]);
    EncodedFirst(v[1..]);
    var e := EncodeByte(v[0]);
    if Arrived(v, j) {
      assert PERCENT in v;
      assert |v| <= j <= 2;
      if |v| == 1 {
        assert v == [PERCENT] && UrlEncoded(v[1..]) == [];
      } else {
        EncodedByteLength(v[1]);
      }
    }
    if |e| == 3 && e[..j] == v {
      assert |v| == j;
      if j == 1 {
        assert v == [PERCENT];
      } else if j == 2 {
        assert v[0] == e[..2][0] && v[1] == e[..2][1];
        EncodedFirst(v[1..][1..]);
        DigitTwo();
      }
    }
  }

  lemma DigitTwo()
    ensures EncodeByte(0x32) == [0x32]
  {
  }

  lemma EncodedFirst(v: seq<byte>)
    ensures v == [] ==> UrlEncoded(v) == []
    ensures v != [] ==> UrlEncoded(v) == EncodeByte(v[0]) + UrlEncoded(v[1..])
  {
  }

  lemma ArrivedLater(v: seq<byte>, j: nat)
    requires v != [] && j >= |EncodeByte(v[0])|
    ensures Arrived(v, j) <==> Arrived(v[1..], j - |EncodeByte(v[0])|)
  {
    hide EncodeByte, UrlEncoded;
    EncodedFirst(v);
    EncodedByteLength(v[0]);
    var rest := v[1..];
    EncodedFirst(rest);
    if |rest| == 1 {
      EncodedByteLength(v[1]);
      EncodedFirst(rest[1..]);
      DigitTwo();
    }
  }

  // Cut off, an encoded value decodes to the value if and only if all of it has arrived, or all but the
  // last two bytes of one that ends as described.
  lemma {:induction false} CutDecodes(v: seq<byte>, j: nat)
    requires j <= |UrlEncoded(v)|
    ensures UrlDecoded(UrlEncoded(v)[..j]) == v <==> Arrived(v, j)
  {
    hide EncodeByte, UrlEncoded, UrlDecoded, Arrived;
    EncodedFirst(v);
    if v == [] {
      NothingDecoded();
      AllArrived(v, j);
    } else {
      var e, s := EncodeByte(v[0]), UrlEncoded(v[1..]);
      EncodedByteLength(v[0]);
      if j < |e| {
        assert UrlEncoded(v)[..j] == e[..j];
        ArrivedInFirst(v, j);
        if |e| == 3 {
          PartOfEscape(e, j);
        } else {
          NothingDecoded();
        }
      } else {
        assert UrlEncoded(v)[..j] == e + s[..j - |e|];
        DecodeAfter(v[0], s[..j - |e|]);
        CutDecodes(v[1..], j - |e|);
        ArrivedLater(v, j);
        assert v == [v[0]] + v[1..];
      }
    }
  }

  lemma AllArrived(v: seq<byte>, j: nat)
    requires j >= |UrlEncoded(v)|
    ensures Arrived(v, j)
  {
  }

  // How many of n bytes that start at `start` are among the first k.
  function Part(k: nat, start: nat, n: nat): (j: nat)
    ensures j <= n
  {
    if k < start then 0 else Min(k - start, n)
  }

  lemma CutFirstField(key1: seq<byte>, value1: seq<byte>, key2: seq<byte>, value2: seq<byte>, k: nat)
    requires IsKey(key1) && k <= |Form(key1, value1, key2, value2)|
    ensures var e := UrlEncoded(value1);
            ExtractField(Form(key1, value1, key2, value2)[..k], key1) == e[..Part(k, |key1|, |e|)]
  {
    hide UrlEncoded, ExtractField, IsKey;
    var full, e, n := Form(key1, value1, key2, value2), UrlEncoded(value1), |key1|;
    var body := full[..k];
    assert full[0..n] == key1;
    FindIs(full, key1, 0, 0);
    FindInPrefix(full, key1, k);
    NoAmpersand(value1);
    assert body[0..] == body;
    if k < n {
      NoField(body, key1);
    } else if k <= n + |e| {
      assert body == key1 + e[..k - n];
      LastFieldAt(body, key1, 0, e[..k - n]);
    } else {
      var rest := full[n + |e| + 1..k];
      assert body == key1 + (e + ([AMPERSAND] + rest));
      FieldAt(body, key1, 0, e, rest);
    }
  }

  lemma NoField(body: seq<byte>, key: seq<byte>)
    requires Find(body, key, 0) == None
    ensures ExtractField(body, key) == []
  {
  }

  lemma CutTail(s: seq<byte>, q: nat, key: seq<byte>, value: seq<byte>, k: nat)
    requires q + |key| <= k <= |s| && s[q..] == key + value
    ensures s[..k][q..] == key + value[..k - q - |key|]
  {
    assert s[..k][q..] == s[q..][..k - q];
  }

  lemma SecondPart(key1: seq<byte>, value1: seq<byte>, key2: seq<byte>, value2: seq<byte>)
    ensures var q := |key1| + |UrlEncoded(value1)| + 1;
            && q <= |Form(key1, value1, key2, value2)|
            && Form(key1, value1, key2, value2)[q..] == key2 + UrlEncoded(value2)
  {
    hide UrlEncoded;
  }

  lemma CutSecondField(key1: seq<byte>, value1: seq<byte>, key2: seq<byte>, value2: seq<byte>, k: nat)
    requires IsKey(key1) && IsKey(key2) && key1 != key2 && k <= |Form(key1, value1, key2, value2)|
    ensures var e, start := UrlEncoded(value2), |key1| + |UrlEncoded(value1)| + 1 + |key2|;
            ExtractField(Form(key1, value1, key2, value2)[..k], key2) == e[..Part(k, start, |e|)]
  {
    hide UrlEncoded, ExtractField, IsKey, Form, Find;
    var full, e, q := Form(key1, value1, key2, value2), UrlEncoded(value2), |key1| + |UrlEncoded(value1)| + 1;
    var body := full[..k];
    SecondKeyFound(key1, value1, key2, value2);
    FindInPrefix(full, key2, k);
    NoAmpersand(value2);
    if k < q + |key2| {
      NoField(body, key2);
    } else {
      SecondPart(key1, value1, key2, value2);
      CutTail(full, q, key2, e, k);
      LastFieldAt(body, key2, q, e[..k - q - |key2|]);
    }
  }

  // The first k bytes of the form hold enough of both values.
  predicate FormArrived(ssid: seq<byte>, password: seq<byte>, ssidFirst: bool, k: nat) {
    var s, p := |UrlEncoded(ssid)|, |UrlEncoded(password)|;
    if ssidFirst then Arrived(ssid, Part(k, 5, s)) && Arrived(password, Part(k, 5 + s + 1 + 9, p))
    else Arrived(password, Part(k, 9, p)) && Arrived(ssid, Part(k, 9 + p + 1 + 5, s))
  }

  // Of a form cut off anywhere, extracting and decoding returns what was typed if and only if enough of
  // both values has arrived.
  lemma CutForm(ssid: seq<byte>, password: seq<byte>, ssidFirst: bool, k: nat)
    requires k <= |FormOf(ssid, password, ssidFirst)|
    ensures var body := FormOf(ssid, password, ssidFirst)[..k];
            (&& UrlDecoded(ExtractField(body, SSID_KEY)) == ssid
             && UrlDecoded(ExtractField(body, PASSWORD_KEY)) == password) <==>
            FormArrived(ssid, password, ssidFirst, k)
  {
    hide Form, UrlEncoded, UrlDecoded, ExtractField, Arrived;
    assert SSID_KEY[1] != PASSWORD_KEY[1];
    var s, p := |UrlEncoded(ssid)|, |UrlEncoded(password)|;
    if ssidFirst {
      CutFirstField(SSID_KEY, ssid, PASSWORD_KEY, password, k);
      CutSecondField(SSID_KEY, ssid, PASSWORD_KEY, password, k);
      CutDecodes(ssid, Part(k, 5, s));
      CutDecodes(password, Part(k, 5 + s + 1 + 9, p));
    } else {
      CutFirstField(PASSWORD_KEY, password, SSID_KEY, ssid, k);
      CutSecondField(PASSWORD_KEY, password, SSID_KEY, ssid, k);
      CutDecodes(password, Part(k, 9, p));
      CutDecodes(ssid, Part(k, 9 + p + 1 + 5, s));
    }
  }

  // ---- requests in segments ----

  // Text of a request line: it holds a space and no line end.
  ghost predicate LineText(pat: seq<byte>) {
    SPACE in pat && CR !in pat && LF !in pat
  }

  lemma PrintableCode(c: char)
    requires ' ' <= c <= '~'
    ensures CharCode(c) != CR && CharCode(c) != LF
  {
  }

  lemma SpaceCode()
    ensures CharCode(' ') == SPACE
  {
  }

  lemma MethodsDiffer()
    ensures CharCode('P') != CharCode('G')
  {
  }

  lemma AsciiLine(s: string, at: nat)
    requires at < |s| && s[at] == ' ' && forall i :: 0 <= i < |s| ==> ' ' <= s[i] <= '~'
    ensures LineText(Ascii(s))
  {
    hide CharCode;
    SpaceCode();
    assert Ascii(s)[at] == SPACE;
    forall k | 0 <= k < |s|
      ensures Ascii(s)[k] != CR && Ascii(s)[k] != LF
    {
      PrintableCode(s[k]);
    }
  }

  // The request of the portal's page: its head is a request line and headers, without a line that another
  // handler would take for its own, and a blank line ends it.
  ghost predicate PostHead(head: seq<byte>) {
    && Ascii("POST /save") <= head && 0 !in head
    && (forall j :: 0 <= j < |head| ==> !Matches(head + BLANK_LINE, BLANK_LINE, j))
    && (forall j :: 0 < j <= |head| ==> !Matches(head, Ascii("POST /save"), j))
    && (forall i :: 0 <= i < |PROBES| ==> Find(head, Ascii(PROBES[i]), 0) == None)
  }

  function Request(head: seq<byte>, form: seq<byte>): seq<byte> {
    head + BLANK_LINE + form
  }

  lemma CrossingHoldsLineEnd(head: seq<byte>, form: seq<byte>, pat: seq<byte>, j: nat)
    requires Matches(Request(head, form), pat, j) && pat != []
    requires j < |head| + 4 && j + |pat| > |head|
    ensures CR in pat || LF in pat
  {
    var req, h := Request(head, form), |head|;
    var i := if j <= h then h else j;
    assert req[j..j + |pat|][i - j] == req[i] == BLANK_LINE[i - h];
    assert pat[i - j] in pat;
  }

  lemma BehindIsForm(head: seq<byte>, form: seq<byte>, pat: seq<byte>, j: nat)
    requires Matches(Request(head, form), pat, j) && j >= |head| + 4
    ensures forall c | c in pat :: c in form
  {
    var req, h := Request(head, form), |head|;
    forall i | 0 <= i < |pat|
      ensures pat[i] in form
    {
      assert req[j..j + |pat|][i] == req[j + i] == form[j + i - h - 4];
    }
  }

  // A line text found in the request lies in its head: a form holds no space.
  lemma LineTextInHead(head: seq<byte>, form: seq<byte>, pat: seq<byte>, j: nat)
    requires LineText(pat) && SPACE !in form && Matches(Request(head, form), pat, j)
    ensures Matches(head, pat, j)
  {
    if j >= |head| + 4 {
      BehindIsForm(head, form, pat, j);
    } else if j + |pat| > |head| {
      CrossingHoldsLineEnd(head, form, pat, j);
    }
    assert head[j..j + |pat|] == Request(head, form)[j..j + |pat|];
  }

  lemma FirstProbes()
    ensures forall i :: 0 <= i < 3 ==> LineText(Ascii(PROBES[i]))
  {
    hide LineText;
    AsciiLine("GET /generate_204", 3);
    AsciiLine("GET /gen_204", 3);
    AsciiLine("GET /hotspot-detect.html", 3);
  }

  lemma MiddleProbes()
    ensures forall i :: 3 <= i < 6 ==> LineText(Ascii(PROBES[i]))
  {
    hide LineText;
    AsciiLine("GET /captive.apple.com", 3);
    AsciiLine("GET /connecttest.txt", 3);
    AsciiLine("GET /redirect", 3);
  }

  lemma LastProbes()
    ensures forall i :: 6 <= i < 9 ==> LineText(Ascii(PROBES[i]))
  {
    hide LineText;
    AsciiLine("GET /canonical.html", 3);
    AsciiLine("GET /msdownload", 3);
    AsciiLine("GET /favicon.ico", 3);
  }

  lemma PostIsLine()
    ensures LineText(Ascii("POST /save"))
  {
    hide LineText;
    AsciiLine("POST /save", 4);
  }

  lemma FormIsPlain(ssid: seq<byte>, password: seq<byte>, ssidFirst: bool)
    ensures SPACE !in FormOf(ssid, password, ssidFirst) && 0 !in FormOf(ssid, password, ssidFirst)
  {
    hide UrlEncoded;
    EncodedIsPlain(ssid);
    EncodedIsPlain(password);
    assert IsDelimiter(0) && IsDelimiter(SPACE);
    assert 0 !in SSID_KEY && 0 !in PASSWORD_KEY && SPACE !in SSID_KEY && SPACE !in PASSWORD_KEY;
  }

  lemma CopiedWithoutNul(segment: seq<byte>)
    requires 0 !in segment
    ensures Copied(segment) == segment[..Min(|segment|, BUFFER_SIZE - 1)]
  {
    var n := Min(|segment|, BUFFER_SIZE - 1);
    assert segment[..n][..n] == segment[..n];
    CStrIs(segment[..n], 0, n);
  }

  lemma PostIsNotGet(req: seq<byte>)
    requires req != [] ==> req[0] == CharCode('P')
    ensures !(Ascii("GET /204") <= req)
  {
    hide CharCode;
    MethodsDiffer();
    assert Ascii("GET /204")[0] == CharCode('G');
  }

  // No prefix of the request is taken for one of the other handlers.
  lemma NotDiverted(head: seq<byte>, form: seq<byte>, n: nat)
    requires PostHead(head) && SPACE !in form && n <= |Request(head, form)|
    ensures !Diverted(Request(head, form)[..n])
  {
    hide LineText, CharCode, Find;
    var req := Request(head, form);
    FirstProbes();
    MiddleProbes();
    LastProbes();
    assert n > 0 ==> req[..n][0] == head[0] == Ascii("POST /save")[0] == CharCode('P');
    PostIsNotGet(req[..n]);
    forall i | 0 <= i < |PROBES|
      ensures Find(req[..n], Ascii(PROBES[i]), 0) == None
    {
      FindInPrefix(req, Ascii(PROBES[i]), n);
      var r := Find(req, Ascii(PROBES[i]), 0);
      if r.Some? {
        LineTextInHead(head, form, Ascii(PROBES[i]), r.value);
      }
    }
  }

  lemma BlankLineFound(head: seq<byte>, form: seq<byte>, n: nat)
    requires PostHead(head) && n <= |Request(head, form)|
    ensures Find(Request(head, form)[..n], BLANK_LINE, 0) == if |head| + 4 <= n then Some(|head|) else None
  {
    hide Find, CharCode;
    var req := Request(head, form);
    assert req[|head|..|head| + 4] == BLANK_LINE;
    forall j | 0 <= j < |head|
      ensures !Matches(req, BLANK_LINE, j)
    {
      assert req[j..j + 4] == (head + BLANK_LINE)[j..j + 4];
      assert !Matches(head + BLANK_LINE, BLANK_LINE, j);
    }
    FindIs(req, BLANK_LINE, 0, |head|);
    FindInPrefix(req, BLANK_LINE, n);
  }

  // What the first segment does, if it holds m bytes of the request.
  lemma FirstHandled(f: seq<byte>, head: seq<byte>, form: seq<byte>, m: nat)
    requires HasConfig(f) && PostHead(head) && SPACE !in form && 0 !in form && m <= |Request(head, form)|
    ensures var n := Min(m, 2047);
            Handled(f, Request(head, form)[..m]) ==
            if n < |head| + 4 then (f, false) else (FieldsSaved(f, form[..n - |head| - 4]), true)
  {
    hide Diverted, FieldsSaved, Find, CharCode;
    var req, n := Request(head, form), Min(m, BUFFER_SIZE - 1);
    CopiedWithoutNul(req[..m]);
    assert req[..m][..n] == req[..n];
    NotDiverted(head, form, n);
    BlankLineFound(head, form, n);
    if n >= |head| + 4 {
      assert req[..n][|head| + 4..] == form[..n - |head| - 4];
      assert Ascii("POST /save") <= head <= req[..n];
    }
  }

  lemma CopiedStartsWith(req: seq<byte>, p: nat, segment: seq<byte>, pat: seq<byte>)
    requires p + |segment| <= |req| && req[p..p + |segment|] == segment && pat <= Copied(segment)
    ensures Matches(req, pat, p)
  {
    assert segment[..|pat|] == Copied(segment)[..|pat|] == pat;
    assert req[p..p + |pat|] == segment[..|pat|];
  }

  // Segments behind the first do nothing.
  lemma {:induction false} LaterIgnored(
    f: seq<byte>, head: seq<byte>, form: seq<byte>, p: nat, segments: seq<seq<byte>>)
    requires HasConfig(f) && PostHead(head) && SPACE !in form
    requires 0 < p <= |Request(head, form)| && Request(head, form)[p..] == Flatten(segments)
    ensures Served(f, segments) == (f, false)
    decreases segments
  {
    hide Diverted, Posted, CharCode, LineText;
    if segments != [] {
      var req, segment := Request(head, form), segments[0];
      Cut(req, p, segment, Flatten(segments[1..]));
      if Ascii("POST /save") <= Copied(segment) {
        PostIsLine();
        CopiedStartsWith(req, p, segment, Ascii("POST /save"));
        LineTextInHead(head, form, Ascii("POST /save"), p);
        assert false;
      }
      LaterIgnored(f, head, form, p + |segment|, segments[1..]);
    }
  }

  // For every way the network cuts the request: only what its first segment brings of the form counts.
  // Cut in front of the end of the blank line nothing happens, cut right behind it both fields are read as
  // empty, and in every case but the first the device asks for a reboot.
  lemma EveryCut(
    f: seq<byte>, head: seq<byte>, ssid: seq<byte>, password: seq<byte>, ssidFirst: bool, segments: seq<seq<byte>>)
    requires HasConfig(f) && PostHead(head) && segments != [] && segments[0] != []
    requires Flatten(segments) == Request(head, FormOf(ssid, password, ssidFirst))
    ensures var n := Min(|segments[0]|, 2047);
            Served(f, segments) ==
            if n < |head| + 4 then (f, false)
            else (FieldsSaved(f, FormOf(ssid, password, ssidFirst)[..n - |head| - 4]), true)
  {
    hide Handled, FieldsSaved, FormOf, PostHead;
    var form := FormOf(ssid, password, ssidFirst);
    var req, m := Request(head, form), |segments[0]|;
    FormIsPlain(ssid, password, ssidFirst);
    assert req[0..] == req;
    Cut(req, 0, segments[0], Flatten(segments[1..]));
    assert req[..m] == req[0..0 + m];
    FirstHandled(f, head, form, m);
    LaterIgnored(Handled(f, segments[0]).0, head, form, m, segments[1..]);
  }

  // From the browser to the store, for every cut: if the first segment reaches the form, a load afterwards
  // returns what decoding that much of the form gives, as C strings cut to the fields, with identifier and
  // version untouched; and that is what was typed if and only if enough of both values is in the segment.
  lemma PostStoresCredentials(
    f: seq<byte>, head: seq<byte>, ssid: seq<byte>, password: seq<byte>, ssidFirst: bool, segments: seq<seq<byte>>)
    requires HasConfig(f) && ConfigRuns.Sound(f) && PostHead(head) && segments != [] && segments[0] != []
    requires Flatten(segments) == Request(head, FormOf(ssid, password, ssidFirst))
    ensures var (g, reboot) := Served(f, segments);
            var form, n := FormOf(ssid, password, ssidFirst), Min(|segments[0]|, 2047) - |head| - 4;
            && |g| == |f| && (reboot <==> n >= 0) && (!reboot ==> g == f)
            && (reboot ==>
                  var gotSsid := UrlDecoded(ExtractField(form[..n], SSID_KEY));
                  var gotPassword := UrlDecoded(ExtractField(form[..n], PASSWORD_KEY));
                  var c, d := ConfigRuns.Current(f), ConfigRuns.Current(g);
                  && CStr(d.ssid, 0) == CStr(gotSsid, 0)[..Min(|CStr(gotSsid, 0)|, 31)]
                  && CStr(d.password, 0) == CStr(gotPassword, 0)[..Min(|CStr(gotPassword, 0)|, 63)]
                  && d.id == c.id && d.version == c.version
                  && (gotSsid == ssid && gotPassword == password <==> FormArrived(ssid, password, ssidFirst, n))
                  && (n == |form| ==> gotSsid == ssid && gotPassword == password)
                  && (n == 0 ==> gotSsid == [] && gotPassword == []))
  {
    hide Served, FormOf, PostHead, PortalSaved, UrlDecoded, ExtractField, CStr, FormArrived;
    hide ConfigRuns.Current, ConfigRuns.Sound;
    var form, n := FormOf(ssid, password, ssidFirst), Min(|segments[0]|, 2047) - |head| - 4;
    EveryCut(f, head, ssid, password, ssidFirst, segments);
    if n >= 0 {
      FirstFits(segments, head, form);
      CutForm(ssid, password, ssidFirst, n);
      assert form[..|form|] == form;
      FormRoundTrip(ssid, password, ssidFirst);
      assert form[..0] == [];
      NothingExtracted();
      ConfigRuns.PortalStores(f, UrlDecoded(ExtractField(form[..n], SSID_KEY)),
                              UrlDecoded(ExtractField(form[..n], PASSWORD_KEY)));
    }
  }

  lemma FirstFits(segments: seq<seq<byte>>, head: seq<byte>, form: seq<byte>)
    requires segments != [] && Flatten(segments) == Request(head, form)
    ensures |segments[0]| <= |head| + 4 + |form|
  {
  }

  lemma NothingExtracted()
    ensures UrlDecoded(ExtractField([], SSID_KEY)) == [] && UrlDecoded(ExtractField([], PASSWORD_KEY)) == []
  {
    NothingDecoded();
    NoField([], SSID_KEY);
    NoField([], PASSWORD_KEY);
  }
}
