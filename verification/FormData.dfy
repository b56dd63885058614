// The provisioning form: field extraction and URL decoding.
// A C string is the bytes before its terminator; character codes are written out.
module FormData {
  import opened Bytes
  import opened Search

  const PERCENT: byte := 0x25
  const AMPERSAND: byte := 0x26
  const PLUS: byte := 0x2B
  const MINUS: byte := 0x2D
  const EQUALS: byte := 0x3D
  const SPACE: byte := 0x20

  // "ssid=" and "password="
  const SSID_KEY: seq<byte> := [0x73, 0x73, 0x69, 0x64, 0x3D]
  const PASSWORD_KEY: seq<byte> := [0x70, 0x61, 0x73, 0x73, 0x77, 0x6F, 0x72, 0x64, 0x3D]

  function ExtractField(body: seq<byte>, key: seq<byte>): seq<byte> {
    match Find(body, key, 0)
    case None => []
    case Some(k) =>
      var start := k + |key|;
      match IndexOf(body, AMPERSAND, start)
      case Some(end) => body[start..end]
      case None => body[start..]
  }

  predicate IsHex(c: byte) {
    0x30 <= c <= 0x39 || 0x41 <= c <= 0x46 || 0x61 <= c <= 0x66
  }

  function HexValue(c: byte): byte
    requires IsHex(c)
  {
    if c <= 0x39 then c - 0x30 else if c <= 0x46 then c - 0x37 else c - 0x57
  }

  // White space as scanf skips it.
  predicate IsScanSpace(c: byte) {
    c == SPACE || 9 <= c <= 13
  }

  // What sscanf("%x") makes of two characters, cast to a char: digits as far as they go,
  // after white space or a sign; otherwise the 0 the variable held.
  function ScanHex(a: byte, b: byte): byte {
    if IsHex(a) then (if IsHex(b) then 16 * HexValue(a) + HexValue(b) else HexValue(a))
    else if !IsHex(b) then 0
    else if IsScanSpace(a) || a == PLUS then HexValue(b)
    else if a == MINUS then 0 - HexValue(b)
    else 0
  }

  function UrlDecoded(s: seq<byte>): seq<byte> {
    if s == [] then []
    else if s[0] == PERCENT && |s| > 2 then [ScanHex(s[1], s[2])] + UrlDecoded(s[3..])
    else [if s[0] == PLUS then SPACE else s[0]] + UrlDecoded(s[1..])
  }

  method UrlDecode(s: seq<byte>) returns (out: seq<byte>)
    ensures out == UrlDecoded(s)
  {
    hide ScanHex;
    out := [];
    var i := 0;
    while i < |s|
      invariant 0 <= i <= |s|
      invariant out + UrlDecoded(s[i..]) == UrlDecoded(s)
    {
      DecodeOne(s, i, out);
      if s[i] == PERCENT && i + 2 < |s| {
        var val := ScanHex(s[i + 1], s[i + 2]);
        out := out + [val];
        i := i + 2;
      } else if s[i] == PLUS {
        out := out + [SPACE];
      } else {
        out := out + [s[i]];
      }
      i := i + 1;
    }
    assert out + [] == out;
  }

  lemma DecodeOne(s: seq<byte>, i: nat, out: seq<byte>)
    requires i < |s|
    ensures out + UrlDecoded(s[i..]) ==
            if s[i] == PERCENT && i + 2 < |s| then out + [ScanHex(s[i + 1], s[i + 2])] + UrlDecoded(s[i + 3..])
            else out + [if s[i] == PLUS then SPACE else s[i]] + UrlDecoded(s[i + 1..])
  {
    hide ScanHex;
    assert s[i..][1..] == s[i + 1..];
    if i + 2 < |s| {
      assert s[i..][3..] == s[i + 3..];
    }
  }

  // ---- section 5.2 of the WHATWG URL Standard: the serializer ----

  // Left as they are: letters, digits, and * - . _
  predicate IsUnreserved(c: byte) {
    0x30 <= c <= 0x39 || 0x41 <= c <= 0x5A || 0x61 <= c <= 0x7A || c == 0x2A || c == 0x2D || c == 0x2E || c == 0x5F
  }

  function HexDigit(d: byte): byte
    requires d < 16
  {
    if d < 10 then 0x30 + d else 0x37 + d
  }

  lemma NibblesSmall(c: byte)
    ensures (c >> 4) < 16 && (c & 15) < 16
  {
  }

  function EncodeByte(c: byte): seq<byte> {
    NibblesSmall(c);
    if c == SPACE then [PLUS]
    else if IsUnreserved(c) then [c]
    else [PERCENT, HexDigit(c >> 4), HexDigit(c & 15)]
  }

  function UrlEncoded(s: seq<byte>): seq<byte> {
    if s == [] then [] else EncodeByte(s[0]) + UrlEncoded(s[1..])
  }

  lemma HexDigitReads(d: byte)
    requires d < 16
    ensures IsHex(HexDigit(d)) && HexValue(HexDigit(d)) == d
  {
  }

  lemma NibblesJoin(c: byte)
    ensures 16 * (c >> 4) + (c & 15) == c
  {
  }

  lemma HexPairReads(c: byte)
    ensures (c >> 4) < 16 && (c & 15) < 16 && ScanHex(HexDigit(c >> 4), HexDigit(c & 15)) == c
  {
    hide IsHex, HexValue, HexDigit;
    NibblesSmall(c);
    HexDigitReads(c >> 4);
    HexDigitReads(c & 15);
    NibblesJoin(c);
  }

  lemma UnreservedIsPlain(c: byte)
    requires IsUnreserved(c)
    ensures c != PERCENT && c != PLUS
  {
  }

  lemma DecodeAfter(c: byte, rest: seq<byte>)
    ensures UrlDecoded(EncodeByte(c) + rest) == [c] + UrlDecoded(rest)
  {
    hide ScanHex, IsUnreserved, HexDigit;
    NibblesSmall(c);
    var t := EncodeByte(c) + rest;
    if c == SPACE {
      assert t[1..] == rest;
    } else if IsUnreserved(c) {
      UnreservedIsPlain(c);
      assert t[1..] == rest;
    } else {
      HexPairReads(c);
      assert t[3..] == rest;
    }
  }

  lemma {:induction false} DecodeEncode(s: seq<byte>)
    ensures UrlDecoded(UrlEncoded(s)) == s
  {
    hide EncodeByte, UrlDecoded;
    if s == [] {
      NothingDecoded();
    } else {
      DecodeAfter(s[0], UrlEncoded(s[1..]));
      DecodeEncode(s[1..]);
    }
  }

  lemma NothingDecoded()
    ensures UrlDecoded([]) == []
  {
  }

  lemma {:induction false} PlainDecodes(plain: seq<byte>, rest: seq<byte>)
    requires PERCENT !in plain && PLUS !in plain
    ensures UrlDecoded(plain + rest) == plain + UrlDecoded(rest)
  {
    if plain == [] {
      assert plain + rest == rest;
    } else {
      assert (plain + rest)[1..] == plain[1..] + rest;
      PlainDecodes(plain[1..], rest);
      assert plain == [plain[0]] + plain[1..];
    }
  }

  // A hexadecimal digit in either case.
  function CaseDigit(d: byte, lower: bool): byte
    requires d < 16
  {
    if d < 10 then 0x30 + d else if lower then 0x57 + d else 0x37 + d
  }

  predicate IsNoDigit(c: byte) {
    c < 0x30 || 0x3A <= c <= 0x40 || 0x47 <= c <= 0x60 || c > 0x66
  }

  lemma CaseDigitReads(d: byte, lower: bool)
    requires d < 16
    ensures IsHex(CaseDigit(d, lower)) && HexValue(CaseDigit(d, lower)) == d && !IsNoDigit(CaseDigit(d, lower))
  {
  }

  lemma NoDigitIsNone(c: byte)
    ensures IsNoDigit(c) <==> !IsHex(c)
  {
  }

  // Escapes are read in either case of the digits, whatever stands behind them.
  lemma EscapeReads(d: byte, e: byte, lowerD: bool, lowerE: bool, rest: seq<byte>)
    requires d < 16 && e < 16
    ensures UrlDecoded([PERCENT, CaseDigit(d, lowerD), CaseDigit(e, lowerE)] + rest) == [16 * d + e] + UrlDecoded(rest)
  {
    hide CaseDigit, IsHex, HexValue;
    CaseDigitReads(d, lowerD);
    CaseDigitReads(e, lowerE);
    assert ([PERCENT, CaseDigit(d, lowerD), CaseDigit(e, lowerE)] + rest)[3..] == rest;
  }

  // ... and so are escapes with a single digit: in front of anything else, or behind a space or a sign.
  lemma ShortEscapeReads(d: byte, lower: bool, a: byte, b: byte)
    requires d < 16
    ensures IsNoDigit(b) ==> ScanHex(CaseDigit(d, lower), b) == d
    ensures a == 0x20 || 9 <= a <= 13 || a == 0x2B ==> ScanHex(a, CaseDigit(d, lower)) == d
    ensures a == 0x2D ==> ScanHex(a, CaseDigit(d, lower)) == 0 - d
    ensures IsNoDigit(a) && a != 0x20 && !(9 <= a <= 13) && a != 0x2B && a != 0x2D ==>
              ScanHex(a, CaseDigit(d, lower)) == 0
    ensures IsNoDigit(a) && IsNoDigit(b) ==> ScanHex(a, b) == 0
  {
    hide CaseDigit, HexValue;
    CaseDigitReads(d, lower);
    NoDigitIsNone(a);
    NoDigitIsNone(b);
  }

  const DIGIT_ZERO: byte := 0x30

  // The escapes that read as NUL: zeros, and those without a digit behind an optional sign or space.
  predicate ReadsAsNul(a: byte, b: byte) {
    if IsHex(a) then a == DIGIT_ZERO && (IsHex(b) ==> b == DIGIT_ZERO)
    else IsScanSpace(a) || a == PLUS || a == MINUS ==> IsHex(b) ==> b == DIGIT_ZERO
  }

  lemma HexZero(a: byte, b: byte)
    ensures ScanHex(a, b) == 0 <==> ReadsAsNul(a, b)
  {
  }

  // Off the serializer's path: the C string that gets stored ends in front of an escape
  // if and only if that escape reads as NUL.
  lemma NulEscapeCuts(plain: seq<byte>, a: byte, b: byte, rest: seq<byte>)
    requires PERCENT !in plain && PLUS !in plain && 0 !in plain
    ensures CStr(UrlDecoded(plain + ([PERCENT, a, b] + rest)), 0) == plain <==> ReadsAsNul(a, b)
  {
    hide ScanHex, ReadsAsNul;
    HexZero(a, b);
    var s := [PERCENT, a, b] + rest;
    PlainDecodes(plain, s);
    assert UrlDecoded(s) == [ScanHex(a, b)] + UrlDecoded(s[3..]);
    var t := plain + UrlDecoded(s);
    assert t[..|plain|] == plain && t[|plain|] == ScanHex(a, b);
    if ReadsAsNul(a, b) {
      CStrIs(t, 0, |plain|);
    }
  }

  // An encoded value holds neither of the characters that structure a form, nor a space, nor a terminator.
  predicate IsDelimiter(c: byte) {
    c == AMPERSAND || c == EQUALS || c == SPACE || c == 0
  }

  lemma HexDigitIsPlain(d: byte)
    requires d < 16
    ensures !IsDelimiter(HexDigit(d))
  {
  }

  lemma EncodedByteIsPlain(c: byte)
    ensures forall x | x in EncodeByte(c) :: !IsDelimiter(x)
  {
    hide HexDigit;
    NibblesSmall(c);
    HexDigitIsPlain(c >> 4);
    HexDigitIsPlain(c & 15);
  }

  lemma {:induction false} EncodedIsPlain(s: seq<byte>)
    ensures forall x | x in UrlEncoded(s) :: !IsDelimiter(x)
  {
    hide EncodeByte, IsDelimiter;
    if s != [] {
      EncodedByteIsPlain(s[0]);
      EncodedIsPlain(s[1..]);
    }
  }

  // ---- the form ----

  // One field, then the other.
  function Form(key1: seq<byte>, value1: seq<byte>, key2: seq<byte>, value2: seq<byte>): seq<byte> {
    key1 + (UrlEncoded(value1) + ([AMPERSAND] + (key2 + UrlEncoded(value2))))
  }

  // The browser sends both fields, in either order.
  function FormOf(ssid: seq<byte>, password: seq<byte>, ssidFirst: bool): seq<byte> {
    if ssidFirst then Form(SSID_KEY, ssid, PASSWORD_KEY, password) else Form(PASSWORD_KEY, password, SSID_KEY, ssid)
  }

  // A field at the end of the text, and a field in front of an ampersand.
  lemma LastFieldAt(body: seq<byte>, key: seq<byte>, k: nat, value: seq<byte>)
    requires Find(body, key, 0) == Some(k) && k <= |body| && body[k..] == key + value
    requires AMPERSAND !in value
    ensures ExtractField(body, key) == value
  {
    var start := k + |key|;
    Cut(body, k, key, value);
    assert forall j :: start <= j < |body| ==> body[j] == body[start..][j - start];
    assert IndexOf(body, AMPERSAND, start) == None;
  }

  lemma FieldAt(body: seq<byte>, key: seq<byte>, k: nat, value: seq<byte>, rest: seq<byte>)
    requires Find(body, key, 0) == Some(k) && k <= |body| && body[k..] == key + (value + ([AMPERSAND] + rest))
    requires AMPERSAND !in value
    ensures ExtractField(body, key) == value
  {
    hide Find, IndexOf;
    var start := k + |key|;
    Cut(body, k, key, value + ([AMPERSAND] + rest));
    Cut(body, start, value, [AMPERSAND] + rest);
    Cut(body, start + |value|, [AMPERSAND], rest);
    FirstAfter(body, start, start + |value|, AMPERSAND);
  }

  predicate IsKey(key: seq<byte>) {
    key == SSID_KEY || key == PASSWORD_KEY
  }

  // Equals signs stand only at the ends of the two keys.
  lemma EqualsAt(key1: seq<byte>, value1: seq<byte>, key2: seq<byte>, value2: seq<byte>, i: nat)
    requires IsKey(key1) && IsKey(key2) && i < |Form(key1, value1, key2, value2)|
    ensures Form(key1, value1, key2, value2)[i] == EQUALS ==>
              i == |key1| - 1 || i == |key1| + |UrlEncoded(value1)| + |key2|
  {
    hide UrlEncoded, IsKey;
    EncodedIsPlain(value1);
    EncodedIsPlain(value2);
    var e1, e2 := UrlEncoded(value1), UrlEncoded(value2);
    var p, q := |key1|, |key1| + |e1| + 1;
    var c := Form(key1, value1, key2, value2)[i];
    if i < p {
      assert c == key1[i];
      KeyEquals(key1, i);
    } else if i < p + |e1| {
      assert c == e1[i - p] && !IsDelimiter(e1[i - p]);
    } else if q <= i < q + |key2| {
      assert c == key2[i - q];
      KeyEquals(key2, i - q);
    } else if q <= i {
      assert c == e2[i - q - |key2|] && !IsDelimiter(e2[i - q - |key2|]);
    }
  }

  lemma KeyEquals(key: seq<byte>, i: nat)
    requires IsKey(key) && i < |key|
    ensures key[i] == EQUALS ==> i == |key| - 1
  {
  }

  // A key is found where its field starts: nothing before it reads like it.
  lemma SecondKeyFound(key1: seq<byte>, value1: seq<byte>, key2: seq<byte>, value2: seq<byte>)
    requires IsKey(key1) && IsKey(key2) && key1 != key2
    ensures Find(Form(key1, value1, key2, value2), key2, 0) == Some(|key1| + |UrlEncoded(value1)| + 1)
  {
    hide UrlEncoded;
    var body := Form(key1, value1, key2, value2);
    var q := |key1| + |UrlEncoded(value1)| + 1;
    assert body[q..q + |key2|] == key2;
    forall j | 0 <= j < q
      ensures !Matches(body, key2, j)
    {
      if Matches(body, key2, j) {
        assert body[j + |key2| - 1] == body[j..j + |key2|][|key2| - 1] == EQUALS;
        assert body[j] == body[j..j + |key2|][0] == key2[0];
        EqualsAt(key1, value1, key2, value2, j + |key2| - 1);
      }
    }
    FindIs(body, key2, 0, q);
  }

  lemma FirstField(key1: seq<byte>, value1: seq<byte>, key2: seq<byte>, value2: seq<byte>)
    requires IsKey(key1)
    ensures ExtractField(Form(key1, value1, key2, value2), key1) == UrlEncoded(value1)
  {
    hide UrlEncoded, ExtractField;
    var body := Form(key1, value1, key2, value2);
    assert body[0..|key1|] == key1;
    FindIs(body, key1, 0, 0);
    NoAmpersand(value1);
    assert body[0..] == body;
    FieldAt(body, key1, 0, UrlEncoded(value1), key2 + UrlEncoded(value2));
  }

  lemma SecondField(key1: seq<byte>, value1: seq<byte>, key2: seq<byte>, value2: seq<byte>)
    requires IsKey(key1) && IsKey(key2) && key1 != key2
    ensures ExtractField(Form(key1, value1, key2, value2), key2) == UrlEncoded(value2)
  {
    hide UrlEncoded, ExtractField;
    var body := Form(key1, value1, key2, value2);
    var q := |key1| + |UrlEncoded(value1)| + 1;
    SecondKeyFound(key1, value1, key2, value2);
    NoAmpersand(value2);
    assert body[q..] == key2 + UrlEncoded(value2);
    LastFieldAt(body, key2, q, UrlEncoded(value2));
  }

  lemma NoAmpersand(value: seq<byte>)
    ensures AMPERSAND !in UrlEncoded(value)
  {
    hide UrlEncoded;
    EncodedIsPlain(value);
  }

  // For all byte strings and either order of the fields, what was typed comes back.
  lemma FormRoundTrip(ssid: seq<byte>, password: seq<byte>, ssidFirst: bool)
    ensures var body := FormOf(ssid, password, ssidFirst);
            && UrlDecoded(ExtractField(body, SSID_KEY)) == ssid
            && UrlDecoded(ExtractField(body, PASSWORD_KEY)) == password
  {
    hide Form, UrlEncoded, UrlDecoded, ExtractField;
    assert SSID_KEY[1] != PASSWORD_KEY[1];
    DecodeEncode(ssid);
    DecodeEncode(password);
    if ssidFirst {
      FirstField(SSID_KEY, ssid, PASSWORD_KEY, password);
      SecondField(SSID_KEY, ssid, PASSWORD_KEY, password);
    } else {
      FirstField(PASSWORD_KEY, password, SSID_KEY, ssid);
      SecondField(PASSWORD_KEY, password, SSID_KEY, ssid);
    }
  }
}
