// strlen, strchr and strstr over sequences.
module Search {
  import opened Bytes

  predicate Matches<T(==)>(s: seq<T>, pat: seq<T>, at: nat) {
    at + |pat| <= |s| && s[at..at + |pat|] == pat
  }

  // The first occurrence of pat at or after from.
  function Find<T(==)>(s: seq<T>, pat: seq<T>, from: nat): (r: Option<nat>)
    requires from <= |s|
    ensures r.Some? ==> from <= r.value && Matches(s, pat, r.value)
    ensures forall j :: from <= j && (r.Some? ==> j < r.value) ==> !Matches(s, pat, j)
    decreases |s| - from
  {
    if Matches(s, pat, from) then Some(from)
    else if from == |s| then None
    else Find(s, pat, from + 1)
  }

  // The first occurrence of c at or after from.
  function IndexOf<T(==)>(s: seq<T>, c: T, from: nat): (r: Option<nat>)
    requires from <= |s|
    ensures r.Some? ==> from <= r.value < |s| && s[r.value] == c
    ensures forall j :: from <= j < (if r.Some? then r.value else |s|) ==> s[j] != c
    decreases |s| - from
  {
    if from == |s| then None
    else if s[from] == c then Some(from)
    else IndexOf(s, c, from + 1)
  }

  // The C string that starts a buffer: everything before the first terminator.
  function CStr<T(==)>(s: seq<T>, nul: T): (r: seq<T>)
    ensures r <= s && nul !in r
    ensures |r| < |s| ==> s[|r|] == nul
  {
    match IndexOf(s, nul, 0)
    case Some(k) => s[..k]
    case None => s
  }

  // Find is determined by its contract.
  lemma FindIs<T>(s: seq<T>, pat: seq<T>, from: nat, at: nat)
    requires from <= at && from <= |s| && Matches(s, pat, at)
    requires forall j :: from <= j < at ==> !Matches(s, pat, j)
    ensures Find(s, pat, from) == Some(at)
  {
  }

  lemma MatchInPrefix<T>(s: seq<T>, pat: seq<T>, k: nat, j: nat)
    requires k <= |s|
    ensures Matches(s[..k], pat, j) <==> Matches(s, pat, j) && j + |pat| <= k
  {
    if j + |pat| <= k {
      assert s[..k][j..j + |pat|] == s[j..j + |pat|];
    }
  }

  // A prefix of a text holds the first occurrence if that fits, and none otherwise.
  lemma FindInPrefix<T>(s: seq<T>, pat: seq<T>, k: nat)
    requires k <= |s|
    ensures var r := Find(s, pat, 0);
            Find(s[..k], pat, 0) == if r.Some? && r.value + |pat| <= k then r else None
  {
    hide Matches;
    var r, q := Find(s, pat, 0), Find(s[..k], pat, 0);
    if r.Some? && r.value + |pat| <= k {
      MatchInPrefix(s, pat, k, r.value);
      forall j | 0 <= j < r.value
        ensures !Matches(s[..k], pat, j)
      {
        MatchInPrefix(s, pat, k, j);
      }
      FindIs(s[..k], pat, 0, r.value);
    } else if q.Some? {
      MatchInPrefix(s, pat, k, q.value);
    }
  }

  lemma IndexIs<T>(s: seq<T>, c: T, from: nat, at: nat)
    requires from <= at < |s| && s[at] == c
    requires forall j :: from <= j < at ==> s[j] != c
    ensures IndexOf(s, c, from) == Some(at)
  {
  }

  lemma FirstAfter<T>(s: seq<T>, from: nat, at: nat, c: T)
    requires from <= at < |s| && s[at] == c && c !in s[from..at]
    ensures IndexOf(s, c, from) == Some(at)
  {
    assert forall j :: from <= j < at ==> s[j] == s[from..at][j - from];
    IndexIs(s, c, from, at);
  }

  // A text that continues with head and then rest.
  lemma Cut<T>(s: seq<T>, at: nat, head: seq<T>, rest: seq<T>)
    requires at <= |s| && s[at..] == head + rest
    ensures at + |head| <= |s| && s[at..at + |head|] == head && s[at + |head|..] == rest
    ensures |head| > 0 ==> s[at] == head[0]
  {
    assert s[at..][..|head|] == head;
    assert s[at..][|head|..] == rest;
  }

  lemma CStrIs<T>(s: seq<T>, nul: T, k: nat)
    requires k <= |s| && nul !in s[..k] && (k < |s| ==> s[k] == nul)
    ensures CStr(s, nul) == s[..k]
  {
    if k < |s| {
      assert forall j :: 0 <= j < k ==> s[j] == s[..k][j];
      IndexIs(s, nul, 0, k);
    } else {
      assert s[..k] == s;
    }
  }

  // What strncpy leaves in the n bytes it writes, for a source without its terminator.
  function StrNCpy(src: seq<byte>, n: nat): (r: seq<byte>)
    ensures |r| == n
  {
    src[..Min(|src|, n)] + Zeros(n - Min(|src|, n))
  }

  const VERSION_SIZE: nat := 32

  // A version string copied into its 32-byte field, the last byte cleared afterwards.
  function VersionField(version: seq<byte>): (r: seq<byte>)
    ensures |r| == VERSION_SIZE && r[31] == 0
  {
    StrNCpy(CStr(version, 0), VERSION_SIZE)[31 := 0]
  }

  // The field reads back as the first 31 bytes of the string.
  lemma VersionFieldText(version: seq<byte>)
    ensures CStr(VersionField(version), 0) == CStr(version, 0)[..Min(|CStr(version, 0)|, 31)]
  {
    var text, field := CStr(version, 0), VersionField(version);
    var k := Min(|text|, 31);
    assert field[..k] == text[..k];
    assert 0 !in text[..k];
    CStrIs(field, 0, k);
  }
}
