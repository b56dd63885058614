// Stripping the HTTP header from a download that arrives in TCP segments.
module HttpDownload {
  import opened Bytes
  import opened Search

  // CR LF CR LF
  const TERMINATOR: seq<byte> := [13, 10, 13, 10]

  // Where strstr finds the terminator in a segment copied out as a C string.
  function HeaderEnd(segment: seq<byte>): (r: Option<nat>)
    ensures r.Some? ==> r.value + 4 <= |segment| && Matches(segment, TERMINATOR, r.value) && 0 !in segment[..r.value]
  {
    var text := CStr(segment, 0);
    var r := Find(text, TERMINATOR, 0);
    assert r.Some? ==> segment[..r.value] == text[..r.value] && Matches(segment, TERMINATOR, r.value);
    r
  }

  // The new flag, and what is handed to onChunk: [] means no call.
  function Strip(headersDone: bool, segment: seq<byte>): (bool, seq<byte>) {
    if headersDone then (true, segment)
    else match HeaderEnd(segment)
      case Some(k) => (true, segment[k + 4..])
      case None => (false, [])
  }

  datatype Received = Segment(bytes: seq<byte>) | Closed | Failed

  // One connection. The callbacks become results: the chunk for onChunk and the verdict for onDone.
  class Connection {
    var headersDone: bool

    constructor ()
      ensures !headersDone
    {
      headersDone := false;
    }

    method OnReceive(p: Received) returns (chunk: seq<byte>, done: Option<bool>)
      modifies this
      ensures p.Segment? ==> (headersDone, chunk) == Strip(old(headersDone), p.bytes) && done == None
      ensures !p.Segment? ==> headersDone == old(headersDone) && chunk == [] && done == Some(p.Closed?)
    {
      chunk, done := [], None;
      if p.Closed? {
        done := Some(true);
        return;
      }
      if p.Failed? {
        done := Some(false);
        return;
      }
      var buf := p.bytes + [0];
      assert forall i :: 0 <= i <= |p.bytes| ==> buf[i..|p.bytes|] == p.bytes[i..];
      var len := |p.bytes|;
      if !headersDone {
        var body := Find(CStr(buf, 0), TERMINATOR, 0);
        SameCString(p.bytes);
        if body.Some? {
          var headerLen := body.value + 4;
          var bodyLen := len - headerLen;
          headersDone := true;
          if bodyLen > 0 {
            chunk := buf[headerLen..headerLen + bodyLen];
          }
        }
      } else {
        if len > 0 {
          chunk := buf[..len];
        }
      }
    }
  }

  // The NUL that the receive path appends does not change the C string.
  lemma SameCString(segment: seq<byte>)
    ensures CStr(segment + [0], 0) == CStr(segment, 0)
  {
    var k := |CStr(segment, 0)|;
    assert (segment + [0])[..k] == segment[..k];
    CStrIs(segment + [0], 0, k);
  }

  // ---- whole responses ----

  function Deliver(headersDone: bool, segments: seq<seq<byte>>): seq<byte>
    decreases segments
  {
    if segments == [] then []
    else var (h, chunk) := Strip(headersDone, segments[0]);
         chunk + Deliver(h, segments[1..])
  }

  lemma {:induction false} DeliverAfterHeader(segments: seq<seq<byte>>)
    ensures Deliver(true, segments) == Flatten(segments)
  {
    if segments != [] {
      DeliverAfterHeader(segments[1..]);
    }
  }

  // Some segment holds the whole terminator that starts at t, and no NUL before it.
  ghost predicate SeenWhole(segments: seq<seq<byte>>, t: nat)
    decreases segments
  {
    segments != [] &&
    if t + 4 <= |segments[0]| then 0 !in segments[0][..t]
    else |segments[0]| <= t && SeenWhole(segments[1..], t - |segments[0]|)
  }

  // t is the first terminator of the stream.
  ghost predicate FirstTerminator(stream: seq<byte>, t: nat) {
    Matches(stream, TERMINATOR, t) && forall j :: 0 <= j < t ==> !Matches(stream, TERMINATOR, j)
  }

  // A match inside the head of a stream, or inside its rest, is a match of the stream.
  lemma MatchInHead(head: seq<byte>, rest: seq<byte>, j: nat)
    requires j + 4 <= |head|
    ensures Matches(head + rest, TERMINATOR, j) <==> Matches(head, TERMINATOR, j)
  {
    assert (head + rest)[j..j + 4] == head[j..j + 4];
  }

  lemma MatchInRest(head: seq<byte>, rest: seq<byte>, j: nat)
    ensures Matches(head + rest, TERMINATOR, |head| + j) <==> Matches(rest, TERMINATOR, j)
  {
    if j + 4 <= |rest| {
      assert (head + rest)[|head| + j..|head| + j + 4] == rest[j..j + 4];
    }
  }

  // With the header still pending, the deliveries are a proper tail of the stream after some terminator.
  lemma {:induction false} DeliveryIsLater(segments: seq<seq<byte>>, t: nat)
    requires forall j :: 0 <= j < t ==> !Matches(Flatten(segments), TERMINATOR, j)
    ensures |Deliver(false, segments)| <= |Flatten(segments)| - t - 4 || Deliver(false, segments) == []
    decreases segments
  {
    if segments != [] {
      var head, rest := segments[0], Flatten(segments[1..]);
      assert Flatten(segments) == head + rest;
      match HeaderEnd(head) {
        case Some(k) =>
          MatchInHead(head, rest, k);
          DeliverAfterHeader(segments[1..]);
        case None =>
          if |head| <= t {
            forall j | 0 <= j < t - |head|
              ensures !Matches(rest, TERMINATOR, j)
            {
              MatchInRest(head, rest, j);
            }
            DeliveryIsLater(segments[1..], t - |head|);
          } else {
            DeliveryIsLater(segments[1..], 0);
            DeliveryBound(head, rest, t, segments[1..]);
          }
      }
    }
  }

  lemma DeliveryBound(head: seq<byte>, rest: seq<byte>, t: nat, segments: seq<seq<byte>>)
    requires |head| > t
    requires rest == Flatten(segments)
    requires |Deliver(false, segments)| <= |rest| - 4 || Deliver(false, segments) == []
    ensures |Deliver(false, segments)| <= |head + rest| - t - 4 || Deliver(false, segments) == []
  {
  }

  // A stream without a terminator delivers nothing.
  lemma NoHeaderNoBody(segments: seq<seq<byte>>)
    requires forall j :: 0 <= j < |Flatten(segments)| ==> !Matches(Flatten(segments), TERMINATOR, j)
    ensures Deliver(false, segments) == []
  {
    DeliveryIsLater(segments, |Flatten(segments)|);
  }

  // Deliveries are exactly the bytes after the first terminator if and only if the receive path
  // can see that terminator, or nothing follows it.
  lemma {:induction false} HeaderStripped(segments: seq<seq<byte>>, t: nat)
    requires FirstTerminator(Flatten(segments), t)
    ensures Deliver(false, segments) == Flatten(segments)[t + 4..] <==>
            SeenWhole(segments, t) || |Flatten(segments)| == t + 4
    decreases segments
  {
    hide HeaderEnd;
    var stream := Flatten(segments);
    var head, rest := segments[0], Flatten(segments[1..]);
    if t + 4 <= |head| {
      MatchInHead(head, rest, t);
      if 0 !in head[..t] {
        TerminatorSeen(head, rest, t);
        DeliverAfterHeader(segments[1..]);
      } else {
        TerminatorHidden(head, rest, t);
        DeliveryIsLater(segments[1..], 0);
      }
    } else {
      NoTerminatorYet(head, rest, t);
      if |head| <= t {
        MatchInRest(head, rest, t - |head|);
        forall j | 0 <= j < t - |head|
          ensures !Matches(rest, TERMINATOR, j)
        {
          MatchInRest(head, rest, j);
        }
        HeaderStripped(segments[1..], t - |head|);
        assert stream[t + 4..] == rest[t - |head| + 4..];
      } else {
        DeliveryAfterStraddle(head, segments[1..], t);
      }
    }
  }

  lemma TerminatorSeen(head: seq<byte>, rest: seq<byte>, t: nat)
    requires t + 4 <= |head| && 0 !in head[..t]
    requires FirstTerminator(head + rest, t)
    ensures HeaderEnd(head) == Some(t)
  {
    MatchInHead(head, rest, t);
    var text := CStr(head, 0);
    assert head[t..t + 4] == TERMINATOR;
    assert head[t] == 13 && head[t + 1] == 10 && head[t + 2] == 13 && head[t + 3] == 10;
    assert |text| >= t + 4 by {
      assert forall j :: 0 <= j < t ==> head[j] == head[..t][j];
    }
    assert text[t..t + 4] == head[t..t + 4];
    forall j | 0 <= j < t
      ensures !Matches(text, TERMINATOR, j)
    {
      if Matches(text, TERMINATOR, j) {
        assert head[j..j + 4] == text[j..j + 4];
        MatchInHead(head, rest, j);
      }
    }
    FindIs(text, TERMINATOR, 0, t);
  }

  lemma TerminatorHidden(head: seq<byte>, rest: seq<byte>, t: nat)
    requires t + 4 <= |head| && 0 in head[..t]
    requires FirstTerminator(head + rest, t)
    ensures HeaderEnd(head) == None
  {
    match HeaderEnd(head) {
      case None =>
      case Some(k) =>
        MatchInHead(head, rest, k);
        assert false;
    }
  }

  lemma NoTerminatorYet(head: seq<byte>, rest: seq<byte>, t: nat)
    requires t + 4 > |head|
    requires FirstTerminator(head + rest, t)
    ensures HeaderEnd(head) == None
  {
    match HeaderEnd(head) {
      case None =>
      case Some(k) => MatchInHead(head, rest, k);
    }
  }

  // The terminator at t crosses the end of head, so what is delivered starts after a later one.
  lemma DeliveryAfterStraddle(head: seq<byte>, segments: seq<seq<byte>>, t: nat)
    requires t < |head| < t + 4
    requires FirstTerminator(head + Flatten(segments), t)
    ensures Deliver(false, segments) == (head + Flatten(segments))[t + 4..] <==> |head + Flatten(segments)| == t + 4
  {
    DeliveryIsLater(segments, 0);
  }
}
