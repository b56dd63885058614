// The portal's response sender: 512-byte writes, resumed from the sent callback when the stack is full.
module ChunkedSend {
  import opened Bytes

  const CHUNK: nat := 512

  // The outcome of one tcp_write: taken, out of memory, or any other error.
  datatype WriteResult = Taken | OutOfMemory | Failed

  // A response under way: what the stack took, write by write, and how often the connection was closed or aborted.
  datatype Conn = Conn(data: seq<byte>, offset: nat, taken: seq<seq<byte>>, closes: nat, aborts: nat)

  function NextChunk(c: Conn): (chunk: seq<byte>)
    requires c.offset < |c.data|
    ensures 0 < |chunk| <= CHUNK
  {
    c.data[c.offset..c.offset + Min(|c.data| - c.offset, CHUNK)]
  }

  function Advanced(c: Conn): (d: Conn)
    requires c.offset < |c.data|
    ensures c.offset < d.offset <= |d.data| && (d.offset == |d.data| || d.offset == c.offset + CHUNK)
  {
    c.(offset := c.offset + |NextChunk(c)|, taken := c.taken + [NextChunk(c)])
  }

  // One continueSend, for the results its writes meet; where the list ends the stack is full.
  function Continued(c: Conn, results: seq<WriteResult>): Conn
    requires c.offset <= |c.data|
    decreases results
  {
    if c.offset == |c.data| then c.(closes := c.closes + 1)
    else if results == [] || results[0] == OutOfMemory then c
    else if results[0] == Failed then c.(aborts := c.aborts + 1)
    else Continued(Advanced(c), results[1..])
  }

  class Sender {
    const data: seq<byte>
    var offset: nat
    ghost var taken: seq<seq<byte>>
    var closes: nat
    var aborts: nat

    ghost predicate Valid()
      reads this
    {
      offset <= |data|
    }

    ghost function State(): Conn
      reads this
    {
      Conn(data, offset, taken, closes, aborts)
    }

    // startChunkedSend attaches the state; the header write before it is not counted.
    constructor (body: seq<byte>)
      ensures Valid() && State() == Conn(body, 0, [], 0, 0)
    {
      data, offset, taken, closes, aborts := body, 0, [], 0, 0;
    }

    method ContinueSend(results: seq<WriteResult>)
      requires Valid()
      modifies this
      ensures Valid() && State() == Continued(old(State()), results)
    {
      var k := 0;
      while offset < |data|
        invariant 0 <= k <= |results| && Valid()
        invariant Continued(State(), results[k..]) == Continued(old(State()), results)
        decreases |data| - offset
      {
        var remaining := |data| - offset;
        var chunk := if remaining > CHUNK then CHUNK else remaining;
        var err := if k < |results| then results[k] else OutOfMemory;
        if err == OutOfMemory {
          return;
        }
        if err != Taken {
          aborts := aborts + 1;
          return;
        }
        assert results[k..][1..] == results[k + 1..];
        taken := taken + [data[offset..offset + chunk]];
        offset := offset + chunk;
        k := k + 1;
      }
      closes := closes + 1;
    }
  }

  // A run: one call from startChunkedSend and one from every onSent, until an abort frees the connection.
  function Run(c: Conn, calls: seq<seq<WriteResult>>): (d: Conn)
    requires c.offset <= |c.data|
    decreases calls
  {
    if calls == [] || c.aborts > 0 then c
    else ContinuedKeeps(c, calls[0]); Run(Continued(c, calls[0]), calls[1..])
  }

  lemma {:induction false} ContinuedKeeps(c: Conn, results: seq<WriteResult>)
    requires c.offset <= |c.data|
    ensures var d := Continued(c, results);
            && d.data == c.data && c.offset <= d.offset <= |d.data|
            && c.closes <= d.closes <= c.closes + 1 && c.aborts <= d.aborts <= c.aborts + 1
            && c.taken <= d.taken
            && (d.closes == c.closes + 1 <==> d.offset == |d.data| && d.aborts == c.aborts)
    decreases results
  {
    if c.offset < |c.data| && results != [] && results[0] == Taken {
      ContinuedKeeps(Advanced(c), results[1..]);
    }
  }

  // How many of the writes are taken before the first that is not.
  function LeadingTaken(results: seq<WriteResult>): (n: nat)
    ensures n <= |results|
    ensures forall i :: 0 <= i < n ==> results[i] == Taken
    ensures n < |results| ==> results[n] != Taken
  {
    if results == [] || results[0] != Taken then 0 else 1 + LeadingTaken(results[1..])
  }

  // What one call does: each write that is taken moves 512 bytes, up to the end; the connection is closed
  // if the end is reached, and aborted if and only if a hard error comes before it.
  lemma {:induction false} ContinuedExactly(c: Conn, results: seq<WriteResult>)
    requires c.offset <= |c.data|
    ensures var d, n := Continued(c, results), LeadingTaken(results);
            var reach := c.offset + 512 * n;
            && d.offset == Min(reach, |c.data|)
            && d.closes == c.closes + (if reach >= |c.data| then 1 else 0)
            && d.aborts == c.aborts + (if reach < |c.data| && n < |results| && results[n] == Failed then 1 else 0)
    decreases results
  {
    if c.offset < |c.data| && results != [] && results[0] == Taken {
      assert LeadingTaken(results) == 1 + LeadingTaken(results[1..]);
      ContinuedExactly(Advanced(c), results[1..]);
    }
  }

  function Start(body: seq<byte>): Conn {
    Conn(body, 0, [], 0, 0)
  }

  // What the stack took is the body up to the offset, in full chunks except possibly the last.
  ghost predicate InOrder(c: Conn) {
    && c.offset <= |c.data| && Flatten(c.taken) == c.data[..c.offset]
    && (forall i :: 0 <= i < |c.taken| ==> 0 < |c.taken[i]| <= CHUNK)
    && (forall i :: 0 <= i < |c.taken| - 1 ==> |c.taken[i]| == CHUNK)
    && (c.taken != [] && |c.taken[|c.taken| - 1]| < CHUNK ==> c.offset == |c.data|)
    && (c.closes > 0 ==> c.offset == |c.data|)
  }

  lemma AdvanceInOrder(c: Conn)
    requires InOrder(c) && c.offset < |c.data|
    ensures InOrder(Advanced(c))
  {
    FlattenConcat(c.taken, [NextChunk(c)]);
    assert Flatten([NextChunk(c)]) == NextChunk(c);
    assert c.data[..c.offset] + NextChunk(c) == c.data[..Advanced(c).offset];
  }

  lemma {:induction false} ContinuedInOrder(c: Conn, results: seq<WriteResult>)
    requires InOrder(c)
    ensures InOrder(Continued(c, results))
    decreases results
  {
    hide Advanced;
    if c.offset < |c.data| && results != [] && results[0] == Taken {
      AdvanceInOrder(c);
      ContinuedInOrder(Advanced(c), results[1..]);
    }
  }

  lemma {:induction false} RunInOrder(c: Conn, calls: seq<seq<WriteResult>>)
    requires InOrder(c)
    ensures InOrder(Run(c, calls)) && Run(c, calls).data == c.data && Run(c, calls).offset >= c.offset
    decreases calls
  {
    hide InOrder, Continued;
    InOrderOffset(c);
    if calls != [] && c.aborts == 0 {
      ContinuedKeeps(c, calls[0]);
      ContinuedInOrder(c, calls[0]);
      InOrderOffset(Continued(c, calls[0]));
      RunInOrder(Continued(c, calls[0]), calls[1..]);
    }
  }

  lemma InOrderOffset(c: Conn)
    ensures InOrder(c) ==> c.offset <= |c.data|
  {
  }

  // For every body and every sequence of write results and callbacks: what was taken is a prefix of the
  // body, and the connection is only closed once the whole body was taken.
  lemma SendIsOrderly(body: seq<byte>, calls: seq<seq<WriteResult>>)
    ensures var c := Run(Start(body), calls);
            && c.offset <= |body| && Flatten(c.taken) == body[..c.offset]
            && (c.closes > 0 ==> Flatten(c.taken) == body)
            && forall i :: 0 <= i < |c.taken| ==> 0 < |c.taken[i]| <= 512
  {
    RunInOrder(Start(body), calls);
  }

  // Each further callback advances the offset.
  lemma {:induction false} OffsetNeverFalls(c: Conn, calls: seq<seq<WriteResult>>, more: seq<seq<WriteResult>>)
    requires InOrder(c)
    ensures Run(c, calls).offset <= Run(c, calls + more).offset
    decreases calls
  {
    hide InOrder, Continued;
    InOrderOffset(c);
    if calls == [] {
      assert calls + more == more;
      RunInOrder(c, more);
    } else if c.aborts == 0 {
      ContinuedKeeps(c, calls[0]);
      ContinuedInOrder(c, calls[0]);
      assert (calls + more)[1..] == calls[1..] + more;
      OffsetNeverFalls(Continued(c, calls[0]), calls[1..], more);
    }
  }

  // ---- progress ----

  // Every call gets at least one write taken and meets no hard error.
  ghost predicate Progressing(calls: seq<seq<WriteResult>>) {
    forall r | r in calls :: r != [] && r[0] == Taken && Failed !in r
  }

  lemma {:induction false} NoAbort(c: Conn, results: seq<WriteResult>)
    requires c.offset <= |c.data| && Failed !in results
    ensures Continued(c, results).aborts == c.aborts
    decreases results
  {
    if c.offset < |c.data| && results != [] && results[0] == Taken {
      NoAbort(Advanced(c), results[1..]);
    }
  }

  // Then one call per 512 bytes suffices to take the whole body and close the connection.
  lemma {:induction false} SendCompletes(c: Conn, calls: seq<seq<WriteResult>>)
    requires c.offset <= |c.data| && c.aborts == 0 && Progressing(calls) && calls != []
    requires |c.data| - c.offset <= 512 * |calls|
    ensures var d := Run(c, calls);
            d.offset == |d.data| && d.closes > c.closes && d.aborts == 0
    decreases calls
  {
    hide Advanced;
    var d := Continued(c, calls[0]);
    assert calls[0] in calls;
    ContinuedKeeps(c, calls[0]);
    NoAbort(c, calls[0]);
    OneChunkAtLeast(c, calls[0]);
    if |calls| == 1 {
      assert Run(c, calls) == Run(d, []);
    } else {
      forall r | r in calls[1..]
        ensures r in calls
      {
      }
      assert Progressing(calls[1..]);
      SendCompletes(d, calls[1..]);
    }
  }

  lemma OneChunkAtLeast(c: Conn, results: seq<WriteResult>)
    requires c.offset <= |c.data| && results != [] && results[0] == Taken
    ensures var d := Continued(c, results); d.offset == |c.data| || d.offset >= c.offset + CHUNK
  {
    if c.offset < |c.data| {
      ContinuedKeeps(Advanced(c), results[1..]);
    }
  }

  // A complete response is not remembered as closed: every further callback closes it again.
  lemma {:induction false} ClosedAgain(c: Conn, calls: seq<seq<WriteResult>>)
    requires c.offset == |c.data| && c.aborts == 0
    ensures Run(c, calls) == c.(closes := c.closes + |calls|)
    decreases calls
  {
    if calls != [] {
      ClosedAgain(c.(closes := c.closes + 1), calls[1..]);
    }
  }
}
