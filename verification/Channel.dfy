/** The write side of the server channels: the datagram queue of MyUdpChannel and the byte queue of MyTcpChannel. */
module Channel {
  import opened Bytes
  import opened Sequences
  import opened SKBuffer

  /** One call of MySocket::write or writeTo: the bytes presented, and the number the system reported. */
  datatype Call = Call(payload: seq<Byte>, result: int) {
    function Taken(): seq<Byte> {
      if result <= 0 then [] else if result > |payload| then payload else payload[..result]
    }
  }

  /** The calls of one send loop over p: each presents what is left, until nothing is or a call takes nothing. */
  ghost predicate Offers(p: seq<Byte>, calls: seq<Call>)
    decreases |calls|
  {
    if p == [] || calls == [] then p == [] && calls == []
    else
      calls[0].payload == p && calls[0].result <= |p| &&
      if calls[0].result <= 0 then |calls| == 1 else Offers(p[calls[0].result..], calls[1..])
  }

  /** The calls of send loops over the elements of ps, one after the other. */
  ghost predicate OffersAll(ps: seq<seq<Byte>>, calls: seq<Call>)
    decreases |ps|
  {
    if ps == [] then calls == []
    else exists i :: 0 <= i <= |calls| && OffersAll(ps[..|ps| - 1], calls[..i]) && Offers(ps[|ps| - 1], calls[i..])
  }

  lemma LastLoop(ps: seq<seq<Byte>>, calls: seq<Call>) returns (i: nat)
    requires OffersAll(ps, calls) && ps != []
    ensures i <= |calls| && OffersAll(ps[..|ps| - 1], calls[..i]) && Offers(ps[|ps| - 1], calls[i..])
  {
    hide Offers;
    i :| 0 <= i <= |calls| && OffersAll(ps[..|ps| - 1], calls[..i]) && Offers(ps[|ps| - 1], calls[i..]);
  }

  /** The calls are those of one send loop after the other, with none between them. */
  lemma {:induction false} OfferedInTurn(ps: seq<seq<Byte>>, calls: seq<Call>) returns (runs: seq<seq<Call>>)
    requires OffersAll(ps, calls)
    ensures |runs| == |ps| && Concat(runs) == calls && forall k | 0 <= k < |ps| :: Offers(ps[k], runs[k])
    decreases |ps|
  {
    if ps == [] {
      runs := [];
    } else {
      hide *;
      var i := LastLoop(ps, calls);
      var before := OfferedInTurn(ps[..|ps| - 1], calls[..i]);
      var last := calls[i..];
      runs := before + [last];
      ConcatSnoc(before, last);
      assert calls[..i] + last == calls;
      OneMoreRun(ps, before, last);
    }
  }

  lemma OneMoreRun(ps: seq<seq<Byte>>, runs: seq<seq<Call>>, last: seq<Call>)
    requires ps != [] && |runs| == |ps| - 1 && Offers(ps[|ps| - 1], last)
    requires forall k | 0 <= k < |runs| :: Offers(ps[..|runs|][k], runs[k])
    ensures forall k | 0 <= k < |ps| :: Offers(ps[k], (runs + [last])[k])
  {
    hide Offers;
    forall k | 0 <= k < |ps|
      ensures Offers(ps[k], (runs + [last])[k])
    {
      assert k < |runs| ==> ps[..|runs|][k] == ps[k];
    }
  }

  /** The bytes that the system took. */
  function Delivered(calls: seq<Call>): seq<Byte> {
    if calls == [] then [] else calls[0].Taken() + Delivered(calls[1..])
  }

  /** A send loop presents all of p exactly once, first; the later calls present less. */
  lemma {:induction false} OfferedOnce(p: seq<Byte>, calls: seq<Call>)
    requires Offers(p, calls)
    ensures p == [] <==> calls == []
    ensures calls != [] ==> calls[0].payload == p && forall i | 0 < i < |calls| :: |calls[i].payload| < |p|
    decreases |calls|
  {
    if calls != [] && calls[0].result > 0 {
      var rest := calls[1..];
      OfferedOnce(p[calls[0].result..], rest);
      forall i | 0 < i < |calls|
        ensures |calls[i].payload| < |p|
      {
        assert calls[i] == rest[i - 1];
      }
    }
  }

  /** The bytes taken are a prefix of p, and all of it exactly when no call fails. */
  lemma {:induction false} OfferedDelivers(p: seq<Byte>, calls: seq<Call>)
    requires Offers(p, calls)
    ensures Delivered(calls) <= p
    ensures (forall i | 0 <= i < |calls| :: calls[i].result > 0) <==> Delivered(calls) == p
    decreases |calls|
  {
    if calls != [] && calls[0].result > 0 {
      var n, rest := calls[0].result, calls[1..];
      OfferedDelivers(p[n..], rest);
      assert p == p[..n] + p[n..];
      assert forall i | 0 <= i < |rest| :: rest[i] == calls[i + 1];
      assert forall i | 0 < i < |calls| :: calls[i] == rest[i - 1];
    } else if calls != [] {
      assert Delivered(calls) == [] + Delivered([]);
    }
  }

  lemma OffersAllAppend(ps: seq<seq<Byte>>, calls: seq<Call>, p: seq<Byte>, more: seq<Call>)
    requires OffersAll(ps, calls) && Offers(p, more)
    ensures OffersAll(ps + [p], calls + more)
  {
    var all := calls + more;
    assert all[..|calls|] == calls && all[|calls|..] == more;
    assert (ps + [p])[..|ps|] == ps;
  }

  /** The peer's side of the socket: it takes any number of bytes up to what is presented, or fails. */
  class MySocket {
    var calls: seq<Call>

    constructor ()
      ensures calls == []
    {
      calls := [];
    }

    method Write(bytes: seq<Byte>) returns (sent: int)
      modifies this
      ensures sent <= |bytes| && calls == old(calls) + [Call(bytes, sent)]
    {
      var n: int := *;
      sent := if n > |bytes| then |bytes| else n;
      calls := calls + [Call(bytes, sent)];
    }

    /** The send loop that both channels run. */
    method WriteAll(bytes: seq<Byte>) returns (send: nat, ghost made: seq<Call>)
      modifies this
      ensures calls == old(calls) + made && Offers(bytes, made)
      ensures send <= |bytes| && (send == |bytes| <==> Delivered(made) == bytes)
    {
      send, made := 0, [];
      OnTheWayStart(bytes);
      while send < |bytes|
        invariant send <= |bytes| && calls == old(calls) + made
        invariant OnTheWay(bytes, send, made)
      {
        var rv := Write(bytes[send..]);
        ghost var c := Call(bytes[send..], rv);
        PlusAssoc(old(calls), made, [c]);
        OnTheWayNext(bytes, send, made, c);
        made := made + [c];
        if rv <= 0 {
          return;
        }
        send := send + rv;
      }
      OnTheWayEnd(bytes, made);
    }
  }

  /** Every call so far took something, and a send loop over what is left completes one over p. */
  ghost predicate OnTheWay(p: seq<Byte>, send: nat, made: seq<Call>)
    requires send <= |p|
  {
    (forall i | 0 <= i < |made| :: made[i].result > 0) &&
    forall rest :: Offers(p[send..], rest) ==> Offers(p, made + rest)
  }

  lemma OnTheWayStart(p: seq<Byte>)
    ensures OnTheWay(p, 0, [])
  {
    assert p[0..] == p && forall rest: seq<Call> :: [] + rest == rest;
  }

  lemma {:induction false} OnTheWayNext(p: seq<Byte>, send: nat, made: seq<Call>, c: Call)
    requires send < |p| && OnTheWay(p, send, made)
    requires c.payload == p[send..] && c.result <= |c.payload|
    ensures if c.result > 0 then OnTheWay(p, send + c.result, made + [c])
            else Offers(p, made + [c]) && Delivered(made + [c]) != p
  {
    if c.result <= 0 {
      assert Offers(p[send..], [c]) && (made + [c])[|made|] == c;
      OfferedDelivers(p, made + [c]);
    } else {
      forall rest | Offers(p[send + c.result..], rest)
        ensures Offers(p, (made + [c]) + rest)
      {
        assert p[send..][c.result..] == p[send + c.result..];
        assert ([c] + rest)[1..] == rest && Offers(p[send..], [c] + rest);
        PlusAssoc(made, [c], rest);
      }
    }
  }

  lemma {:induction false} OnTheWayEnd(p: seq<Byte>, made: seq<Call>)
    requires OnTheWay(p, |p|, made)
    ensures Offers(p, made) && Delivered(made) == p
  {
    assert Offers(p[|p|..], []) && made + [] == made;
    OfferedDelivers(p, made);
  }

  // ------------------------------------------------------------------------------------------
  // The datagram queue

  /** Each response behind its length. */
  function EncodeQueue(q: seq<seq<Byte>>): seq<Byte> {
    if q == [] then [] else ToLE(|q[0]|, 4) + (q[0] + EncodeQueue(q[1..]))
  }

  ghost predicate ShortEnough(q: seq<seq<Byte>>) {
    forall p | p in q :: |p| < U32
  }

  lemma {:induction false} EncodeQueueAppend(q: seq<seq<Byte>>, p: seq<Byte>)
    ensures EncodeQueue(q + [p]) == EncodeQueue(q) + (ToLE(|p|, 4) + p)
  {
    if q == [] {
      assert EncodeQueue([p]) == ToLE(|p|, 4) + (p + []);
    } else {
      var f := ToLE(|p|, 4) + p;
      calc {
        EncodeQueue(q + [p]);
        { assert (q + [p])[0] == q[0] && (q + [p])[1..] == q[1..] + [p]; }
        ToLE(|q[0]|, 4) + (q[0] + EncodeQueue(q[1..] + [p]));
        { EncodeQueueAppend(q[1..], p); }
        ToLE(|q[0]|, 4) + (q[0] + (EncodeQueue(q[1..]) + f));
        { PlusAssoc(q[0], EncodeQueue(q[1..]), f); }
        ToLE(|q[0]|, 4) + ((q[0] + EncodeQueue(q[1..])) + f);
        { PlusAssoc(ToLE(|q[0]|, 4), q[0] + EncodeQueue(q[1..]), f); }
        EncodeQueue(q) + f;
      }
    }
  }

  /** The front of the buffer is the length of the oldest response, and that response follows it. */
  lemma {:induction false} FrontOfQueue(q: seq<seq<Byte>>)
    requires q != [] && ShortEnough(q)
    ensures var s := EncodeQueue(q);
            |s| == 4 + |q[0]| + |EncodeQueue(q[1..])| && FromLE(s[..4]) == |q[0]| &&
            s[4..4 + |q[0]|] == q[0] && s[4 + |q[0]|..] == EncodeQueue(q[1..])
  {
    Pow256Values();
    assert q[0] in q;
    var s, rest := EncodeQueue(q), q[0] + EncodeQueue(q[1..]);
    TakeWritten(|q[0]|, 4, rest);
    hide *;
    assert s[4..] == rest && s[4..4 + |q[0]|] == rest[..|q[0]|] && s[4 + |q[0]|..] == rest[|q[0]|..];
  }

  lemma {:induction false} QueueSize(q: seq<seq<Byte>>)
    ensures |EncodeQueue(q)| >= 4 * |q| + if q == [] then 0 else |q[0]|
  {
    if q != [] {
      QueueSize(q[1..]);
    }
  }

  // ------------------------------------------------------------------------------------------
  // What onWrite makes of a buffer

  /** The responses offered, the bytes left, and whether the encoding-error branch ended it. */
  datatype Drained = Drained(offered: seq<seq<Byte>>, rest: seq<Byte>, failed: bool) {
    function After(earlier: seq<seq<Byte>>): Drained {
      this.(offered := earlier + offered)
    }
  }

  /** onWrite on any bytes at all. */
  function Drain(s: seq<Byte>): Drained
    decreases |s|
  {
    if |s| <= 4 then Drained([], s, false)
    else
      var flag := FromLE(s[..4]);
      if flag > |s| - 4 then Drained([], s, true)
      else Drain(s[4 + flag..]).After([s[4..4 + flag]])
  }

  /** What onWrite leaves of a queue: an empty response at its very end. */
  function LeftOf(q: seq<seq<Byte>>): (left: seq<seq<Byte>>)
    ensures |left| <= |q| && q == q[..|q| - |left|] + left
  {
    if q != [] && q[|q| - 1] == [] then [[]] else []
  }

  lemma ShortEnoughLeft(q: seq<seq<Byte>>)
    requires ShortEnough(q)
    ensures ShortEnough(LeftOf(q))
  {
  }

  lemma DrainStops(s: seq<Byte>)
    ensures |s| <= 4 ==> Drain(s) == Drained([], s, false)
    ensures |s| > 4 && FromLE(s[..4]) > |s| - 4 ==> Drain(s) == Drained([], s, true)
  {
  }

  lemma DrainNext(earlier: seq<seq<Byte>>, s: seq<Byte>)
    requires |s| > 4 && FromLE(s[..4]) <= |s| - 4
    ensures var end := 4 + FromLE(s[..4]); Drain(s).After(earlier) == Drain(s[end..]).After(earlier + [s[4..end]])
  {
    var end := 4 + FromLE(s[..4]);
    PlusAssoc(earlier, [s[4..end]], Drain(s[end..]).offered);
  }

  /** A buffer that holds a queue is drained response by response and never fails. */
  lemma {:induction false} DrainOfQueue(q: seq<seq<Byte>>)
    requires ShortEnough(q)
    ensures Drain(EncodeQueue(q)) == Drained(q[..|q| - |LeftOf(q)|], EncodeQueue(LeftOf(q)), false)
  {
    if |q| > 1 || (|q| == 1 && q[0] != []) {
      DrainFront(q);
      DrainOfQueue(q[1..]);
      LeftOfRest(q);
      hide Drain, EncodeQueue, LeftOf, ShortEnough, FromLE;
    } else {
      assert q != [] ==> q == [[]] && EncodeQueue(q[1..]) == [];
      DrainStops(EncodeQueue(q));
      assert q[..|q| - |LeftOf(q)|] == [];
      hide Drain, FromLE;
    }
  }

  lemma LeftOfRest(q: seq<seq<Byte>>)
    requires |q| > 1 || (|q| == 1 && q[0] != [])
    ensures LeftOf(q) == LeftOf(q[1..])
    ensures q[..|q| - |LeftOf(q)|] == [q[0]] + q[1..][..|q| - 1 - |LeftOf(q)|]
  {
    assert q == [q[0]] + q[1..] && q[|q| - 1] == if |q| == 1 then q[0] else q[1..][|q| - 2];
  }

  /** A frame in front of other bytes: it is offered, and the drain goes on behind it. */
  lemma DrainFrame(x: seq<Byte>, rest: seq<Byte>)
    requires |x| < U32 && |x| + |rest| > 0
    ensures Drain(ToLE(|x|, 4) + (x + rest)) == Drain(rest).After([x])
  {
    Pow256Values();
    FromToLE(|x|, 4);
    var head := ToLE(|x|, 4);
    hide ToLE, FromLE, Pow256;
    FramedParts(head, x, rest);
    DrainNext([], head + (x + rest));
    hide Drain;
    assert [] + Drain(head + (x + rest)).offered == Drain(head + (x + rest)).offered && [] + [x] == [x];
  }

  lemma FramedParts(head: seq<Byte>, x: seq<Byte>, rest: seq<Byte>)
    requires |head| == 4
    ensures var s := head + (x + rest);
            s[..4] == head && s[4..4 + |x|] == x && s[4 + |x|..] == rest
  {
    var s, tail := head + (x + rest), x + rest;
    assert s[4..] == tail;
    assert tail[..|x|] == x && tail[|x|..] == rest;
  }

  lemma DrainFront(q: seq<seq<Byte>>)
    requires ShortEnough(q) && (|q| > 1 || (|q| == 1 && q[0] != []))
    ensures Drain(EncodeQueue(q)) == Drain(EncodeQueue(q[1..])).After([q[0]])
  {
    assert q[0] in q;
    QueueSize(q[1..]);
    DrainFrame(q[0], EncodeQueue(q[1..]));
    hide Drain, ToLE;
  }

  /** After a failure every later onWrite fails again and consumes nothing, until new bytes arrive. */
  lemma {:induction false} FailureRepeats(s: seq<Byte>)
    requires Drain(s).failed
    ensures Drain(Drain(s).rest) == Drained([], Drain(s).rest, true)
    decreases |s|
  {
    if |s| > 4 && FromLE(s[..4]) <= |s| - 4 {
      FailureRepeats(s[4 + FromLE(s[..4])..]);
    }
  }

  // ------------------------------------------------------------------------------------------
  // Growing under a queue

  /** The request leaves any queue intact: as KeepsContents, and also if all that waits is one empty response. */
  predicate KeepsQueue(b: Block, len: nat)
    requires b.Valid()
  {
    b.MustGrow(len) ==>
      b.Length() == 0 || b.writeable + COPIED_HEAD <= b.capacity ||
      (b.Length() == 4 && b.writeable + HEAD_SIZE <= 2 * b.capacity)
  }

  lemma KeepsQueueContents(b: Block, len: nat, b': Block, q: seq<seq<Byte>>)
    requires b.Valid() && PreparedTo(b, len, b') && KeepsQueue(b, len) && b.Contents() == EncodeQueue(q)
    ensures b'.Valid() && b'.Contents() == b.Contents()
  {
    if KeepsContents(b, len) {
      PreparedKeepsContents(b, len, b');
    } else {
      QueueSize(q);
      assert q == [[]] && EncodeQueue(q[1..]) == [];
      SmallLE(0);
      hide EncodeQueue, ToLE;
      assert b.Contents() == [0, 0, 0, 0];
      ZerosKept(b, len, b');
    }
  }

  lemma ZerosKept(b: Block, len: nat, b': Block)
    requires b.Valid() && PreparedTo(b, len, b') && b.MustGrow(len)
    requires b.readable < b.writeable && b.writeable + HEAD_SIZE <= 2 * b.capacity
    requires forall i | 0 <= i < b.Length() :: b.Contents()[i] == 0
    ensures b'.Valid() && b'.Contents() == b.Contents()
  {
    var memory :| FreshMemory(memory, 2 * b.capacity) && b' == b.Prepared(len, memory);
    assert forall i | 0 <= i < b.writeable :: memory[i] == 0;
    GrownContents(b, len, memory);
    assert forall i | 0 <= i < b.Length() :: b.Contents()[i] == b.data[b.readable + i];
    hide FreshMemory, PreparedTo, CopiedCursor;
    forall i | 0 <= i < |b'.Contents()|
      ensures b'.Contents()[i] == 0
    {
      assert b.Contents()[i] == 0;
    }
  }

  lemma GrownContents(b: Block, len: nat, memory: seq<Byte>)
    requires b.Valid() && b.MustGrow(len) && b.CanGrow() && b.readable < b.writeable && b.capacity >= 5
    requires |memory| == 2 * b.capacity
    ensures var b' := b.Prepared(len, memory);
            b'.Valid() && |b'.Contents()| == |b.Contents()| &&
            forall i | 0 <= i < |b.Contents()| ::
              b'.Contents()[i] == var k := b.readable + i; if k + COPIED_HEAD < b.capacity then b.data[k] else memory[k]
  {
    CursorsCopied(b);
    CompactedContents(b.Transplanted(memory));
    var t := b.Transplanted(memory);
    assert b.Prepared(len, memory).Contents() == t.data[b.readable..b.writeable];
  }

  lemma AppendedToQueue(b: Block, frame: seq<Byte>, b': Block, q: seq<seq<Byte>>)
    requires b.Valid() && b'.Valid() && Step(b, Write(|frame|, frame), b')
    ensures KeepsQueue(b, |frame|) && b.Contents() == EncodeQueue(q) ==> b'.Contents() == b.Contents() + frame
  {
    if KeepsQueue(b, |frame|) && b.Contents() == EncodeQueue(q) {
      var m :| WroteVia(b, |frame|, frame, m, b');
      KeepsQueueContents(b, |frame|, m, q);
      FilledContents(m, frame);
    }
  }

  /** A response of ones: its frame ends with a one, or with the zero of its length if it is empty. */
  lemma Ones(n: nat) returns (p: seq<Byte>)
    ensures |p| == n && (ToLE(n, 4) + p)[n + 3] == if n == 0 then 0 else 1
  {
    p := seq(n, _ => 1);
    SmallLE(0);
    hide ToLE;
    assert n > 0 ==> (ToLE(n, 4) + p)[n + 3] == p[n - 1];
  }

  lemma Between(a: seq<Byte>, s: seq<Byte>, b: seq<Byte>)
    ensures var all := a + s + b; all[|a|..|a| + |s|] == s && (s != [] ==> all[|a| + |s| - 1] == s[|s| - 1])
  {
  }

  /** Data with a queue as contents that a growth into some memory changes. */
  lemma GrowthBreaksQueue(c: nat, r: nat, w: nat, len: nat) returns (q: seq<seq<Byte>>, data: seq<Byte>, b': Block)
    requires r + 4 <= w <= c < U32 && Block(c, r, w, Zeros(c)).MustGrow(len) && Block(c, r, w, Zeros(c)).CanGrow()
    requires !KeepsQueue(Block(c, r, w, Zeros(c)), len)
    ensures ShortEnough(q) && |data| == c && data[r..w] == EncodeQueue(q)
    ensures PreparedTo(Block(c, r, w, data), len, b') && b'.Valid() && b'.Contents() != EncodeQueue(q)
  {
    hide EncodeQueue, ToLE, FromLE, Pow256;
    var p := Ones(w - r - 4);
    q := [p];
    var s := ToLE(|p|, 4) + p;
    QueueOfOne(p);
    data := Zeros(r) + s + Zeros(c - w);
    Between(Zeros(r), s, Zeros(c - w));
    GrowthIgnoresData(c, r, w, data, len);
    b' := LastByteChanged(Block(c, r, w, data), len);
  }

  /** The last byte held is 0 where memset does not reach, or 1: some memory shows in its place. */
  lemma LastByteChanged(b: Block, len: nat) returns (b': Block)
    requires b.Valid() && b.MustGrow(len) && b.CanGrow() && b.readable < b.writeable
    requires b.capacity < b.writeable + COPIED_HEAD
    requires b.data[b.writeable - 1] == 1 || (b.data[b.writeable - 1] == 0 && 2 * b.capacity < b.writeable + HEAD_SIZE)
    ensures PreparedTo(b, len, b') && b'.Valid() && b'.Contents() != b.Contents()
  {
    var c, w := b.capacity, b.writeable;
    var memory := Zeros(2 * c)[w - 1 := 1 - b.data[w - 1]];
    assert FreshMemory(memory, 2 * c);
    b' := b.Prepared(len, memory);
    assert PreparedTo(b, len, b');
    if c >= 5 {
      LastByteIsNew(b, len, memory);
    } else {
      TinyBlockEmptied(b, len, memory);
    }
  }

  lemma LastByteIsNew(b: Block, len: nat, memory: seq<Byte>)
    requires b.Valid() && b.MustGrow(len) && b.CanGrow() && b.readable < b.writeable && b.capacity >= 5
    requires |memory| == 2 * b.capacity && b.capacity < b.writeable + COPIED_HEAD
    requires memory[b.writeable - 1] != b.data[b.writeable - 1]
    ensures b.Prepared(len, memory).Valid() && b.Prepared(len, memory).Contents() != b.Contents()
  {
    GrownContents(b, len, memory);
    var k := b.writeable - b.readable - 1;
    assert b.Contents()[k] == b.data[b.writeable - 1];
    hide *;
    assert b.Prepared(len, memory).Contents()[k] != b.Contents()[k];
  }

  lemma TinyBlockEmptied(b: Block, len: nat, memory: seq<Byte>)
    requires b.Valid() && b.MustGrow(len) && b.CanGrow() && b.readable < b.writeable && b.capacity < 5
    requires |memory| == 2 * b.capacity
    ensures b.Prepared(len, memory).Valid() && b.Prepared(len, memory).Contents() == [] != b.Contents()
  {
    PreparedGrows(b, len, memory);
    GrownCursors(b, memory);
    CursorsCopied(b);
    CompactedContents(b.Transplanted(memory));
    hide CopiedCursor;
    var g := b.Grown(memory);
    assert g.Valid() && g.readable == g.writeable;
  }

  lemma GrowthIgnoresData(c: nat, r: nat, w: nat, data: seq<Byte>, len: nat)
    requires r <= w <= c == |data| < U32
    ensures Block(c, r, w, data).MustGrow(len) == Block(c, r, w, Zeros(c)).MustGrow(len)
    ensures Block(c, r, w, data).CanGrow() == Block(c, r, w, Zeros(c)).CanGrow()
  {
    assert Block(c, r, w, data).Rewound().Overruns(len) == Block(c, r, w, Zeros(c)).Rewound().Overruns(len);
  }

  /**
   The datagram queue and a growth, for every block that has to grow and can hold a queue between its cursors:
   every queue of that size comes through, whatever the new memory holds, if and only if nothing waits, the write
   cursor is at least 8 short of the capacity, or just one empty response waits (and, in a block of fewer than 12
   bytes, sits in front of the 12 bytes that memset does not reach).
   */
  lemma {:induction false} GrowthKeepsQueueIff(c: nat, r: nat, w: nat, len: nat)
    requires r <= w <= c < U32 && Block(c, r, w, Zeros(c)).MustGrow(len) && Block(c, r, w, Zeros(c)).CanGrow()
    requires w == r || r + 4 <= w
    ensures (forall q, data, b' | ShortEnough(q) && |data| == c && data[r..w] == EncodeQueue(q)
                                  && PreparedTo(Block(c, r, w, data), len, b') ::
               b'.Valid() && b'.Contents() == EncodeQueue(q))
       <==> r == w || w + 8 <= c || (w == r + 4 && w + 12 <= 2 * c)
  {
    hide EncodeQueue, ShortEnough, PreparedTo;
    if KeepsQueue(Block(c, r, w, Zeros(c)), len) {
      forall q, data, b' | ShortEnough(q) && |data| == c && data[r..w] == EncodeQueue(q)
                           && PreparedTo(Block(c, r, w, data), len, b')
        ensures b'.Valid() && b'.Contents() == EncodeQueue(q)
      {
        GrowthIgnoresData(c, r, w, data, len);
        KeepsQueueContents(Block(c, r, w, data), len, b', q);
      }
    } else {
      var q, data, b' := GrowthBreaksQueue(c, r, w, len);
    }
  }

  /** What two waiting responses put into the buffer. */
  function TwoResponses(p: seq<Byte>, tail: seq<Byte>): (s: seq<Byte>)
    ensures |s| == |p| + |tail| + 8
  {
    (ToLE(|p|, 4) + p) + (ToLE(|tail|, 4) + tail)
  }

  lemma TwoInQueue(p: seq<Byte>, tail: seq<Byte>)
    ensures EncodeQueue([p, tail]) == TwoResponses(p, tail)
  {
    QueueOfOne(p);
    EncodeQueueAppend([p], tail);
    hide EncodeQueue, ToLE;
    assert [p] + [tail] == [p, tail];
  }

  lemma QueueOfOne(p: seq<Byte>)
    ensures EncodeQueue([p]) == ToLE(|p|, 4) + p
  {
    hide ToLE;
    var q := [p];
    assert q[1..] == [] && p + [] == p;
  }

  lemma TwoResponsesGrown(p: seq<Byte>, tail: seq<Byte>, m: Block)
    requires p != [] && |tail| == 3 && 2 * (|p| + 11) < U32
    requires PreparedTo(Block(|p| + 11, 0, |p| + 11, TwoResponses(p, tail)), 9, m)
    ensures m.Valid() && m.Contents() == (ToLE(|p|, 4) + p[..|p| - 1]) + Zeros(8)
  {
    var s := TwoResponses(p, tail);
    FrontOfTwo(ToLE(|p|, 4), p, ToLE(3, 4) + tail);
    hide ToLE, TwoResponses;
    FullBlockGrown(s, m);
  }

  lemma FrontOfTwo(head: seq<Byte>, p: seq<Byte>, rest: seq<Byte>)
    requires |head| == 4 && p != []
    ensures ((head + p) + rest)[..|p| + 3] == head + p[..|p| - 1]
  {
  }

  /** A full block that grows: the last 8 bytes become zeros. */
  lemma FullBlockGrown(s: seq<Byte>, m: Block)
    requires HEAD_SIZE <= |s| && 2 * |s| < U32 && PreparedTo(Block(|s|, 0, |s|, s), 9, m)
    ensures m.Valid() && m.Contents() == s[..|s| - COPIED_HEAD] + Zeros(COPIED_HEAD)
  {
    var b := Block(|s|, 0, |s|, s);
    var memory :| FreshMemory(memory, 2 * |s|) && m == b.Prepared(9, memory);
    CursorsCopied(b);
    GrownContents(b, 9, memory);
    assert b.Contents() == s;
  }

  /** What is left of a growth that cut 8 bytes off: three zeros stand in front of the next length. */
  lemma DrainShifted(r: seq<Byte>)
    requires |r| == 5
    ensures Drain(Zeros(3) + ([5, 0, 0, 0] + r)).offered == [] && Drain(Zeros(3) + ([5, 0, 0, 0] + r)).failed
  {
    var s := Zeros(3) + ([5, 0, 0, 0] + r);
    ShiftedFront(s, r);
    LastOfFour(5);
    hide FromLE;
    DrainStops(s);
  }

  lemma ShiftedFront(s: seq<Byte>, r: seq<Byte>)
    requires s == Zeros(3) + ([5, 0, 0, 0] + r)
    ensures s[..4] == [0, 0, 0, 5]
  {
  }

  lemma LastOfFour(v: Byte)
    ensures FromLE([0, 0, 0, v]) == 0x100_0000 * v
  {
    ShiftedLE([v]);
    ShiftedLE([0, v]);
    ShiftedLE([0, 0, v]);
    assert [0] + [v] == [0, v] && [0] + [0, v] == [0, 0, v] && [0] + [0, 0, v] == [0, 0, 0, v];
    assert FromLE([v]) == v;
  }

  lemma ShiftedLE(s: seq<Byte>)
    ensures FromLE([0] + s) == 256 * FromLE(s)
  {
    assert ([0] + s)[1..] == s;
  }

  lemma Regrouped(head: seq<Byte>, front: seq<Byte>, r: seq<Byte>)
    ensures ((head + front) + Zeros(8)) + ([5, 0, 0, 0] + r)
         == head + ((front + [0]) + (Zeros(4) + ([] + (Zeros(3) + ([5, 0, 0, 0] + r)))))
  {
    var next := [5, 0, 0, 0] + r;
    assert Zeros(8) == [0] + (Zeros(4) + Zeros(3));
    calc {
      ((head + front) + ([0] + (Zeros(4) + Zeros(3)))) + next;
      (head + front) + (([0] + (Zeros(4) + Zeros(3))) + next);
      (head + front) + ([0] + (Zeros(4) + (Zeros(3) + next)));
      head + (front + ([0] + (Zeros(4) + (Zeros(3) + next))));
      head + ((front + [0]) + (Zeros(4) + (Zeros(3) + next)));
    }
    assert [] + (Zeros(3) + next) == Zeros(3) + next;
  }

  lemma GrownAndFilled(p: seq<Byte>, tail: seq<Byte>, r: seq<Byte>, b': Block)
    requires p != [] && |tail| == 3 && |r| == 5 && 2 * (|p| + 11) < U32
    requires Step(Block(|p| + 11, 0, |p| + 11, TwoResponses(p, tail)), Write(9, ToLE(5, 4) + r), b')
    ensures b'.Valid()
    ensures b'.Contents() == ((ToLE(|p|, 4) + p[..|p| - 1]) + Zeros(8)) + ([5, 0, 0, 0] + r)
  {
    SmallLE(5);
    hide ToLE, FromLE, TwoResponses;
    var frame := ToLE(5, 4) + r;
    var b := Block(|p| + 11, 0, |p| + 11, TwoResponses(p, tail));
    var m :| WroteVia(b, 9, frame, m, b');
    TwoResponsesGrown(p, tail, m);
    FilledContents(m, frame);
  }

  /**
   A queue that a growth breaks, for a first response of any size that is not empty: it and a second one of 3 bytes
   fill the block, and one of 5 bytes more is sent. What is drained then is the first response with a wrong last byte
   (or a zero that was there by chance), an empty one that nobody sent, and an encoding error. With 16373 bytes the
   block is the default one of a channel.
   */
  lemma FullQueueGetsStuck(p: seq<Byte>, tail: seq<Byte>, r: seq<Byte>, b': Block)
    requires p != [] && |tail| == 3 && |r| == 5 && 2 * (|p| + 11) < U32
    requires Step(Block(|p| + 11, 0, |p| + 11, TwoResponses(p, tail)), Write(9, ToLE(5, 4) + r), b')
    ensures TwoResponses(p, tail) == EncodeQueue([p, tail])
    ensures |p| == 16373 ==> |p| + 11 == DEFAULT_CAPACITY
    ensures b'.Valid()
    ensures Drain(b'.Contents()).offered == [p[..|p| - 1] + [0], []] && Drain(b'.Contents()).failed
  {
    TwoInQueue(p, tail);
    GrownAndFilled(p, tail, r, b');
    var front, rest := p[..|p| - 1], Zeros(3) + ([5, 0, 0, 0] + r);
    Regrouped(ToLE(|p|, 4), front, r);
    SmallLE(0);
    assert ToLE(0, 4) == Zeros(4);
    DrainShifted(r);
    DrainFrame([], rest);
    DrainFrame(front + [0], Zeros(4) + ([] + rest));
    hide Drain, ToLE, FromLE, EncodeQueue, TwoResponses, Step, Zeros;
    assert |front + [0]| == |p|;
  }

  class MyUdpChannel {
    const writeBuf: MySKBuffer
    const socket: MySocket
    var signalled: bool
    ghost var sound: bool
    ghost var queue: seq<seq<Byte>>
    ghost var offered: seq<seq<Byte>>
    ghost var accepted: seq<seq<Byte>>

    /**
     As long as no growth lost a byte of it, the buffer holds the waiting responses as frames, and every response
     ever accepted was offered to the socket by a send loop of its own or still waits; all in the order of
     acceptance.
     */
    ghost predicate Valid()
      reads this, writeBuf, writeBuf.data, socket
    {
      writeBuf.Valid() && OffersAll(offered, socket.calls) &&
      (sound ==> writeBuf.Contents() == EncodeQueue(queue) && ShortEnough(queue) && accepted == offered + queue)
    }

    constructor (capacity: nat)
      requires capacity < U32
      ensures Valid() && fresh(writeBuf) && fresh(writeBuf.data) && fresh(socket) && accepted == [] && sound
    {
      writeBuf := new MySKBuffer(capacity);
      socket := new MySocket();
      signalled, sound := false, true;
      queue, offered, accepted := [], [], [];
    }

    /** The response is framed behind the waiting ones, and the write watcher is signalled. */
    method SendResponse(bytes: seq<Byte>) returns (n: nat)
      requires Valid() && |bytes| + 4 < U32
      requires var b, len := writeBuf.View(), |bytes| + 4;
               (b.MustGrow(len) ==> b.CanGrow()) && HasRoomFor(b, len)
      modifies this, writeBuf, writeBuf.data
      ensures Valid() && (writeBuf.data == old(writeBuf.data) || fresh(writeBuf.data))
      ensures Step(old(writeBuf.View()), Write(|bytes| + 4, ToLE(|bytes|, 4) + bytes), writeBuf.View())
      ensures old(sound) && KeepsQueue(old(writeBuf.View()), |bytes| + 4) ==> sound
      ensures sound ==> queue == old(queue) + [bytes] && writeBuf.Contents() == EncodeQueue(queue)
      ensures sound ==> accepted == offered + queue
      ensures accepted == old(accepted) + [bytes] && offered == old(offered)
      ensures n == |bytes| && signalled
    {
      hide OffersAll, HasRoomFor, KeepsQueue, EncodeQueue, Step;
      Frame(bytes);
      PlusAssoc(offered, queue, [bytes]);
      sound := sound && writeBuf.Contents() == EncodeQueue(queue + [bytes]);
      queue, accepted, signalled := queue + [bytes], accepted + [bytes], true;
      n := |bytes|;
    }

    /** The length and the response go behind what is buffered. */
    method Frame(bytes: seq<Byte>)
      requires writeBuf.Valid() && |bytes| + 4 < U32
      requires var b, len := writeBuf.View(), |bytes| + 4;
               (b.MustGrow(len) ==> b.CanGrow()) && HasRoomFor(b, len)
      modifies writeBuf, writeBuf.data
      ensures writeBuf.Valid() && (writeBuf.data == old(writeBuf.data) || fresh(writeBuf.data))
      ensures Step(old(writeBuf.View()), Write(|bytes| + 4, ToLE(|bytes|, 4) + bytes), writeBuf.View())
      ensures KeepsQueue(old(writeBuf.View()), |bytes| + 4) && old(writeBuf.Contents()) == EncodeQueue(queue) ==>
                writeBuf.Contents() == EncodeQueue(queue + [bytes])
    {
      ghost var b := writeBuf.View();
      writeBuf.Append(ToLE(|bytes|, 4) + bytes);
      hide *;
      AppendedToQueue(b, ToLE(|bytes|, 4) + bytes, writeBuf.View(), queue);
      EncodeQueueAppend(queue, bytes);
    }

    /**
     Offers what the buffer holds, oldest first; -1 stands for the encoding error. As long as no growth lost
     anything, that never happens, and only an empty response at the very end stays behind for the next call.
     */
    method OnWrite() returns (rv: int)
      requires Valid()
      modifies this, writeBuf`readable, socket
      ensures Valid() && accepted == old(accepted) && sound == old(sound) && signalled == old(signalled)
      ensures (rv == 0 || rv == -1) && old(offered) <= offered
      ensures Drained(offered[|old(offered)|..], writeBuf.Contents(), rv == -1) == Drain(old(writeBuf.Contents()))
      ensures sound ==> rv == 0 && queue == LeftOf(old(queue)) && writeBuf.Contents() == EncodeQueue(queue)
      ensures sound ==> accepted == offered + queue
      ensures OffersAll(offered, socket.calls)
    {
      hide OffersAll, Drain, EncodeQueue, ShortEnough;
      ghost var s := writeBuf.Contents();
      rv := OfferAll();
      if sound {
        DrainOfQueue(queue);
        ghost var sent := queue[..|queue| - |LeftOf(queue)|];
        assert offered[|old(offered)|..] == sent && offered == old(offered) + sent;
        PlusAssoc(old(offered), sent, LeftOf(queue));
        ShortEnoughLeft(queue);
        queue := LeftOf(queue);
      }
    }

    /** The loop of onWrite. */
    method OfferAll() returns (rv: int)
      requires writeBuf.Valid() && OffersAll(offered, socket.calls)
      modifies this`offered, writeBuf`readable, socket
      ensures writeBuf.Valid() && OffersAll(offered, socket.calls)
      ensures (rv == 0 || rv == -1) && old(offered) <= offered
      ensures Drained(offered[|old(offered)|..], writeBuf.Contents(), rv == -1) == Drain(old(writeBuf.Contents()))
    {
      hide OffersAll, Drain;
      rv := 0;
      ghost var sent := [];
      while true
        invariant writeBuf.Valid() && OffersAll(offered, socket.calls) && offered == old(offered) + sent
        invariant Drain(old(writeBuf.Contents())) == Drain(writeBuf.Contents()).After(sent)
        invariant rv == 0
        decreases |writeBuf.Contents()|
      {
        var len := writeBuf.GetReadableLength();
        DrainStops(writeBuf.Contents());
        if len <= 4 {
          break;
        }
        ghost var s := writeBuf.Contents();
        var more := OfferNext(len);
        if !more {
          rv := -1;
          break;
        }
        DrainNext(sent, s);
        PlusAssoc(old(offered), sent, [s[4..4 + FromLE(s[..4])]]);
        sent := sent + [s[4..4 + FromLE(s[..4])]];
      }
    }

    /** One round of onWrite over a buffer of len > 4 bytes; false stands for the encoding error. */
    method OfferNext(len: nat) returns (ok: bool)
      requires writeBuf.Valid() && OffersAll(offered, socket.calls) && len == |writeBuf.Contents()| > 4
      modifies this`offered, writeBuf`readable, socket
      ensures writeBuf.Valid() && OffersAll(offered, socket.calls)
      ensures var s := old(writeBuf.Contents());
              var flag := FromLE(s[..4]);
              (ok <==> flag <= len - 4) &&
              (offered, writeBuf.Contents())
              == if ok then (old(offered) + [s[4..4 + flag]], s[4 + flag..]) else (old(offered), s)
    {
      hide OffersAll;
      var bytes;
      ok, bytes := TakeNext(len);
      if ok {
        OfferBytes(bytes);
      }
    }

    method OfferBytes(bytes: seq<Byte>)
      requires OffersAll(offered, socket.calls)
      modifies this`offered, socket
      ensures offered == old(offered) + [bytes] && OffersAll(offered, socket.calls)
    {
      ghost var calls := socket.calls;
      var send, made := socket.WriteAll(bytes);
      OffersAllAppend(offered, calls, bytes, made);
      offered := offered + [bytes];
    }

    /** The length, the test against the buffer, and the bytes; the read cursor ends up behind them. */
    method TakeNext(len: nat) returns (ok: bool, bytes: seq<Byte>)
      requires writeBuf.Valid() && len == |writeBuf.Contents()| > 4
      modifies writeBuf`readable
      ensures writeBuf.Valid()
      ensures var s := old(writeBuf.Contents());
              var flag := FromLE(s[..4]);
              (ok <==> flag <= len - 4) &&
              if ok then bytes == s[4..4 + flag] && writeBuf.Contents() == s[4 + flag..] else writeBuf.Contents() == s
    {
      ghost var s := writeBuf.Contents();
      hide FromLE;
      var flag := PeekFlag();
      if flag > len - 4 {
        return false, [];
      }
      writeBuf.MoveReadable(4);
      ghost var rest := s[4..];
      assert writeBuf.Contents() == rest && rest[..flag] == s[4..4 + flag] && rest[flag..] == s[4 + flag..];
      bytes := TakeBytes(flag);
      ok := true;
    }

    method PeekFlag() returns (flag: nat)
      requires writeBuf.Valid() && |writeBuf.Contents()| > 4
      ensures flag == FromLE(writeBuf.Contents()[..4])
    {
      hide FromLE;
      var ptr, empty, got := writeBuf.Readable(4);
      flag := FromLE(writeBuf.data[ptr..ptr + got]);
    }

    method TakeBytes(flag: nat) returns (bytes: seq<Byte>)
      requires writeBuf.Valid() && writeBuf.Contents() != [] && flag <= |writeBuf.Contents()|
      modifies writeBuf`readable
      ensures writeBuf.Valid()
      ensures bytes == old(writeBuf.Contents())[..flag] && writeBuf.Contents() == old(writeBuf.Contents())[flag..]
    {
      var ptr, empty, got := writeBuf.Readable(flag);
      bytes := writeBuf.data[ptr..ptr + got];
      writeBuf.MoveReadable(got);
    }
  }

  // ------------------------------------------------------------------------------------------
  // The byte queue

  lemma {:induction false} DeliveredAppend(a: seq<Call>, b: seq<Call>)
    ensures Delivered(a + b) == Delivered(a) + Delivered(b)
  {
    if a == [] {
      assert a + b == b;
    } else {
      calc {
        Delivered(a + b);
        { assert (a + b)[0] == a[0] && (a + b)[1..] == a[1..] + b; }
        a[0].Taken() + Delivered(a[1..] + b);
        { DeliveredAppend(a[1..], b); }
        a[0].Taken() + (Delivered(a[1..]) + Delivered(b));
        { PlusAssoc(a[0].Taken(), Delivered(a[1..]), Delivered(b)); }
        Delivered(a) + Delivered(b);
      }
    }
  }

  class MyTcpChannel {
    const writeBuf: MySKBuffer
    const socket: MySocket
    var signalled: bool
    ghost var accepted: seq<Byte>
    ghost var intact: bool

    /**
     As long as every onWrite returned 0 and no growth lost a byte: what the socket took and what waits is what was
     accepted, in order.
     */
    ghost predicate Valid()
      reads this, writeBuf, writeBuf.data, socket
    {
      writeBuf.Valid() && (intact ==> accepted == Delivered(socket.calls) + writeBuf.Contents())
    }

    constructor (capacity: nat)
      requires capacity < U32
      ensures Valid() && fresh(writeBuf) && fresh(writeBuf.data) && fresh(socket) && accepted == [] && intact
    {
      writeBuf := new MySKBuffer(capacity);
      socket := new MySocket();
      signalled, intact := false, true;
      accepted := [];
    }

    method SendResponse(bytes: seq<Byte>) returns (n: nat)
      requires Valid() && |bytes| < U32
      requires var b, len := writeBuf.View(), |bytes|; (b.MustGrow(len) ==> b.CanGrow()) && HasRoomFor(b, len)
      modifies this, writeBuf, writeBuf.data
      ensures Valid() && (writeBuf.data == old(writeBuf.data) || fresh(writeBuf.data))
      ensures Step(old(writeBuf.View()), Write(|bytes|, bytes), writeBuf.View())
      ensures intact == (old(intact) && writeBuf.Contents() == old(writeBuf.Contents()) + bytes)
      ensures KeepsContents(old(writeBuf.View()), |bytes|) ==> intact == old(intact)
      ensures accepted == old(accepted) + bytes && n == |bytes| && signalled
      ensures intact ==> accepted == Delivered(socket.calls) + writeBuf.Contents()
    {
      PlusAssoc(Delivered(socket.calls), writeBuf.Contents(), bytes);
      ghost var before := writeBuf.Contents();
      writeBuf.Append(bytes);
      intact := intact && writeBuf.Contents() == before + bytes;
      accepted, signalled := accepted + bytes, true;
      n := |bytes|;
    }

    /**
     One send loop over everything buffered. The buffer is empty afterwards either way: 0 says that the socket
     took every byte, and with -1 the bytes that it did not take are gone.
     */
    method OnWrite() returns (rv: int)
      requires Valid()
      modifies this`intact, writeBuf`readable, socket
      ensures Valid() && writeBuf.Contents() == [] && accepted == old(accepted)
      ensures rv == 0 || rv == -1
      ensures intact == (old(intact) && rv == 0)
      ensures old(socket.calls) <= socket.calls
      ensures Offers(old(writeBuf.Contents()), socket.calls[|old(socket.calls)|..])
      ensures rv == 0 <==> Delivered(socket.calls[|old(socket.calls)|..]) == old(writeBuf.Contents())
    {
      hide Offers, Delivered;
      var len := writeBuf.GetReadableLength();
      var ptr, empty, got := writeBuf.Readable(len);
      var bytes := if empty then [] else writeBuf.data[ptr..ptr + got];
      assert bytes == writeBuf.Contents();
      ghost var calls := socket.calls;
      var send, made := socket.WriteAll(bytes);
      assert socket.calls[|calls|..] == made;
      DeliveredAppend(calls, made);
      writeBuf.MoveReadable(got);
      rv := if send >= got then 0 else -1;
      intact := intact && rv == 0;
    }
  }
}
