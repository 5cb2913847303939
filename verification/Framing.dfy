/**
 Cutting a byte stream into packets: the client loop of MyProxy::onRead and the server loop of
 MyServant::handlePackets, over the same length test of the protocol.
 */
module Framing {
  import opened Bytes
  import opened Sequences
  import opened SKBuffer
  import opened IOBuf
  import opened Message

  // What MyClient::onRead asks for at a time.
  const READ_SIZE := 1024

  /** 0 while the four length bytes and one more are not there yet. */
  function PacketLength(s: seq<Byte>): nat {
    if |s| <= 4 then 0 else FromLE(s[..4])
  }

  /** kPacketStatusComplete; the protocol never reports kPacketStatusError. */
  predicate IsComplete(s: seq<Byte>) {
    PacketLength(s) <= |s|
  }

  /** The client loop goes round once more: a complete packet of positive length is in front. */
  predicate CutsPacket(s: seq<Byte>) {
    0 < PacketLength(s) <= |s|
  }

  datatype Cut = Cut(packets: seq<seq<Byte>>, residual: seq<Byte>) {
    function After(earlier: seq<seq<Byte>>): Cut {
      Cut(earlier + packets, residual)
    }
  }

  /** All the packets at the front of the stream, and what is left when no more can be cut. */
  function Frames(s: seq<Byte>): Cut
    decreases |s|
  {
    if !CutsPacket(s) then Cut([], s)
    else
      var rest := Frames(s[PacketLength(s)..]);
      Cut([s[..PacketLength(s)]] + rest.packets, rest.residual)
  }

  /**
   What a cut of s is, byte by byte: each packet is as long as the first four bytes say, once a fifth one is there;
   in front of the residual there is no such packet.
   */
  predicate IsCut(s: seq<Byte>, c: Cut)
    decreases |c.packets|
  {
    if c.packets == [] then s == c.residual && (|s| <= 4 || FromLE(s[..4]) == 0 || FromLE(s[..4]) > |s|)
    else
      var p := c.packets[0];
      p != [] && p <= s && |s| > 4 && FromLE(s[..4]) == |p| && IsCut(s[|p|..], Cut(c.packets[1..], c.residual))
  }

  lemma {:induction false} FramesIsTheCut(s: seq<Byte>, c: Cut)
    ensures IsCut(s, c) <==> c == Frames(s)
    decreases |s|
  {
    if CutsPacket(s) && c.packets != [] {
      var n, p, tail := PacketLength(s), c.packets[0], Cut(c.packets[1..], c.residual);
      FramesIsTheCut(s[n..], tail);
      assert c.packets == [p] + tail.packets;
      assert p <= s && |p| == n <==> p == s[..n];
      assert c == Frames(s) <==> p == s[..n] && tail == Frames(s[n..]) by {
        assert Frames(s).packets[0] == s[..n] && Frames(s).packets[1..] == Frames(s[n..]).packets;
      }
    }
  }

  /** Nothing is lost or reordered by the loop. */
  lemma {:induction false} FramesConserve(s: seq<Byte>)
    ensures Concat(Frames(s).packets) + Frames(s).residual == s
    decreases |s|
  {
    if CutsPacket(s) {
      var n := PacketLength(s);
      var rest := Frames(s[n..]);
      FramesConserve(s[n..]);
      assert Frames(s) == Cut([s[..n]] + rest.packets, rest.residual);
      hide Frames, PacketLength;
      calc {
        Concat(Frames(s).packets) + Frames(s).residual;
        Concat([s[..n]] + rest.packets) + rest.residual;
        { ConcatCons(s[..n], rest.packets); }
        (s[..n] + Concat(rest.packets)) + rest.residual;
        { PlusAssoc(s[..n], Concat(rest.packets), rest.residual); }
        s[..n] + s[n..];
        s;
      }
    }
  }

  // ------------------------------------------------------------------------------------------
  // Chunking

  lemma CutsPacketAppend(a: seq<Byte>, b: seq<Byte>)
    requires CutsPacket(a)
    ensures CutsPacket(a + b) && PacketLength(a + b) == PacketLength(a)
  {
    assert (a + b)[..4] == a[..4];
  }

  lemma {:induction false} FramesAppend(a: seq<Byte>, b: seq<Byte>)
    ensures Frames(a + b) == Cut(Frames(a).packets + Frames(Frames(a).residual + b).packets,
                                 Frames(Frames(a).residual + b).residual)
    decreases |a|
  {
    if CutsPacket(a) {
      var n := PacketLength(a);
      CutsPacketAppend(a, b);
      assert (a + b)[..n] == a[..n] && (a + b)[n..] == a[n..] + b;
      FramesAppend(a[n..], b);
      var tail := Frames(Frames(a[n..]).residual + b);
      assert [a[..n]] + (Frames(a[n..]).packets + tail.packets) == ([a[..n]] + Frames(a[n..]).packets) + tail.packets;
    } else {
      assert [] + Frames(a + b).packets == Frames(a + b).packets;
    }
  }

  // ------------------------------------------------------------------------------------------
  // The client loop with its handler

  /** What reached the handler, what is left in the buffer, and whether the handler's decode threw out of the loop. */
  datatype Handling = Handling(handed: seq<seq<Byte>>, residual: seq<Byte>, threw: bool) {
    function After(earlier: seq<seq<Byte>>): Handling {
      this.(handed := earlier + handed)
    }
  }

  /** The loop of MyProxy::onRead: decode throws on a packet of fewer than 20 bytes, and nothing catches that. */
  function Handle(s: seq<Byte>): Handling
    decreases |s|
  {
    if !CutsPacket(s) then Handling([], s, false)
    else
      var n := PacketLength(s);
      if n < HEAD_LEN then Handling([s[..n]], s[n..], true) else Handle(s[n..]).After([s[..n]])
  }

  predicate AllLong(ps: seq<seq<Byte>>) {
    forall p | p in ps :: |p| >= HEAD_LEN
  }

  /** The packets up to the first short one, which is the last to reach the handler. */
  function UpToShort(ps: seq<seq<Byte>>): (r: seq<seq<Byte>>)
    ensures r <= ps && (AllLong(ps) ==> r == ps)
  {
    if ps == [] then []
    else
      assert ps == [ps[0]] + ps[1..];
      [ps[0]] + if |ps[0]| < HEAD_LEN then [] else UpToShort(ps[1..])
  }

  /** With a short packet among them, the last one handed over is the first that is short. */
  lemma {:induction false} UpToShortEnds(ps: seq<seq<Byte>>)
    requires !AllLong(ps)
    ensures var r := UpToShort(ps); r != [] && AllLong(r[..|r| - 1]) && |r[|r| - 1]| < HEAD_LEN
  {
    var p, rest := ps[0], ps[1..];
    if |p| >= HEAD_LEN {
      LongFirst(p, rest);
      assert ps == [p] + rest;
      UpToShortEnds(rest);
      var r, tail := UpToShort(ps), UpToShort(rest);
      assert r == [p] + tail;
      hide UpToShort;
      assert r[..|r| - 1] == [p] + tail[..|tail| - 1] && r[|r| - 1] == tail[|tail| - 1];
      LongFirst(p, tail[..|tail| - 1]);
    } else {
      assert UpToShort(ps) == [p];
    }
  }

  lemma LongFirst(p: seq<Byte>, ps: seq<seq<Byte>>)
    requires |p| >= HEAD_LEN
    ensures AllLong([p] + ps) <==> AllLong(ps)
  {
    assert forall q | q in ps :: q in [p] + ps;
  }

  lemma {:induction false} UpToShortAppend(ps: seq<seq<Byte>>, more: seq<seq<Byte>>)
    requires AllLong(ps)
    ensures UpToShort(ps + more) == ps + UpToShort(more)
  {
    if ps == [] {
      assert ps + more == more;
    } else {
      assert (ps + more)[1..] == ps[1..] + more;
      UpToShortAppend(ps[1..], more);
    }
  }

  lemma {:induction false} HandleIs(s: seq<Byte>)
    ensures Handle(s).handed == UpToShort(Frames(s).packets)
    ensures Handle(s).threw <==> !AllLong(Frames(s).packets)
    ensures !Handle(s).threw ==> Handle(s).residual == Frames(s).residual
    decreases |s|
  {
    if CutsPacket(s) {
      var n := PacketLength(s);
      var p, rest := s[..n], Frames(s[n..]);
      assert Frames(s).packets == [p] + rest.packets;
      if n < HEAD_LEN {
        assert p in Frames(s).packets;
      } else {
        HandleIs(s[n..]);
        assert AllLong([p]) && UpToShort([]) == [];
        UpToShortAppend([p], rest.packets);
      }
    }
  }

  /** Thrown or not, the packets handed over and then what is left in the buffer are the stream. */
  lemma {:induction false} HandleConserves(s: seq<Byte>)
    ensures Concat(Handle(s).handed) + Handle(s).residual == s
    decreases |s|
  {
    if CutsPacket(s) {
      var n := PacketLength(s);
      assert s == s[..n] + s[n..];
      if n < HEAD_LEN {
        ConcatCons(s[..n], []);
      } else {
        var rest := Handle(s[n..]);
        HandleConserves(s[n..]);
        ConcatCons(s[..n], rest.handed);
        PlusAssoc(s[..n], Concat(rest.handed), rest.residual);
      }
    }
  }

  /**
   The loop hands over all the packets of the stream and leaves its residual, if and only if each packet that is
   cut has room for the header.
   */
  lemma HandlesAllIff(s: seq<Byte>)
    ensures Handle(s) == Handling(Frames(s).packets, Frames(s).residual, false) <==> AllLong(Frames(s).packets)
  {
    HandleIs(s);
  }

  /** A packet of 5 bytes in front of a whole frame: the frame is cut from the stream, but never handed over. */
  lemma ShortPacketThrows(frame: seq<Byte>)
    requires IsFrame(frame)
    ensures var p := [5, 0, 0, 0, 9];
            Frames(p + frame) == Cut([p, frame], []) && Handle(p + frame) == Handling([p], frame, true)
  {
    var p: seq<Byte> := [5, 0, 0, 0, 9];
    SmallLE(5);
    assert p[..4] == [5, 0, 0, 0];
    FramesOfFrames([p, frame], []);
    ConcatCons(p, [frame]);
    assert [p] + [frame] == [p, frame] && Concat([p, frame]) + [] == p + frame by {
      ConcatCons(frame, []);
      assert [frame] + [] == [frame];
    }
    CutsPacketAppend(p, frame);
    assert (p + frame)[..5] == p && (p + frame)[5..] == frame;
  }

  /** The loop run after each chunk, on what the chunk before left in the buffer, until it throws. */
  function Feed(buffered: seq<Byte>, chunks: seq<seq<Byte>>): Handling
    decreases |chunks|
  {
    if chunks == [] then Handling([], buffered, false)
    else
      var now := Handle(buffered + chunks[0]);
      if now.threw then now else Feed(now.residual, chunks[1..]).After(now.handed)
  }

  lemma {:induction false} FeedIs(buffered: seq<Byte>, chunks: seq<seq<Byte>>)
    requires !CutsPacket(buffered)
    ensures var f, run := Frames(buffered + Concat(chunks)), Feed(buffered, chunks);
            run.handed == UpToShort(f.packets) && (run.threw <==> !AllLong(f.packets)) &&
            (!run.threw ==> run.residual == f.residual)
    decreases |chunks|
  {
    if chunks == [] {
      assert buffered + [] == buffered;
    } else {
      var first, rest := buffered + chunks[0], Concat(chunks[1..]);
      var ps, f := Frames(first).packets, Frames(buffered + Concat(chunks));
      HandleIs(first);
      PlusAssoc(buffered, chunks[0], rest);
      FramesAppend(first, rest);
      var more := Frames(Frames(first).residual + rest).packets;
      if AllLong(ps) {
        ResidualDoesNotCut(first);
        FeedIs(Frames(first).residual, chunks[1..]);
        UpToShortAppend(ps, more);
      } else {
        ShortStays(ps, more);
      }
    }
  }

  lemma {:induction false} ShortStays(ps: seq<seq<Byte>>, more: seq<seq<Byte>>)
    requires !AllLong(ps)
    ensures UpToShort(ps + more) == UpToShort(ps) && !AllLong(ps + more)
  {
    var p :| p in ps && |p| < HEAD_LEN;
    assert p in ps + more;
    assert (ps + more)[1..] == ps[1..] + more;
    if |ps[0]| >= HEAD_LEN {
      assert p in ps[1..];
      ShortStays(ps[1..], more);
    }
  }

  lemma {:induction false} ResidualDoesNotCut(s: seq<Byte>)
    ensures !CutsPacket(Frames(s).residual)
    decreases |s|
  {
    if CutsPacket(s) {
      ResidualDoesNotCut(s[PacketLength(s)..]);
    }
  }

  /**
   For every byte stream and every way of cutting it into chunks: the same packets are handed over, up to and
   including the first one that is too short for the header, and the same runs end by exception; the others leave
   the same residual.
   */
  lemma ChunkingInvariance(chunks: seq<seq<Byte>>, other: seq<seq<Byte>>)
    requires Concat(chunks) == Concat(other)
    ensures var f, a, b := Frames(Concat(chunks)), Feed([], chunks), Feed([], other);
            a.handed == b.handed == UpToShort(f.packets) && a.threw == b.threw == !AllLong(f.packets) &&
            (AllLong(f.packets) ==> a == b == Handling(f.packets, f.residual, false))
  {
    FeedIs([], chunks);
    FeedIs([], other);
    assert [] + Concat(chunks) == Concat(chunks);
  }

  // ------------------------------------------------------------------------------------------
  // Well-formed streams, end to end

  /** A frame that says its own length and is long enough for the length to be looked at. */
  predicate IsFrame(p: seq<Byte>) {
    |p| > 4 && FromLE(p[..4]) == |p|
  }

  /** What a packet is when it leaves one of the loops: if it shows a length, it has this length. */
  predicate IsCutPacket(p: seq<Byte>) {
    |p| < U32 && (|p| > 4 ==> IsFrame(p))
  }

  /** Every packet that is cut from any stream is non-empty and has the length that it shows. */
  lemma {:induction false} PacketsAreCut(s: seq<Byte>)
    ensures forall p | p in Frames(s).packets :: p != [] && IsCutPacket(p)
    decreases |s|
  {
    if CutsPacket(s) {
      var n := PacketLength(s);
      PacketsAreCut(s[n..]);
      FromLEBound(s[..4]);
      Pow256Values();
      assert n > 4 ==> s[..n][..4] == s[..4];
      assert Frames(s).packets == [s[..n]] + Frames(s[n..]).packets;
    }
  }

  lemma {:induction false} FramesOfFrames(ps: seq<seq<Byte>>, residual: seq<Byte>)
    requires forall p | p in ps :: IsFrame(p)
    requires !CutsPacket(residual)
    ensures Frames(Concat(ps) + residual) == Cut(ps, residual)
  {
    if ps == [] {
      assert [] + residual == residual;
    } else {
      var p, tail := ps[0], Concat(ps[1..]) + residual;
      var s := Concat(ps) + residual;
      assert IsFrame(p);
      assert s == p + tail;
      CutsPacketAppend(p, tail);
      assert s[..|p|] == p && s[|p|..] == tail;
      FramesOfFrames(ps[1..], residual);
      assert ps == [p] + ps[1..];
    }
  }

  ghost predicate AllWellFormed(ms: seq<Magic>) {
    forall i | 0 <= i < |ms| :: ms[i].WellFormed()
  }

  function EncodeAll(ms: seq<Magic>): (ps: seq<seq<Byte>>)
    requires AllWellFormed(ms)
    ensures |ps| == |ms| && forall i | 0 <= i < |ms| :: ps[i] == EncodeBytes(ms[i])
  {
    if ms == [] then [] else [EncodeBytes(ms[0])] + EncodeAll(ms[1..])
  }

  lemma EncodedIsFrame(m: Magic)
    requires m.WellFormed()
    ensures IsFrame(EncodeBytes(m))
  {
    Pow256Values();
    DecodeEncode(m);
    DecodeEnds(EncodeBytes(m));
  }

  lemma EncodedAre(ms: seq<Magic>)
    requires AllWellFormed(ms)
    ensures var ps := EncodeAll(ms);
            (forall p | p in ps :: IsFrame(p)) && AllLong(ps) &&
            forall i | 0 <= i < |ms| :: |ps[i]| >= HEAD_LEN && DecodeBytes(ps[i]) == ms[i]
  {
    forall i | 0 <= i < |ms|
      ensures IsFrame(EncodeBytes(ms[i])) && DecodeBytes(EncodeBytes(ms[i])) == ms[i]
    {
      EncodedIsFrame(ms[i]);
      DecodeEncode(ms[i]);
    }
  }

  /**
   Any list of messages, encoded one after the other and delivered in any chunks, comes out of the
   client loop packet by packet as the same fields and payloads, with nothing left over.
   */
  lemma EndToEnd(ms: seq<Magic>, chunks: seq<seq<Byte>>)
    requires AllWellFormed(ms)
    requires Concat(chunks) == Concat(EncodeAll(ms))
    ensures var run := Feed([], chunks);
            !run.threw && run.residual == [] && |run.handed| == |ms| &&
            forall i | 0 <= i < |ms| :: |run.handed[i]| >= HEAD_LEN && DecodeBytes(run.handed[i]) == ms[i]
  {
    var ps := EncodeAll(ms);
    EncodedAre(ms);
    hide EncodeAll, EncodeBytes, DecodeBytes, Frames, Feed, Concat;
    assert [] + Concat(chunks) == Concat(ps) + [];
    FramesOfFrames(ps, []);
    FeedIs([], chunks);
  }

  // ------------------------------------------------------------------------------------------
  // The server loop

  /** Between two rounds of handlePackets, or after it returned. */
  datatype ServerLoop = Running(buffered: seq<Byte>, dispatched: seq<seq<Byte>>)
                      | Returned(buffered: seq<Byte>, dispatched: seq<seq<Byte>>)

  /**
   One round. A complete packet of length 0 removes the channel from its map, but neither consumes
   anything nor leaves the loop.
   */
  function ServerRound(l: ServerLoop): ServerLoop {
    if l.Returned? then l
    else if l.buffered == [] || !IsComplete(l.buffered) then Returned(l.buffered, l.dispatched)
    else
      var n := PacketLength(l.buffered);
      if n == 0 then l else Running(l.buffered[n..], l.dispatched + [l.buffered[..n]])
  }

  function Rounds(l: ServerLoop, n: nat): ServerLoop
    decreases n
  {
    if n == 0 then l else Rounds(ServerRound(l), n - 1)
  }

  /** A rest that the length test calls complete although it has no length: up to 4 bytes, or a length of 0. */
  predicate Stalls(residual: seq<Byte>) {
    0 < |residual| <= 4 || (|residual| > 4 && residual[..4] == [0, 0, 0, 0])
  }

  lemma StallsIs(residual: seq<Byte>)
    ensures Stalls(residual) <==> residual != [] && PacketLength(residual) == 0
  {
    if |residual| > 4 {
      ZeroLE(residual[..4]);
    }
  }

  lemma DispatchNext(s: seq<Byte>, d: seq<seq<Byte>>)
    requires CutsPacket(s)
    ensures ServerRound(Running(s, d)) == Running(s[PacketLength(s)..], d + [s[..PacketLength(s)]])
    ensures d + Frames(s).packets == d + [s[..PacketLength(s)]] + Frames(s[PacketLength(s)..]).packets
  {
  }

  lemma {:induction false} RoundsReturn(s: seq<Byte>, d: seq<seq<Byte>>, n: nat)
    requires Rounds(Running(s, d), n).Returned?
    ensures !Stalls(Frames(s).residual)
    ensures Rounds(Running(s, d), n) == Returned(Frames(s).residual, d + Frames(s).packets)
    decreases n
  {
    StallsIs(s);
    hide Stalls;
    if CutsPacket(s) {
      DispatchNext(s, d);
      RoundsReturn(s[PacketLength(s)..], d + [s[..PacketLength(s)]], n - 1);
    } else if s == [] || !IsComplete(s) {
      ReturnedStays(ServerRound(Running(s, d)), n - 1);
      assert d + [] == d;
    } else {
      RoundsReturn(s, d, n - 1);
    }
  }

  lemma {:induction false} ReturnedStays(l: ServerLoop, n: nat)
    requires l.Returned?
    ensures Rounds(l, n) == l
  {
    if n > 0 {
      ReturnedStays(l, n - 1);
    }
  }

  lemma {:induction false} RoundsEnough(s: seq<Byte>, d: seq<seq<Byte>>)
    requires !Stalls(Frames(s).residual)
    ensures Rounds(Running(s, d), |Frames(s).packets| + 1).Returned?
    decreases |s|
  {
    StallsIs(s);
    hide Stalls;
    if CutsPacket(s) {
      DispatchNext(s, d);
      RoundsEnough(s[PacketLength(s)..], d + [s[..PacketLength(s)]]);
    } else {
      assert Rounds(Running(s, d), 1) == Rounds(ServerRound(Running(s, d)), 0);
    }
  }

  /**
   handlePackets returns if and only if what remains after the last whole packet is empty or has more than
   4 bytes and a length other than 0. It then has dispatched the packets of the client loop, in order.
   */
  lemma ServerReturnsIff(s: seq<Byte>)
    ensures (exists n :: Rounds(Running(s, []), n).Returned?) <==>
            var rest := Frames(s).residual; rest == [] || (|rest| > 4 && rest[..4] != [0, 0, 0, 0])
    ensures forall n :: Rounds(Running(s, []), n).Returned? ==>
              Rounds(Running(s, []), n) == Returned(Frames(s).residual, Frames(s).packets)
  {
    forall n: nat | Rounds(Running(s, []), n).Returned?
      ensures !Stalls(Frames(s).residual)
      ensures Rounds(Running(s, []), n) == Returned(Frames(s).residual, Frames(s).packets)
    {
      RoundsReturn(s, [], n);
      assert [] + Frames(s).packets == Frames(s).packets;
    }
    if !Stalls(Frames(s).residual) {
      RoundsEnough(s, []);
    }
  }

  /** Whole frames, and behind them nothing or the beginning of a frame: exactly the whole ones are dispatched. */
  lemma ServerOnFrames(ps: seq<seq<Byte>>, residual: seq<Byte>) returns (n: nat)
    requires forall p | p in ps :: IsFrame(p)
    requires residual == [] || (|residual| > 4 && FromLE(residual[..4]) > |residual|)
    ensures Rounds(Running(Concat(ps) + residual, []), n) == Returned(residual, ps)
  {
    FramesOfFrames(ps, residual);
    ServerReturnsIff(Concat(ps) + residual);
    if residual != [] {
      ZeroLE(residual[..4]);
    }
    n :| Rounds(Running(Concat(ps) + residual, []), n).Returned?;
  }

  /** The first one to four bytes of a packet keep the server loop from returning; the client loop leaves them. */
  lemma {:induction false} FewBytesHang(s: seq<Byte>, n: nat)
    requires 1 <= |s| <= 4
    ensures Rounds(Running(s, []), n).Running?
    ensures Handle(s) == Handling([], s, false)
  {
    assert Frames(s).residual == s;
    ServerReturnsIff(s);
  }

  /** One byte of a packet that is still on its way is enough to keep the server loop from returning. */
  lemma {:induction false} ServerHangsOnOneByte(b: Byte, n: nat)
    ensures Rounds(Running([b], []), n).Running?
  {
    assert Frames([b]).residual == [b];
    ServerReturnsIff([b]);
  }

  // ------------------------------------------------------------------------------------------
  // The loops over a buffer

  lemma FramesStop(s: seq<Byte>)
    ensures !CutsPacket(s) ==> Frames(s) == Cut([], s)
  {
  }

  lemma AfterNext(earlier: seq<seq<Byte>>, s: seq<Byte>)
    requires CutsPacket(s)
    ensures Frames(s).After(earlier) == Frames(s[PacketLength(s)..]).After(earlier + [s[..PacketLength(s)]])
  {
    PlusAssoc(earlier, [s[..PacketLength(s)]], Frames(s[PacketLength(s)..]).packets);
  }

  lemma HandleStops(s: seq<Byte>)
    ensures !CutsPacket(s) ==> Handle(s) == Handling([], s, false)
    ensures CutsPacket(s) && PacketLength(s) < HEAD_LEN ==>
              Handle(s) == Handling([s[..PacketLength(s)]], s[PacketLength(s)..], true)
  {
  }

  lemma HandleNext(earlier: seq<seq<Byte>>, s: seq<Byte>)
    requires CutsPacket(s) && PacketLength(s) >= HEAD_LEN
    ensures Handle(s).After(earlier) == Handle(s[PacketLength(s)..]).After(earlier + [s[..PacketLength(s)]])
  {
    PlusAssoc(earlier, [s[..PacketLength(s)]], Handle(s[PacketLength(s)..]).handed);
  }

  /** The payload buffer that decode creates from the length field is as large as the payload of a cut packet. */
  lemma CutPacketFits(s: seq<Byte>)
    requires CutsPacket(s)
    ensures PayloadFits(s[..PacketLength(s)])
  {
    var p := s[..PacketLength(s)];
    Pow256Values();
    FromLEBound(s[..4]);
    assert |p| > HEAD_LEN ==> p[..4] == s[..4];
  }

  // ------------------------------------------------------------------------------------------
  // Runs of reads and loops over one block

  /** Room for len bytes is asked for and `bytes` of them arrive; or the loop runs on what is buffered. */
  datatype ReadEvent = Got(len: nat, bytes: seq<Byte>) | Loop

  /** The block after the client loop: only the read cursor moved, up to the residual. */
  function Looped(b: Block): Block
    requires b.Valid()
  {
    HandleConserves(b.Contents());
    b.(readable := b.writeable - |Handle(b.Contents()).residual|)
  }

  ghost predicate ReadStep(b: Block, e: ReadEvent, b': Block)
    requires b.Valid()
  {
    match e
    case Got(len, bytes) => Step(b, Write(len, bytes), b')
    case Loop => b' == Looped(b)
  }

  predicate Throws(b: Block, e: ReadEvent)
    requires b.Valid()
  {
    e.Loop? && Handle(b.Contents()).threw
  }

  /** An exception ends the run. */
  ghost predicate ReadRun(states: seq<Block>, es: seq<ReadEvent>) {
    |states| == |es| + 1 &&
    (forall s | s in states :: s.Valid()) &&
    (forall i | 0 <= i < |es| :: ReadStep(states[i], es[i], states[i + 1])) &&
    forall i | 0 <= i < |es| - 1 :: !Throws(states[i], es[i])
  }

  predicate LosslessRead(b: Block, e: ReadEvent)
    requires b.Valid()
  {
    e.Got? ==> KeepsContents(b, e.len)
  }

  /** The bytes that arrived in the first n events. */
  function Received(es: seq<ReadEvent>, n: nat): seq<Byte>
    requires n <= |es|
  {
    if n == 0 then [] else Received(es, n - 1) + if es[n - 1].Got? then es[n - 1].bytes else []
  }

  /** The packets that reached the handler in the first n events. */
  ghost function HandedOver(states: seq<Block>, es: seq<ReadEvent>, n: nat): seq<seq<Byte>>
    requires ReadRun(states, es) && n <= |es|
  {
    if n == 0 then []
    else HandedOver(states, es, n - 1) + if es[n - 1].Loop? then Handle(states[n - 1].Contents()).handed else []
  }

  lemma LoopedContents(b: Block)
    requires b.Valid()
    ensures Looped(b).Valid() && Looped(b).Contents() == Handle(b.Contents()).residual
  {
    HandleConserves(b.Contents());
    var h := Handle(b.Contents());
    assert b.Contents()[|Concat(h.handed)|..] == h.residual;
  }

  /** As long as nothing was lost or thrown: the stream so far is cut into what was handed over and what is buffered. */
  lemma {:induction false} ReadRunCuts(states: seq<Block>, es: seq<ReadEvent>, n: nat)
    requires ReadRun(states, es) && n <= |es|
    requires forall i | 0 <= i < n :: LosslessRead(states[i], es[i]) && !Throws(states[i], es[i])
    ensures AllLong(HandedOver(states, es, n))
    ensures Frames(states[0].Contents() + Received(es, n))
         == Frames(states[n].Contents()).After(HandedOver(states, es, n))
  {
    if n == 0 {
      assert states[0].Contents() + [] == states[0].Contents();
      assert [] + Frames(states[0].Contents()).packets == Frames(states[0].Contents()).packets;
    } else {
      ReadRunCuts(states, es, n - 1);
      hide Frames, Handle, ReadStep, LosslessRead, Throws;
      assert ReadStep(states[n - 1], es[n - 1], states[n - 1 + 1]);
      assert LosslessRead(states[n - 1], es[n - 1]) && !Throws(states[n - 1], es[n - 1]);
      ReadStepCuts(states[0].Contents() + Received(es, n - 1), HandedOver(states, es, n - 1), states[n - 1], es[n - 1],
                   states[n]);
      PlusAssoc(states[0].Contents(), Received(es, n - 1), if es[n - 1].Got? then es[n - 1].bytes else []);
    }
  }

  lemma ReadStepCuts(stream: seq<Byte>, handed: seq<seq<Byte>>, b: Block, e: ReadEvent, b': Block)
    requires b.Valid() && ReadStep(b, e, b') && LosslessRead(b, e) && !Throws(b, e)
    requires AllLong(handed) && Frames(stream) == Frames(b.Contents()).After(handed)
    ensures b'.Valid()
    ensures var handed' := handed + if e.Loop? then Handle(b.Contents()).handed else [];
            AllLong(handed') &&
            Frames(stream + if e.Got? then e.bytes else []) == Frames(b'.Contents()).After(handed')
  {
    var s := b.Contents();
    match e
    case Got(len, bytes) =>
      StepIsQueueStep(b, Write(len, bytes), b');
      assert b'.Contents() == s + bytes;
      hide *;
      MoreArrives(stream, handed, s, bytes);
      assert handed + [] == handed;
    case Loop =>
      LoopedContents(b);
      hide Frames, Handle, Looped, AllLong;
      LoopTakes(handed, s);
      assert stream + [] == stream;
  }

  lemma LoopTakes(handed: seq<seq<Byte>>, s: seq<Byte>)
    requires AllLong(handed) && !Handle(s).threw
    ensures AllLong(handed + Handle(s).handed)
    ensures Frames(s).After(handed) == Frames(Handle(s).residual).After(handed + Handle(s).handed)
  {
    HandleIs(s);
    ResidualDoesNotCut(s);
    FramesStop(Frames(s).residual);
    hide Frames, Handle;
    assert (handed + Frames(s).packets) + [] == handed + Frames(s).packets;
  }

  lemma MoreArrives(stream: seq<Byte>, handed: seq<seq<Byte>>, s: seq<Byte>, bytes: seq<Byte>)
    requires Frames(stream) == Frames(s).After(handed)
    ensures Frames(stream + bytes) == Frames(s + bytes).After(handed)
  {
    hide Frames;
    FramesAppend(stream, bytes);
    FramesAppend(s, bytes);
    PlusAssoc(handed, Frames(s).packets, Frames(Frames(s).residual + bytes).packets);
  }

  /**
   The client's read side from end to end: any run of reads and loops over its buffer that ends with the loop and
   whose requests lose nothing. With `stream` all the bytes that arrived, behind what was there before: the packets
   handed over are those of the stream up to the first short one, an exception ends the run exactly if there is a
   short one, and otherwise the residual of the stream is what is buffered.
   */
  lemma ReadRunIsFrames(states: seq<Block>, es: seq<ReadEvent>)
    requires ReadRun(states, es) && es != [] && es[|es| - 1] == Loop
    requires forall i | 0 <= i < |es| :: LosslessRead(states[i], es[i])
    ensures var n := |es|;
            var f := Frames(states[0].Contents() + Received(es, n));
            HandedOver(states, es, n) == UpToShort(f.packets) &&
            (Throws(states[n - 1], es[n - 1]) <==> !AllLong(f.packets)) &&
            (AllLong(f.packets) ==> states[n].Contents() == f.residual)
  {
    var n := |es| - 1;
    ReadRunCuts(states, es, n);
    assert ReadStep(states[n], es[n], states[n + 1]);
    var handed, s := HandedOver(states, es, n), states[n].Contents();
    LoopedContents(states[n]);
    HandleIs(s);
    hide Frames, Handle;
    UpToShortAppend(handed, Frames(s).packets);
    assert Received(es, n + 1) == Received(es, n) + [] == Received(es, n);
    assert AllLong(handed + Frames(s).packets) <==> AllLong(Frames(s).packets);
  }

  lemma ReadRunNext(states: seq<Block>, es: seq<ReadEvent>, e: ReadEvent, b': Block)
    requires ReadRun(states, es) && b'.Valid() && ReadStep(states[|es|], e, b')
    requires es != [] ==> !Throws(states[|es| - 1], es[|es| - 1])
    ensures ReadRun(states + [b'], es + [e])
    ensures HandedOver(states + [b'], es + [e], |es| + 1)
         == HandedOver(states, es, |es|) + if e.Loop? then Handle(states[|es|].Contents()).handed else []
  {
    hide ReadStep, Throws, Handle;
    var states', es' := states + [b'], es + [e];
    assert forall i | 0 <= i <= |es| :: states'[i] == states[i];
    HandedOverPrefix(states, es, states', es', |es|);
  }

  lemma {:induction false} HandedOverPrefix(states: seq<Block>, es: seq<ReadEvent>, states': seq<Block>,
                                            es': seq<ReadEvent>, n: nat)
    requires ReadRun(states, es) && ReadRun(states', es') && states <= states' && es <= es' && n <= |es|
    ensures HandedOver(states', es', n) == HandedOver(states, es, n)
  {
    hide Handle, ReadStep, Throws;
    if n > 0 {
      HandedOverPrefix(states, es, states', es', n - 1);
    }
  }

  /** Two runs one after the other, the second from the last state of the first. */
  ghost predicate IsJoin(states: seq<Block>, es: seq<ReadEvent>, states': seq<Block>, es': seq<ReadEvent>,
                         joined: seq<Block>, all: seq<ReadEvent>)
  {
    |states| == |es| + 1 && |states'| == |es'| + 1 && |all| == |es| + |es'| && |joined| == |all| + 1 &&
    states <= joined && es <= all &&
    (forall k | 0 <= k <= |es'| :: joined[|es| + k] == states'[k]) &&
    forall k | 0 <= k < |es'| :: all[|es| + k] == es'[k]
  }

  /** There is one if the second run starts where the first one ended. */
  lemma JoinIs(states: seq<Block>, es: seq<ReadEvent>, states': seq<Block>, es': seq<ReadEvent>)
    requires |states| == |es| + 1 && |states'| == |es'| + 1 && states[|es|] == states'[0]
    ensures IsJoin(states, es, states', es', states + states'[1..], es + es')
  {
  }

  lemma JoinSize(states: seq<Block>, es: seq<ReadEvent>, states': seq<Block>, es': seq<ReadEvent>,
                 joined: seq<Block>, all: seq<ReadEvent>)
    requires IsJoin(states, es, states', es', joined, all)
    ensures |all| == |es| + |es'|
  {
  }

  lemma JoinIsRun(states: seq<Block>, es: seq<ReadEvent>, states': seq<Block>, es': seq<ReadEvent>,
                  joined: seq<Block>, all: seq<ReadEvent>)
    requires IsJoin(states, es, states', es', joined, all) && ReadRun(states, es) && ReadRun(states', es')
    requires es != [] ==> !Throws(states[|es| - 1], es[|es| - 1])
    ensures ReadRun(joined, all)
  {
    hide ReadStep, Throws;
    var n := |es|;
    forall i | 0 <= i < |joined|
      ensures joined[i].Valid()
    {
      assert joined[i] == if i < n then states[i] else states'[i - n];
    }
    forall i | 0 <= i < |all|
      ensures ReadStep(joined[i], all[i], joined[i + 1])
      ensures i < |all| - 1 ==> !Throws(joined[i], all[i])
    {
      if i < n {
        assert joined[i] == states[i] && joined[i + 1] == states[i + 1] && all[i] == es[i];
        assert ReadStep(states[i], es[i], states[i + 1]);
      } else {
        var k := i - n;
        assert joined[n + k] == states'[k] && joined[n + (k + 1)] == states'[k + 1] && all[n + k] == es'[k];
        assert ReadStep(states'[k], es'[k], states'[k + 1]);
      }
    }
  }

  lemma {:induction false} JoinAddsUp(states: seq<Block>, es: seq<ReadEvent>, states': seq<Block>,
                                      es': seq<ReadEvent>, joined: seq<Block>, all: seq<ReadEvent>, k: nat)
    requires IsJoin(states, es, states', es', joined, all) && k <= |es'|
    requires ReadRun(states, es) && ReadRun(states', es') && ReadRun(joined, all)
    ensures HandedOver(joined, all, |es| + k) == HandedOver(states, es, |es|) + HandedOver(states', es', k)
    ensures Received(all, |es| + k) == Received(es, |es|) + Received(es', k)
  {
    hide ReadStep, Throws, Handle;
    if k == 0 {
      HandedOverPrefix(states, es, joined, all, |es|);
      ReceivedPrefix(es, all, |es|);
      assert HandedOver(states, es, |es|) + [] == HandedOver(states, es, |es|);
      assert Received(es, |es|) + [] == Received(es, |es|);
    } else {
      JoinAddsUp(states, es, states', es', joined, all, k - 1);
      assert all[|es| + (k - 1)] == es'[k - 1] && joined[|es| + (k - 1)] == states'[k - 1];
      var e := es'[k - 1];
      PlusAssoc(HandedOver(states, es, |es|), HandedOver(states', es', k - 1),
                if e.Loop? then Handle(states'[k - 1].Contents()).handed else []);
      PlusAssoc(Received(es, |es|), Received(es', k - 1), if e.Got? then e.bytes else []);
    }
  }

  lemma {:induction false} ReceivedPrefix(es: seq<ReadEvent>, es': seq<ReadEvent>, n: nat)
    requires es <= es' && n <= |es|
    ensures Received(es', n) == Received(es, n)
  {
    if n > 0 {
      ReceivedPrefix(es, es', n - 1);
    }
  }

  /** Successive calls of onRead, none of which throws but the last, are one run, and what they do adds up. */
  lemma RunsJoin(states: seq<Block>, es: seq<ReadEvent>, states': seq<Block>, es': seq<ReadEvent>,
                 joined: seq<Block>, all: seq<ReadEvent>)
    requires ReadRun(states, es) && ReadRun(states', es') && IsJoin(states, es, states', es', joined, all)
    requires es != [] ==> !Throws(states[|es| - 1], es[|es| - 1])
    ensures ReadRun(joined, all)
    ensures HandedOver(joined, all, |all|) == HandedOver(states, es, |es|) + HandedOver(states', es', |es'|)
    ensures Received(all, |all|) == Received(es, |es|) + Received(es', |es'|)
  {
    hide *;
    JoinSize(states, es, states', es', joined, all);
    JoinIsRun(states, es, states', es', joined, all);
    JoinAddsUp(states, es, states', es', joined, all, |es'|);
  }

  /** The reads of one MyClient::onRead: each asks for len bytes, and the last request gets nothing. */
  function Gots(len: nat, inputs: seq<seq<Byte>>): (es: seq<ReadEvent>)
    ensures |es| == |inputs|
    ensures forall i | 0 <= i < |es| :: es[i] == Got(len, inputs[i])
  {
    seq(|inputs|, i requires 0 <= i < |inputs| => Got(len, inputs[i]))
  }

  /** All these reads, and one more request, find room, whatever the memory of a growth holds. */
  ghost predicate Serves(b: Block, len: nat, inputs: seq<seq<Byte>>)
    requires b.Valid()
    decreases |inputs|
  {
    (b.MustGrow(len) ==> b.CanGrow()) && HasRoomFor(b, len) &&
    (inputs == [] ||
     (|inputs[0]| <= len &&
      forall b' | Step(b, Write(len, inputs[0]), b') && b'.Valid() :: Serves(b', len, inputs[1..])))
  }

  lemma {:induction false} OnlyGots(states: seq<Block>, es: seq<ReadEvent>)
    requires ReadRun(states, es) && es != [] && forall i | 0 <= i < |es| :: es[i].Got?
    ensures HandedOver(states, es, |es|) == [] && !Throws(states[|es| - 1], es[|es| - 1])
  {
    NothingHanded(states, es, |es|);
  }

  lemma {:induction false} NothingHanded(states: seq<Block>, es: seq<ReadEvent>, n: nat)
    requires ReadRun(states, es) && n <= |es| && forall i | 0 <= i < |es| :: es[i].Got?
    ensures HandedOver(states, es, n) == []
  {
    if n > 0 {
      NothingHanded(states, es, n - 1);
    }
  }

  lemma RunStarts(b: Block)
    requires b.Valid()
    ensures ReadRun([b], Gots(READ_SIZE, []))
  {
  }

  lemma GotNext(states: seq<Block>, inputs: seq<seq<Byte>>, bytes: seq<Byte>, b': Block)
    requires ReadRun(states, Gots(READ_SIZE, inputs)) && b'.Valid()
    requires Step(states[|inputs|], Write(READ_SIZE, bytes), b')
    ensures ReadRun(states + [b'], Gots(READ_SIZE, inputs + [bytes]))
  {
    hide Step;
    var es := Gots(READ_SIZE, inputs);
    assert Gots(READ_SIZE, inputs + [bytes]) == es + [Got(READ_SIZE, bytes)];
    ReadRunNext(states, es, Got(READ_SIZE, bytes), b');
  }

  lemma LoopNext(states: seq<Block>, es: seq<ReadEvent>, b': Block)
    requires ReadRun(states, es) && es != [] && forall i | 0 <= i < |es| :: es[i].Got?
    requires b'.Valid() && b' == Looped(states[|es|])
    ensures ReadRun(states + [b'], es + [Loop])
    ensures var h := Handle(states[|es|].Contents());
            HandedOver(states + [b'], es + [Loop], |es| + 1) == h.handed &&
            Throws((states + [b'])[|es|], (es + [Loop])[|es|]) == h.threw
  {
    hide Handle, Looped;
    OnlyGots(states, es);
    ReadRunNext(states, es, Loop, b');
    assert [] + Handle(states[|es|].Contents()).handed == Handle(states[|es|].Contents()).handed;
  }

  /** How the read loop of MyClient::onRead ended. */
  datatype ReadEnd = WouldBlock | Failed | Closed

  /** The read side of a client (MyClient) or of a server channel (MyChannel). */
  class PacketSource {
    const readBuf: MySKBuffer

    ghost predicate Valid()
      reads readBuf, readBuf.data
    {
      readBuf.Valid()
    }

    ghost function Contents(): seq<Byte>
      requires Valid()
      reads readBuf, readBuf.data
    {
      readBuf.Contents()
    }

    constructor (capacity: nat)
      requires capacity < U32
      ensures Valid() && fresh(readBuf) && fresh(readBuf.data) && Contents() == []
    {
      readBuf := new MySKBuffer(capacity);
    }

    /** One round of onRead: room for len bytes is asked for and the socket fills in `bytes`. */
    method Receive(len: nat, bytes: seq<Byte>)
      requires Valid() && |bytes| <= len < U32
      requires (readBuf.View().MustGrow(len) ==> readBuf.View().CanGrow()) && HasRoomFor(readBuf.View(), len)
      modifies readBuf, readBuf.data
      ensures Valid() && (readBuf.data == old(readBuf.data) || fresh(readBuf.data))
      ensures Step(old(readBuf.View()), Write(len, bytes), readBuf.View())
      ensures KeepsContents(old(readBuf.View()), len) ==> Contents() == old(Contents()) + bytes
    {
      hide PreparedTo, HasRoomFor, KeepsContents, Step;
      ghost var b := readBuf.View();
      var ptr := readBuf.Writeable(len);
      ghost var m := readBuf.View();
      WrittenVia(b, len, bytes, m);
      readBuf.Store(ptr, bytes);
      readBuf.MoveWriteable(|bytes|);
      assert readBuf.View() == m.Filled(bytes);
    }

    /** fetchPayload and fetchPacket: the next bytes, at most `length`, in a buffer of their own. */
    method Fetch(length: nat) returns (packet: MyIOBuf)
      requires Valid()
      modifies readBuf`readable
      ensures Valid()
      ensures fresh(packet) && fresh(packet.buffer) && fresh(packet.buffer.data) && packet.Valid()
      ensures packet.Contents() == old(Contents())[..old(readBuf.View()).Taken(length)]
      ensures Contents() == old(Contents())[old(readBuf.View()).Taken(length)..]
    {
      var ptr, empty, got := readBuf.GetReadableAndMove(length);
      var bytes := if empty then [] else readBuf.data[ptr..ptr + got];
      packet := CreateFilled(got, bytes);
    }

    method Buffered() returns (s: seq<Byte>)
      requires Valid()
      ensures s == Contents()
    {
      var len := readBuf.GetReadableLength();
      var ptr, empty, got := readBuf.Readable(len);
      s := if empty then [] else readBuf.data[ptr..ptr + got];
    }

    /** The loop of MyProxy::onRead; `packets` are the arguments of handlePacket, in order. */
    method ClientLoop() returns (packets: seq<seq<Byte>>, threw: bool)
      requires Valid()
      modifies readBuf`readable
      ensures Valid() && Handling(packets, Contents(), threw) == Handle(old(Contents()))
      ensures readBuf.View() == Looped(old(readBuf.View()))
    {
      hide Handle;
      HandleConserves(Contents());
      packets, threw := [], false;
      while true
        invariant Valid() && !threw
        invariant Handle(old(Contents())) == Handle(Contents()).After(packets)
        decreases |Contents()|
      {
        var s := Buffered();
        HandleStops(s);
        if s == [] || !IsComplete(s) {
          break;
        }
        var n := PacketLength(s);
        if n == 0 {
          break;
        }
        var bytes, ok := HandlePacket(n);
        if !ok {
          packets, threw := packets + [bytes], true;
          break;
        }
        HandleNext(packets, s);
        packets := packets + [bytes];
      }
    }

    /** fetchPayload, and the first thing that handlePacket does with the packet; false stands for an exception. */
    method HandlePacket(n: nat) returns (packet: seq<Byte>, ok: bool)
      requires Valid() && CutsPacket(Contents()) && n == PacketLength(Contents())
      modifies readBuf`readable
      ensures Valid() && packet == old(Contents())[..n] && Contents() == old(Contents())[n..]
      ensures ok <==> n >= HEAD_LEN
    {
      CutPacketFits(Contents());
      var iobuf := Fetch(n);
      packet := iobuf.Peek();
      var msg := new MyMagicMessage();
      ok := msg.Decode(iobuf);
    }

    /**
     MyProxy::onRead: the reads that MyClient::onRead gets from the socket until one fails, and then, unless the
     failure closes the connection, the loop. It is a run of reads and loops over the block.
     */
    method OnRead(inputs: seq<seq<Byte>>, end: ReadEnd)
      returns (packets: seq<seq<Byte>>, threw: bool, ghost states: seq<Block>)
      requires Valid() && Serves(readBuf.View(), READ_SIZE, inputs)
      modifies readBuf, readBuf.data
      ensures Valid() && (readBuf.data == old(readBuf.data) || fresh(readBuf.data))
      ensures var es := Gots(1024, inputs + [[]]) + if end == WouldBlock then [Loop] else [];
              ReadRun(states, es) && states[0] == old(readBuf.View()) && states[|es|] == readBuf.View() &&
              packets == HandedOver(states, es, |es|) && threw == Throws(states[|es| - 1], es[|es| - 1])
    {
      hide Handle, Looped, HasRoomFor, Throws, ReadRun, HandedOver;
      states := ReadAll(inputs);
      packets, threw := [], false;
      ghost var es := Gots(READ_SIZE, inputs + [[]]);
      OnlyGots(states, es);
      assert es + [] == es;
      if end == WouldBlock {
        packets, threw := ClientLoop();
        LoopNext(states, es, readBuf.View());
        states := states + [readBuf.View()];
      }
    }

    /** The read loop. */
    method ReadAll(inputs: seq<seq<Byte>>) returns (ghost states: seq<Block>)
      requires Valid() && Serves(readBuf.View(), READ_SIZE, inputs)
      modifies readBuf, readBuf.data
      ensures Valid() && (readBuf.data == old(readBuf.data) || fresh(readBuf.data))
      ensures |states| == |inputs| + 2 && ReadRun(states, Gots(READ_SIZE, inputs + [[]]))
      ensures states[0] == old(readBuf.View()) && states[|inputs| + 1] == readBuf.View()
    {
      hide Step, HasRoomFor, HandedOver, ReadRun;
      states := [readBuf.View()];
      RunStarts(readBuf.View());
      for i := 0 to |inputs|
        invariant Valid() && (readBuf.data == old(readBuf.data) || fresh(readBuf.data))
        invariant Serves(readBuf.View(), READ_SIZE, inputs[i..])
        invariant |states| == i + 1 && ReadRun(states, Gots(READ_SIZE, inputs[..i]))
        invariant states[0] == old(readBuf.View()) && states[i] == readBuf.View()
      {
        assert inputs[i..][0] == inputs[i] && inputs[i..][1..] == inputs[i + 1..];
        Receive(READ_SIZE, inputs[i]);
        GotNext(states, inputs[..i], inputs[i], readBuf.View());
        assert inputs[..i] + [inputs[i]] == inputs[..i + 1];
        states := states + [readBuf.View()];
      }
      assert inputs[..|inputs|] == inputs;
      Receive(READ_SIZE, []);
      GotNext(states, inputs, [], readBuf.View());
      states := states + [readBuf.View()];
    }

    /** The loop of MyServant::handlePackets, on the inputs on which it returns. */
    method ServerPackets() returns (packets: seq<seq<Byte>>)
      requires Valid() && !Stalls(Frames(Contents()).residual)
      modifies readBuf`readable
      ensures Valid() && Cut(packets, Contents()) == Frames(old(Contents()))
    {
      hide Frames, Stalls;
      packets := [];
      while true
        invariant Valid() && readBuf.data == old(readBuf.data)
        invariant Frames(old(Contents())) == Frames(Contents()).After(packets)
        decreases |Contents()|
      {
        var s := Buffered();
        FramesStop(s);
        StallsIs(s);
        if s == [] || !IsComplete(s) {
          break;
        }
        // With a length of 0 the channel would be removed here and the loop would go on as before.
        var n := PacketLength(s);
        assert n != 0;
        AfterNext(packets, s);
        var packet := Fetch(n);
        var bytes := packet.Peek();
        packets := packets + [bytes];
      }
    }
  }
}
