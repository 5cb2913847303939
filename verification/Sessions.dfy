/** Matching responses to open sessions: the server's echo, the client's lookup, and the life of a session. */
module Sessions {
  import opened Bytes
  import opened Sequences
  import opened IOBuf
  import opened Message
  import opened Framing
  import opened Client

  // ------------------------------------------------------------------------------------------
  // The server's answer

  /** What MyMagicDispatcher::dispatchPacket answers; `handled` is the payload that the handler returned. */
  function Answer(req: Magic, handled: seq<Byte>): Magic {
    if req.flag == FLAG_HEARTBEAT then req.(isRequest := 0)
    else Magic(HEAD_LEN + |handled|, FLAG_DATA, req.version, 0, req.requestId, req.serverNumber, handled)
  }

  /**
   What goes back, byte by byte. A heartbeat is the request with the byte of isRequest cleared. Any other answer is
   read as a data message that is no request, with what the handler returned and with the id, the server number and
   the version of the request.
   */
  lemma AnswerMeaning(s: seq<Byte>, handled: seq<Byte>)
    requires IsCutPacket(s) && |s| >= HEAD_LEN && HEAD_LEN + |handled| < U32
    ensures var req := DecodeBytes(s);
            var m := Answer(req, handled);
            m.WellFormed() && (s[4] == 1 ==> EncodeBytes(m) == s[7 := 0]) &&
            (s[4] != 1 ==> DecodeBytes(EncodeBytes(m))
                           == Magic(20 + |handled|, 0, req.version, 0, req.requestId, req.serverNumber, handled))
  {
    var req := DecodeBytes(s);
    EncodeDecode(s);
    Layout(req);
    DecodeEnds(s);
    MarkedAsAnswer(s);
    hide DecodeBytes, EncodeBytes, FromLE, ToLE, TakeLE, Pow256;
    DecodeEncode(Answer(req, handled));
  }

  lemma CutPacketIs(s: seq<Byte>)
    requires IsCutPacket(s)
    ensures PayloadFits(s)
    ensures |s| >= HEAD_LEN ==> DecodeBytes(s).WellFormed() && HEAD_LEN + |DecodeBytes(s).payload| == |s|
  {
    if |s| >= HEAD_LEN {
      DecodeEnds(s);
    }
  }

  const HANDLE_RESULT_SUCCESS := 0

  class MyMagicDispatcher {
    /**
     Decodes a packet, which throws if it is shorter than the header, and encodes the answer to it. `result` and
     `handled` are what the route handler returned, `needResponse` is what it left in the context.
     */
    method DispatchPacket(request: MyIOBuf, result: int, handled: MyIOBuf?, needResponse: bool)
      returns (threw: bool, rv: int, response: MyIOBuf?)
      requires request.Valid() && IsCutPacket(request.Contents())
      requires handled != null ==> handled.Valid() && handled.buffer != request.buffer
      requires handled != null ==> HEAD_LEN + |handled.Contents()| < U32
      modifies request.buffer`readable
      ensures response != null ==> response.Valid()
      ensures threw <==> |old(request.Contents())| < HEAD_LEN
      ensures threw ==> response == null
      ensures !threw ==>
                var req := DecodeBytes(old(request.Contents()));
                var m := Answer(req, if handled == null then [] else old(handled.Contents()));
                var heartbeat := req.flag == 1;
                rv == (if heartbeat then 0 else result) &&
                (response != null <==> heartbeat || (result == 0 && needResponse)) &&
                (response != null ==> m.WellFormed() && response.Contents() == EncodeBytes(m))
    {
      hide DecodeBytes, EncodeBytes, TakeLE, ToLE, FromLE, Pow256;
      ghost var s := request.Contents();
      CutPacketIs(s);
      hide IsCutPacket, PayloadFits;
      threw, rv, response := false, HANDLE_RESULT_SUCCESS, null;
      var req := new MyMagicMessage();
      var ok := req.Decode(request);
      if !ok {
        threw := true;
        return;
      }
      if req.flag == FLAG_HEARTBEAT {
        req.isRequest := 0;
        response := req.Encode();
        return;
      }
      rv := result;
      if rv == HANDLE_RESULT_SUCCESS && needResponse {
        response := Respond(req.requestId, req.serverNumber, req.version, handled);
      }
    }

    method Respond(requestId: nat, serverNumber: nat, version: nat, handled: MyIOBuf?) returns (response: MyIOBuf)
      requires requestId < U32 * U32 && serverNumber < U32 && version < 0x1_0000
      requires handled != null ==> handled.Valid() && HEAD_LEN + |handled.Contents()| < U32
      ensures response.Valid()
      ensures var bytes := if handled == null then [] else handled.Contents();
              response.Contents()
              == EncodeBytes(Magic(HEAD_LEN + |bytes|, FLAG_DATA, version, 0, requestId, serverNumber, bytes))
    {
      var rsp := new MyMagicMessage();
      rsp.requestId, rsp.serverNumber, rsp.isRequest, rsp.version := requestId, serverNumber, 0, version;
      rsp.flag, rsp.length := FLAG_DATA, HEAD_LEN;
      if handled != null {
        var bytes := handled.Peek();
        rsp.length := HEAD_LEN + |bytes|;
        rsp.payload := handled;
      }
      response := rsp.Encode();
    }
  }

  // ------------------------------------------------------------------------------------------
  // The life of a session, on the loop thread

  datatype Event = Add(s: Session) | Packet(requestId: nat, flag: Byte) | Timer(s: Session)

  /** What a session gets to see: its response handed to the executor, or its own timer. */
  datatype Notice = Succeeded(s: Session) | TimerRan(s: Session)

  datatype State = State(requests: map<nat, Session>, notices: seq<Notice>)

  /** Adding and the timer go by the session's request id, which another session may share. */
  function Step(st: State, e: Event): State {
    match e
    case Add(s) => st.(requests := st.requests[s.requestId := s])
    case Packet(id, flag) =>
      if id !in st.requests then st
      else State(st.requests - {id},
                 st.notices + if flag == FLAG_HEARTBEAT || flag == FLAG_DATA then [Succeeded(st.requests[id])] else [])
    case Timer(s) => State(st.requests - {s.requestId}, st.notices + [TimerRan(s)])
  }

  function After(es: seq<Event>): State {
    if es == [] then State(map[], []) else Step(After(es[..|es| - 1]), es[|es| - 1])
  }

  /** Each session is added once, and its timer is armed by then. */
  ghost predicate Legal(es: seq<Event>) {
    (forall i, j | 0 <= i < j < |es| && es[i].Add? && es[j].Add? :: es[i].s != es[j].s) &&
    forall j | 0 <= j < |es| && es[j].Timer? :: Add(es[j].s) in es[..j]
  }

  /** A success is not repeated and does not follow the timer of the same session. */
  ghost predicate Delivered(notices: seq<Notice>) {
    forall i, j | 0 <= i < j < |notices| && notices[j].Succeeded? :: notices[i].s != notices[j].s
  }

  /** Open sessions sit under their own id, were added, and have no notice yet; every notice is for an added session. */
  ghost predicate Consistent(st: State, es: seq<Event>) {
    (forall id | id in st.requests :: st.requests[id].requestId == id && Add(st.requests[id]) in es) &&
    (forall id | id in st.requests :: forall n | n in st.notices :: n.s != st.requests[id]) &&
    (forall n | n in st.notices :: Add(n.s) in es) &&
    Delivered(st.notices)
  }

  lemma {:induction false} AlwaysConsistent(es: seq<Event>)
    requires Legal(es)
    ensures Consistent(After(es), es)
  {
    if es != [] {
      var n := |es| - 1;
      assert es == es[..n] + [es[n]];
      forall j | 0 <= j < n && es[j].Timer?
        ensures es[..n][..j] == es[..j]
      {
      }
      AlwaysConsistent(es[..n]);
      StepConsistent(After(es[..n]), es[..n], es[n]);
    }
  }

  lemma StepConsistent(st: State, es: seq<Event>, e: Event)
    requires Consistent(st, es)
    requires e.Add? ==> e !in es
    requires e.Timer? ==> Add(e.s) in es
    ensures Consistent(Step(st, e), es + [e])
  {
    assert forall x | x in es :: x in es + [e];
    assert (es + [e])[|es|] == e;
  }

  /**
   In every interleaving of adds, packets and timers, also with shared request ids: each session's success is
   handed on at most once, and never after the session's own timer ran.
   */
  lemma DeliveredOnce(es: seq<Event>)
    requires Legal(es)
    ensures var log := After(es).notices;
            forall i, j | 0 <= i < j < |log| && log[j].Succeeded? :: log[i] != log[j] && log[i] != TimerRan(log[j].s)
  {
    AlwaysConsistent(es);
  }

  function IdOf(e: Event): nat {
    if e.Packet? then e.requestId else e.s.requestId
  }

  /** The session that the events so far leave under an id: that of the last event with this id, if it is an Add. */
  function Holder(es: seq<Event>, id: nat): Option<Session> {
    if es == [] then None
    else
      var e := es[|es| - 1];
      if IdOf(e) != id then Holder(es[..|es| - 1], id) else if e.Add? then Some(e.s) else None
  }

  lemma {:induction false} HolderIsOpen(es: seq<Event>, id: nat)
    ensures Holder(es, id) == if id in After(es).requests then Some(After(es).requests[id]) else None
  {
    if es != [] {
      HolderIsOpen(es[..|es| - 1], id);
    }
  }

  /** The packet at i hands a success on to s. */
  ghost predicate HandsOn(es: seq<Event>, i: nat, s: Session)
    requires i < |es|
  {
    es[i].Packet? && (es[i].flag == 0 || es[i].flag == 1) && Holder(es[..i], es[i].requestId) == Some(s)
  }

  lemma HandsOnNext(init: seq<Event>, e: Event, s: Session)
    ensures (exists i :: 0 <= i < |init| + 1 && HandsOn(init + [e], i, s)) <==>
            (exists i :: 0 <= i < |init| && HandsOn(init, i, s)) || HandsOn(init + [e], |init|, s)
  {
    forall i | 0 <= i < |init|
      ensures HandsOn(init + [e], i, s) <==> HandsOn(init, i, s)
    {
      assert (init + [e])[..i] == init[..i];
    }
  }

  lemma {:induction false} SuccessIff(es: seq<Event>, s: Session)
    ensures Succeeded(s) in After(es).notices <==> exists i :: 0 <= i < |es| && HandsOn(es, i, s)
  {
    if es != [] {
      var n := |es| - 1;
      var init, e := es[..n], es[n];
      assert es == init + [e];
      SuccessIff(init, s);
      HandsOnNext(init, e, s);
      HolderIsOpen(init, if e.Packet? then e.requestId else 0);
      hide Holder, After;
      assert After(es) == Step(After(init), e) by { AfterNext(init, e); }
      assert Succeeded(s) in Step(After(init), e).notices <==>
             Succeeded(s) in After(init).notices || HandsOn(es, n, s);
    }
  }

  lemma AfterNext(init: seq<Event>, e: Event)
    ensures After(init + [e]) == Step(After(init), e)
  {
    assert (init + [e])[..|init|] == init;
  }

  lemma {:induction false} TimerIff(es: seq<Event>, s: Session)
    ensures TimerRan(s) in After(es).notices <==> Timer(s) in es
  {
    if es != [] {
      var n := |es| - 1;
      assert es == es[..n] + [es[n]];
      TimerIff(es[..n], s);
    }
  }

  /**
   Exactly when a session's success is handed on: some packet with its request id found it, as the holder of the id
   at that time, and was a heartbeat or a data message. Its own timer leaves its notice in every case.
   */
  lemma NoticesIff(es: seq<Event>, s: Session)
    ensures Succeeded(s) in After(es).notices <==>
            exists i :: 0 <= i < |es| && es[i].Packet? && (es[i].flag == 0 || es[i].flag == 1) &&
                        Holder(es[..i], es[i].requestId) == Some(s)
    ensures TimerRan(s) in After(es).notices <==> Timer(s) in es
  {
    SuccessIff(es, s);
    TimerIff(es, s);
    hide After, Holder;
    assert forall i | 0 <= i < |es| :: HandsOn(es, i, s) <==>
      es[i].Packet? && (es[i].flag == 0 || es[i].flag == 1) && Holder(es[..i], es[i].requestId) == Some(s);
  }

  /**
   A session can still be found by a response if and only if no event with its request id came after its Add:
   no other session of the same client and second, no response, no timer of such a session.
   */
  lemma {:induction false} FoundIff(before: seq<Event>, s: Session, later: seq<Event>)
    requires Legal(before + [Add(s)] + later)
    ensures var st := After(before + [Add(s)] + later);
            s.requestId in st.requests && st.requests[s.requestId] == s
            <==> forall e | e in later :: IdOf(e) != s.requestId
    decreases |later|
  {
    var es := before + [Add(s)] + later;
    HolderIsOpen(es, s.requestId);
    if later == [] {
      assert es == before + [Add(s)];
    } else {
      var n, e := |later| - 1, later[|later| - 1];
      var init := before + [Add(s)] + later[..n];
      assert es[..|es| - 1] == init && es[|es| - 1] == e && later == later[..n] + [e];
      if IdOf(e) != s.requestId {
        LegalPrefix(es);
        FoundIff(before, s, later[..n]);
        HolderIsOpen(init, s.requestId);
      } else if e.Add? {
        assert es[|before|] == Add(s);
      }
    }
  }

  /** Two sessions of one client in one second: a response to the first selects the second. */
  lemma SharedIdHidesSession(uid: nat, now: nat)
    requires uid < U32 && now < U32
    ensures var id := MakeRequestId(uid, now);
            var s, other := Session(1, id), Session(2, id);
            Legal([Add(s), Add(other)]) && After([Add(s), Add(other)]).requests == map[id := other] &&
            After([Add(s), Add(other), Packet(id, FLAG_DATA)]).notices == [Succeeded(other)]
  {
    var id := MakeRequestId(uid, now);
    var s, other := Session(1, id), Session(2, id);
    var two := [Add(s), Add(other)];
    assert two[..1] == [Add(s)] && [Add(s)][..0] == [];
    assert After([Add(s)]) == State(map[id := s], []);
    assert After(two) == State(map[id := other], []);
    var three := two + [Packet(id, FLAG_DATA)];
    assert three == [Add(s), Add(other), Packet(id, FLAG_DATA)] && three[..2] == two;
    assert [] + [Succeeded(other)] == [Succeeded(other)];
  }

  lemma LegalPrefix(es: seq<Event>)
    requires Legal(es) && es != []
    ensures Legal(es[..|es| - 1])
  {
    var init := es[..|es| - 1];
    forall j | 0 <= j < |init| && init[j].Timer?
      ensures Add(init[j].s) in init[..j]
    {
      assert init[..j] == es[..j] && init[j] == es[j];
    }
  }

  // ------------------------------------------------------------------------------------------
  // The client's lookup

  datatype Outcome = Threw | NoClient | NoSession | Ignored(s: Session) | Success(s: Session)

  /** The clients that the packet can concern: the one that its request id names, if it has an id at all. */
  ghost function Concerned(mgr: ClientLoopManager, packet: seq<Byte>): set<MyClient>
    reads mgr.loops
  {
    if |packet| < HEAD_LEN then {}
    else match mgr.Lookup(ClientOf(DecodeBytes(packet).requestId)) case None => {} case Some(c) => {c}
  }

  /**
   ServantProxy::handlePacket: the session leaves its map, and only heartbeat and data answers reach it. A packet
   without a whole header ends in an exception before anything changed.
   */
  method HandlePacket(mgr: ClientLoopManager, packet: MyIOBuf) returns (o: Outcome)
    requires packet.Valid() && PayloadFits(packet.Contents())
    modifies packet.buffer`readable, Concerned(mgr, packet.Contents())
    ensures o == Threw <==> |old(packet.Contents())| < HEAD_LEN
    ensures o != Threw ==>
              var m := DecodeBytes(old(packet.Contents()));
              match old(mgr.Lookup(ClientOf(m.requestId)))
              case None => o == NoClient
              case Some(c) =>
                State(c.requests, if o.Success? then [Succeeded(o.s)] else [])
                == Step(State(old(c.requests), []), Packet(m.requestId, m.flag)) &&
                (o == NoSession <==> m.requestId !in old(c.requests)) &&
                o != NoClient && (o.Ignored? ==> o.s == old(c.requests)[m.requestId])
  {
    hide TakeLE, FromLE, ToLE, Pow256, PayloadFits;
    var msg := new MyMagicMessage();
    var ok := msg.Decode(packet);
    if !ok {
      return Threw;
    }
    var client := mgr.FindClient(ClientOf(msg.requestId));
    if client.None? {
      return NoClient;
    }
    var session := client.value.FindSession(msg.requestId);
    if session.None? {
      assert client.value.requests - {msg.requestId} == client.value.requests;
      return NoSession;
    }
    client.value.RemoveSession(msg.requestId);
    o := if msg.flag == FLAG_HEARTBEAT || msg.flag == FLAG_DATA then Success(session.value) else Ignored(session.value);
  }

  /**
   Opening a session: made for this second, and put into the client's map. Without a client it is made all the
   same, under whatever id its memory holds, and belongs to nobody; without an encoded payload there is none.
   */
  method OpenSession(c: MyClient?, id: nat, now: nat, unset: nat, encoded: bool) returns (s: Option<Session>)
    requires now < U32
    modifies if c == null then {} else {c}
    ensures s == if c == null then Some(Session(id, unset))
                 else if encoded then Some(Session(id, MakeRequestId(c.uid, now))) else None
    ensures c != null && encoded && c.uid < U32 ==>
              s.value.requestId / 0x1_0000_0000 == c.uid && s.value.requestId % 0x1_0000_0000 == now
    ensures c != null ==>
              c.requests == if s.Some? then Step(State(old(c.requests), []), Add(s.value)).requests
                            else old(c.requests)
  {
    var session := Session(id, if c == null then unset else MakeRequestId(c.uid, now));
    if c != null && c.uid < U32 {
      RequestIdsDiffer(c.uid, now, c.uid, now);
    }
    if c == null {
      return Some(session);
    }
    if !encoded {
      return None;
    }
    c.AddSession(session);
    s := Some(session);
  }

  /**
   The timer that whenSessionTimeout starts: the session's own action if the session still exists, and then its id
   leaves the map of the client, if that still exists.
   */
  method OnSessionTimer(c: MyClient?, s: Session, alive: bool) returns (notices: seq<Notice>)
    modifies if c == null then {} else {c}
    ensures notices == if alive then [TimerRan(s)] else []
    ensures c != null ==> c.requests == Step(State(old(c.requests), []), Timer(s)).requests
  {
    notices := if alive then [TimerRan(s)] else [];
    if c != null {
      c.RemoveSession(s.requestId);
    }
  }

  /** The request that a session sends; a heartbeat has no payload. */
  function RequestOf(s: Session, flag: Byte, payload: seq<Byte>): Magic {
    Magic(HEAD_LEN + |payload|, flag, 1, 1, s.requestId, 0, payload)
  }

  /** Its fields: the whole length, version 1, marked as request, server number 0; `Layout` says where they go. */
  lemma RequestFields(s: Session, flag: Byte, payload: seq<Byte>)
    requires s.requestId < U32 * U32 && HEAD_LEN + |payload| < U32
    ensures var m := RequestOf(s, flag, payload);
            m.WellFormed() && m.length == 20 + |payload| && m.flag == flag && m.version == 1 && m.isRequest == 1 &&
            m.requestId == s.requestId && m.serverNumber == 0 && m.payload == payload
  {
  }

  /**
   A session that some second made for a registered client with a 32-bit uid, and that is still in that
   client's map: its request, heartbeat or data, cut from the stream by the server, answered, and cut from the
   stream by the client, selects this client and this session.
   */
  lemma AnswerFindsSession(mgr: ClientLoopManager, c: MyClient, s: Session, now: nat, flag: Byte,
                           payload: seq<Byte>, handled: seq<Byte>)
    requires mgr.Registered(c) && c.uid < U32 && now < U32 && s.requestId == MakeRequestId(c.uid, now)
    requires s.requestId in c.requests && c.requests[s.requestId] == s
    requires HEAD_LEN + |payload| < U32 && HEAD_LEN + |handled| < U32
    ensures var req := RequestOf(s, flag, payload);
            req.WellFormed() && Frames(EncodeBytes(req)) == Cut([EncodeBytes(req)], []) &&
            var rsp := Answer(DecodeBytes(EncodeBytes(req)), handled);
            rsp.WellFormed() && Frames(EncodeBytes(rsp)) == Cut([EncodeBytes(rsp)], []) &&
            var id := DecodeBytes(EncodeBytes(rsp)).requestId;
            mgr.Lookup(ClientOf(id)) == Some(c) && id in c.requests && c.requests[id] == s
  {
    RequestIdNamesClient(c.uid, now);
    var req := RequestOf(s, flag, payload);
    DecodeEncode(req);
    OneFrame(req);
    var rsp := Answer(req, handled);
    DecodeEncode(rsp);
    OneFrame(rsp);
  }

  lemma OneFrame(m: Magic)
    requires m.WellFormed()
    ensures Frames(EncodeBytes(m)) == Cut([EncodeBytes(m)], [])
  {
    EncodedIsFrame(m);
    FramesOfFrames([EncodeBytes(m)], []);
    assert Concat([EncodeBytes(m)]) + [] == EncodeBytes(m);
  }
}
