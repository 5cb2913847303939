/** Request ids, the clients of a loop with their open sessions, and the choice of loop and client by id. */
module Client {
  import opened Bytes
  import opened Sequences
  import opened Ordering

  // ------------------------------------------------------------------------------------------
  // Ids

  /** (uint32_t)(fd << 16 | servantId) */
  function MakeUid(fd: nat, servantId: nat): (uid: nat)
    requires servantId < 0x1_0000
    ensures uid < U32
  {
    (fd * 0x1_0000 + servantId) % U32
  }

  /** uid & 0xFFFF */
  function ServantOf(uid: nat): nat {
    uid % 0x1_0000
  }

  /** (uint64_t)uid << 32 | now */
  function MakeRequestId(uid: nat, now: nat): nat
    requires now < U32
  {
    uid * U32 % (U32 * U32) + now
  }

  /** (uint32_t)(requestId >> 32) */
  function ClientOf(requestId: nat): nat {
    requestId / U32 % U32
  }

  /** The servant id survives any descriptor; two descriptors give one uid exactly when they agree modulo 2^16. */
  lemma UidParts(fd: nat, other: nat, servantId: nat)
    requires servantId < 0x1_0000
    ensures ServantOf(MakeUid(fd, servantId)) == servantId
    ensures MakeUid(fd, servantId) == MakeUid(other, servantId) <==> fd % 0x1_0000 == other % 0x1_0000
  {
    UidIs(fd, servantId);
    UidIs(other, servantId);
  }

  lemma UidIs(fd: nat, servantId: nat)
    requires servantId < 0x1_0000
    ensures MakeUid(fd, servantId) == fd % 0x1_0000 * 0x1_0000 + servantId
  {
    var q, r := fd / 0x1_0000, fd % 0x1_0000;
    var low := r * 0x1_0000 + servantId;
    assert fd * 0x1_0000 + servantId == q * U32 + low && low < U32;
    Remainder(q, low);
  }

  lemma Remainder(q: nat, low: nat)
    requires low < U32
    ensures (q * U32 + low) % U32 == low && (q * U32 + low) / U32 == q
  {
  }

  /** A request id leads back to the client that made it, for every 32-bit uid and every second. */
  lemma RequestIdNamesClient(uid: nat, now: nat)
    requires uid < U32 && now < U32
    ensures ClientOf(MakeRequestId(uid, now)) == uid && MakeRequestId(uid, now) < U32 * U32
  {
    assert uid * U32 < U32 * U32;
    assert uid * U32 % (U32 * U32) == uid * U32;
    assert (uid * U32 + now) / U32 == uid;
  }

  /** The second is the lower half, so two ids are equal exactly when client and second are. */
  lemma RequestIdsDiffer(uid: nat, now: nat, other: nat, later: nat)
    requires uid < U32 && now < U32 && other < U32 && later < U32
    ensures MakeRequestId(uid, now) % U32 == now && MakeRequestId(uid, now) / U32 == uid
    ensures MakeRequestId(uid, now) == MakeRequestId(other, later) <==> uid == other && now == later
  {
    RequestIdIs(uid, now);
    RequestIdIs(other, later);
  }

  lemma RequestIdIs(uid: nat, now: nat)
    requires uid < U32 && now < U32
    ensures MakeRequestId(uid, now) == uid * U32 + now
    ensures (uid * U32 + now) % U32 == now && (uid * U32 + now) / U32 == uid
  {
    assert uid * U32 < U32 * U32;
    assert uid * U32 % (U32 * U32) == uid * U32;
  }

  // ------------------------------------------------------------------------------------------
  // Sessions, clients, loops

  datatype Session = Session(id: nat, requestId: nat)

  class MyClient {
    const uid: nat
    const host: string
    const port: nat
    var requests: map<nat, Session>

    constructor (uid: nat, host: string, port: nat)
      ensures this.uid == uid && this.host == host && this.port == port && requests == map[]
    {
      this.uid, this.host, this.port := uid, host, port;
      requests := map[];
    }

    method AddSession(s: Session)
      modifies this
      ensures requests == old(requests)[s.requestId := s]
    {
      requests := requests[s.requestId := s];
    }

    method RemoveSession(requestId: nat)
      modifies this
      ensures requests == old(requests) - {requestId}
    {
      requests := requests - {requestId};
    }

    method FindSession(requestId: nat) returns (s: Option<Session>)
      ensures s == if requestId in requests then Some(requests[requestId]) else None
    {
      s := if requestId in requests then Some(requests[requestId]) else None;
    }
  }

  predicate At(c: MyClient, host: string, port: nat) {
    c.host == host && c.port == port
  }

  class ClientLoop {
    var clients: map<nat, MyClient>

    constructor ()
      ensures clients == map[]
    {
      clients := map[];
    }

    method AddClient(c: MyClient)
      modifies this
      ensures clients == old(clients)[c.uid := c]
    {
      clients := clients[c.uid := c];
    }

    method RemoveClient(c: MyClient)
      modifies this
      ensures clients == old(clients) - {c.uid}
    {
      clients := clients - {c.uid};
    }

    method FindClient(uid: nat) returns (c: Option<MyClient>)
      ensures c == if uid in clients then Some(clients[uid]) else None
    {
      c := if uid in clients then Some(clients[uid]) else None;
    }

    /** The first client in uid order that is connected to host and port. */
    method FindAt(host: string, port: nat) returns (c: Option<MyClient>)
      ensures c.None? ==> forall u | u in clients :: !At(clients[u], host, port)
      ensures c.Some? ==> exists u :: u in clients && c.value == clients[u] && At(c.value, host, port) &&
                                      forall v | v in clients && v < u :: !At(clients[v], host, port)
    {
      var ahead := clients.Keys;
      while ahead != {}
        invariant ahead <= clients.Keys
        invariant forall u | u in clients && u !in ahead :: !At(clients[u], host, port)
      {
        FirstExists(ahead);
        var u: nat :| IsFirst(u, ahead);
        if At(clients[u], host, port) {
          return Some(clients[u]);
        }
        ahead := ahead - {u};
      }
      c := None;
    }
  }

  class ClientLoopManager {
    const loops: seq<ClientLoop>

    constructor (loops: seq<ClientLoop>)
      ensures this.loops == loops
    {
      this.loops := loops;
    }

    /** getByServantId(uid & 0xFFFF), which both registration and lookup use. */
    function Home(uid: nat): (l: ClientLoop)
      requires loops != []
    {
      loops[ServantOf(uid) % |loops|]
    }

    ghost predicate Registered(c: MyClient)
      reads loops
    {
      loops != [] && c.uid in Home(c.uid).clients && Home(c.uid).clients[c.uid] == c
    }

    method AddClient(c: MyClient)
      modifies if loops == [] then {} else {Home(c.uid)}
      ensures loops != [] ==> Registered(c)
      ensures loops != [] ==> var l := loops[c.uid % 0x1_0000 % |loops|]; l.clients == old(l.clients)[c.uid := c]
    {
      if loops != [] {
        Home(c.uid).AddClient(c);
      }
    }

    method RemoveClient(c: MyClient)
      modifies if loops == [] then {} else {Home(c.uid)}
      ensures !Registered(c)
      ensures loops != [] ==> var l := loops[c.uid % 0x1_0000 % |loops|]; l.clients == old(l.clients) - {c.uid}
    {
      if loops != [] {
        Home(c.uid).RemoveClient(c);
      }
    }

    ghost function Lookup(uid: nat): Option<MyClient>
      reads loops
    {
      if loops == [] || uid !in Home(uid).clients then None else Some(Home(uid).clients[uid])
    }

    method FindClient(uid: nat) returns (c: Option<MyClient>)
      ensures c == Lookup(uid)
      ensures c == if loops == [] then None
                   else
                     var l := loops[uid % 0x1_0000 % |loops|];
                     if uid in l.clients then Some(l.clients[uid]) else None
    {
      if loops == [] {
        return None;
      }
      c := Home(uid).FindClient(uid);
    }
  }
}
