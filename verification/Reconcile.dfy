/**
 ServantProxy::initialize: bringing the clients of a servant in line with a changed configuration. Old clients are
 looked for in one loop, new ones are added to another; `Update` says what that does to the tables of the loops.
 */
module Reconcile {
  import opened Bytes
  import opened Ordering
  import opened Client
  import opened Sequences

  const TYPE_TCP := 0
  const TYPE_UDP := 1

  datatype Config = Config(host: string, port: nat, clientType: int) {
    predicate Known() {
      clientType == TYPE_TCP || clientType == TYPE_UDP
    }

    function Target(): Address {
      (host, port)
    }
  }

  type Address = (string, nat)

  /** The clients of a loop: uid and address. */
  type Table = map<nat, Address>

  function Wanted(configs: seq<Config>): set<Address> {
    set i | 0 <= i < |configs| :: configs[i].Target()
  }

  function Creatable(configs: seq<Config>): set<Address> {
    set i | 0 <= i < |configs| && configs[i].Known() :: configs[i].Target()
  }

  /** Uids of the sockets that a run opens, one per new client: new to the loop and all different. */
  predicate FreshUids(uids: seq<nat>, t: Table, n: nat) {
    |uids| >= n && (forall i | 0 <= i < n :: uids[i] !in t) && forall i, j | 0 <= i < j < n :: uids[i] != uids[j]
  }

  // ------------------------------------------------------------------------------------------
  // The update of the tables

  function Kept(t: Table, configs: seq<Config>): Table {
    map u | u in t && t[u] in Wanted(configs) :: t[u]
  }

  /** The second half, entry by entry: looked up in loop i, added to loop j under the next uid. */
  function AddEach(tables: seq<Table>, i: nat, j: nat, configs: seq<Config>, uids: seq<nat>): (r: seq<Table>)
    requires i < |tables| && j < |tables| && |uids| >= |configs|
    ensures |r| == |tables| && forall k | 0 <= k < |r| && k != j :: r[k] == tables[k]
    decreases |configs|
  {
    if configs == [] then tables
    else if configs[0].Known() && configs[0].Target() !in tables[i].Values then
      AddEach(tables[j := tables[j][uids[0] := configs[0].Target()]], i, j, configs[1..], uids[1..])
    else AddEach(tables, i, j, configs[1..], uids)
  }

  /** initialize, with loop i the one for the servant id and loop j the one for the ids of its clients. */
  function Update(tables: seq<Table>, i: nat, j: nat, configs: seq<Config>, uids: seq<nat>): (r: seq<Table>)
    requires i < |tables| && j < |tables| && |uids| >= |configs|
    ensures |r| == |tables|
  {
    AddEach(tables[i := Kept(tables[i], configs)], i, j, configs, uids)
  }

  /** A client whose uid was not there before shares its address with no other. */
  ghost predicate NewOnesAlone(before: Table, t: Table) {
    forall u, v | u in t && u !in before && v in t && u != v :: t[u] != t[v]
  }

  lemma PutValues(t: Table, u: nat, a: Address)
    requires u !in t
    ensures t[u := a].Values == t.Values + {a}
  {
    var t' := t[u := a];
    assert u in t' && forall v | v in t :: t'[v] == t[v];
    forall x | x in t.Values + {a}
      ensures x in t'.Values
    {
      if x in t.Values {
        var v :| v in t && t[v] == x;
        assert v in t' && t'[v] == x;
      } else {
        assert t'[u] == x;
      }
    }
  }

  lemma KeptValues(t: Table, configs: seq<Config>)
    ensures Kept(t, configs).Values == t.Values * Wanted(configs)
  {
    forall a | a in t.Values * Wanted(configs)
      ensures a in Kept(t, configs).Values
    {
      var u :| u in t && t[u] == a;
      assert u in Kept(t, configs) && Kept(t, configs)[u] == a;
    }
  }

  lemma CreatableSplit(configs: seq<Config>)
    requires configs != []
    ensures Creatable(configs) == (if configs[0].Known() then {configs[0].Target()} else {}) + Creatable(configs[1..])
  {
    var rest := configs[1..];
    forall a | a in Creatable(rest)
      ensures a in Creatable(configs)
    {
      var k :| 0 <= k < |rest| && rest[k].Known() && a == rest[k].Target();
      assert configs[k + 1] == rest[k];
    }
    forall a | a in Creatable(configs)
      ensures a in (if configs[0].Known() then {configs[0].Target()} else {}) + Creatable(rest)
    {
      var k :| 0 <= k < |configs| && configs[k].Known() && a == configs[k].Target();
      assert k > 0 ==> configs[k] == rest[k - 1];
    }
  }

  /** What one entry does to the only loop involved. */
  lemma PutAlone(before: Table, t: Table, u: nat, a: Address)
    requires u !in t && u !in before && a !in t.Values && NewOnesAlone(before, t)
    ensures NewOnesAlone(before, t[u := a])
  {
    var t' := t[u := a];
    forall v, w | v in t' && v !in before && w in t' && v != w
      ensures t'[v] != t'[w]
    {
      assert v != u ==> t'[v] in t.Values;
      assert w != u ==> t'[w] in t.Values;
    }
  }

  lemma {:induction false} AddEachToItself(before: Table, tables: seq<Table>, i: nat, configs: seq<Config>,
                                           uids: seq<nat>)
    requires i < |tables| && |uids| >= |configs| && before.Keys <= tables[i].Keys && NewOnesAlone(before, tables[i])
    requires FreshUids(uids, tables[i], |configs|)
    ensures var t := AddEach(tables, i, i, configs, uids)[i];
            t.Values == tables[i].Values + Creatable(configs) && NewOnesAlone(before, t) &&
            forall u | u in tables[i] :: u in t && t[u] == tables[i][u]
    decreases |configs|
  {
    if configs != [] {
      CreatableSplit(configs);
      var a := configs[0].Target();
      if configs[0].Known() && a !in tables[i].Values {
        PutValues(tables[i], uids[0], a);
        PutAlone(before, tables[i], uids[0], a);
        assert forall n | 0 <= n < |configs| - 1 :: uids[1..][n] == uids[n + 1];
        AddEachToItself(before, tables[i := tables[i][uids[0] := a]], i, configs[1..], uids[1..]);
      } else {
        AddEachToItself(before, tables, i, configs[1..], uids);
      }
    }
  }

  /**
   One loop for both: afterwards its addresses are the wanted ones that it already had and those it can create.
   Clients at a wanted address stay, all others go, and a new client shares its address with no other, however
   often the address is configured.
   */
  lemma SameLoopResult(tables: seq<Table>, i: nat, configs: seq<Config>, uids: seq<nat>)
    requires i < |tables| && FreshUids(uids, tables[i], |configs|)
    ensures var before, t := tables[i], Update(tables, i, i, configs, uids)[i];
            t.Values == (before.Values * Wanted(configs)) + Creatable(configs) &&
            (forall u | u in before :: u in t <==> before[u] in Wanted(configs)) &&
            (forall u | u in before && u in t :: t[u] == before[u]) &&
            NewOnesAlone(before, t)
  {
    var kept := Kept(tables[i], configs);
    KeptValues(tables[i], configs);
    AddEachToItself(kept, tables[i := kept], i, configs, uids);
    AddedUnderUids(tables[i := kept], i, i, configs, uids);
  }

  /** Whatever is new in loop j has one of the given uids. */
  lemma {:induction false} AddedUnderUids(tables: seq<Table>, i: nat, j: nat, configs: seq<Config>, uids: seq<nat>)
    requires i < |tables| && j < |tables| && |uids| >= |configs|
    ensures forall u | u in AddEach(tables, i, j, configs, uids)[j] && u !in tables[j] :: u in uids[..|configs|]
    decreases |configs|
  {
    if configs != [] {
      var rest := configs[1..];
      assert forall u | u in uids[1..][..|rest|] :: u in uids[..|configs|];
      assert forall u | u in uids[..|rest|] :: u in uids[..|configs|];
      if configs[0].Known() && configs[0].Target() !in tables[i].Values {
        AddedUnderUids(tables[j := tables[j][uids[0] := configs[0].Target()]], i, j, rest, uids[1..]);
        assert uids[0] in uids[..|configs|];
      } else {
        AddedUnderUids(tables, i, j, rest, uids);
      }
    }
  }

  /**
   The same address by address, with the types spelled out: one is there afterwards exactly if it is configured, and
   was there already or is of a tcp or udp entry. So if all entries are of these types it is exactly the configured
   ones, and an entry of any other type adds none.
   */
  lemma SameLoopAddresses(tables: seq<Table>, i: nat, configs: seq<Config>, uids: seq<nat>, a: Address)
    requires i < |tables| && FreshUids(uids, tables[i], |configs|)
    ensures a in Update(tables, i, i, configs, uids)[i].Values <==>
            exists k :: 0 <= k < |configs| && (configs[k].host, configs[k].port) == a &&
                        (a in tables[i].Values || configs[k].clientType == 0 || configs[k].clientType == 1)
  {
    SameLoopResult(tables, i, configs, uids);
    var t := Update(tables, i, i, configs, uids)[i];
    hide Update, FreshUids, NewOnesAlone;
    if a in t.Values {
      if a in Creatable(configs) {
        var k :| 0 <= k < |configs| && configs[k].Known() && a == configs[k].Target();
        assert (configs[k].host, configs[k].port) == a;
      } else {
        var k :| 0 <= k < |configs| && a == configs[k].Target();
        assert (configs[k].host, configs[k].port) == a;
      }
    }
    if k :| 0 <= k < |configs| && (configs[k].host, configs[k].port) == a &&
            (a in tables[i].Values || configs[k].clientType == 0 || configs[k].clientType == 1) {
      assert configs[k].Target() == a;
      assert a in Wanted(configs) && (a in tables[i].Values || a in Creatable(configs));
    }
  }

  // ------------------------------------------------------------------------------------------
  // Two loops

  /** The known entries whose address is not present, in order and as often as they are configured. */
  function Lacking(configs: seq<Config>, present: set<Address>): seq<Address> {
    if configs == [] then []
    else
      (if configs[0].Known() && configs[0].Target() !in present then [configs[0].Target()] else [])
      + Lacking(configs[1..], present)
  }

  /** One client more for each address, under the next uid. */
  function Joined(t: Table, uids: seq<nat>, targets: seq<Address>): Table
    requires |uids| >= |targets|
    decreases |targets|
  {
    if targets == [] then t else Joined(t[uids[0] := targets[0]], uids[1..], targets[1..])
  }

  lemma {:induction false} LackingSize(configs: seq<Config>, present: set<Address>)
    ensures |Lacking(configs, present)| <= |configs|
    ensures forall a | a in Lacking(configs, present) :: a in Creatable(configs) && a !in present
  {
    if configs != [] {
      LackingSize(configs[1..], present);
      CreatableSplit(configs);
    }
  }

  /** The entries of tcp and udp clients with this address, if it is not present. */
  ghost function Entries(configs: seq<Config>, present: set<Address>, a: Address): set<int> {
    set k | 0 <= k < |configs| && (configs[k].host, configs[k].port) == a && a !in present &&
            (configs[k].clientType == 0 || configs[k].clientType == 1)
  }

  lemma EntriesNext(configs: seq<Config>, present: set<Address>, a: Address)
    requires configs != []
    ensures |Entries(configs, present, a)| == |Entries(configs[1..], present, a)| +
            if configs[0].Known() && configs[0].Target() == a && a !in present then 1 else 0
  {
    var here, later := Entries(configs, present, a), Entries(configs[1..], present, a);
    var first := configs[0].Known() && configs[0].Target() == a && a !in present;
    assert forall k | 0 < k < |configs| :: configs[k] == configs[1..][k - 1];
    assert forall k | 0 <= k < |configs| - 1 :: configs[1..][k] == configs[k + 1];
    AtMostShifted(here, later, first);
    AtLeastShifted(here, later, first);
  }

  /** How often an address is lacking: once for each such entry. */
  lemma {:induction false} LackingCount(configs: seq<Config>, present: set<Address>, a: Address)
    ensures multiset(Lacking(configs, present))[a] == |Entries(configs, present, a)|
    ensures forall k :: k in Entries(configs, present, a) <==>
              0 <= k < |configs| && (configs[k].host, configs[k].port) == a && a !in present &&
              (configs[k].clientType == 0 || configs[k].clientType == 1)
  {
    if configs == [] {
      assert Entries(configs, present, a) == {};
    } else {
      LackingCount(configs[1..], present, a);
      LackingNext(configs, present, a);
      EntriesNext(configs, present, a);
    }
  }

  lemma LackingNext(configs: seq<Config>, present: set<Address>, a: Address)
    requires configs != []
    ensures multiset(Lacking(configs, present))[a] == multiset(Lacking(configs[1..], present))[a] +
            if configs[0].Known() && configs[0].Target() == a && a !in present then 1 else 0
  {
  }

  lemma {:induction false} JoinedMeaning(t: Table, uids: seq<nat>, targets: seq<Address>)
    requires FreshUids(uids, t, |targets|)
    ensures |Joined(t, uids, targets)| == |t| + |targets|
    ensures forall u | u in t :: u in Joined(t, uids, targets) && Joined(t, uids, targets)[u] == t[u]
    ensures forall n | 0 <= n < |targets| ::
              uids[n] in Joined(t, uids, targets) && Joined(t, uids, targets)[uids[n]] == targets[n]
    decreases |targets|
  {
    if targets != [] {
      var t' := t[uids[0] := targets[0]];
      var rest, later := uids[1..], targets[1..];
      assert forall n | 0 <= n < |later| :: rest[n] == uids[n + 1] && later[n] == targets[n + 1];
      assert t'.Keys == t.Keys + {uids[0]} && |t'.Keys| == |t'| && |t.Keys| == |t|;
      JoinedMeaning(t', rest, later);
      forall n | 0 <= n < |targets|
        ensures uids[n] in Joined(t', rest, later) && Joined(t', rest, later)[uids[n]] == targets[n]
      {
        if n == 0 {
          assert uids[0] in t';
        } else {
          assert uids[n] == rest[n - 1] && targets[n] == later[n - 1];
        }
      }
    }
  }

  lemma {:induction false} AddEachToOther(tables: seq<Table>, i: nat, j: nat, configs: seq<Config>, uids: seq<nat>)
    requires i < |tables| && j < |tables| && i != j && |uids| >= |configs|
    ensures var targets := Lacking(configs, tables[i].Values);
            |targets| <= |uids| && AddEach(tables, i, j, configs, uids) == tables[j := Joined(tables[j], uids, targets)]
    decreases |configs|
  {
    LackingSize(configs, tables[i].Values);
    if configs == [] {
      assert tables[j := tables[j]] == tables;
    } else if configs[0].Known() && configs[0].Target() !in tables[i].Values {
      var t' := tables[j][uids[0] := configs[0].Target()];
      AddEachToOther(tables[j := t'], i, j, configs[1..], uids[1..]);
      var later := Lacking(configs[1..], tables[i].Values);
      assert Lacking(configs, tables[i].Values) == [configs[0].Target()] + later;
      assert tables[j := t'][j := Joined(t', uids[1..], later)] == tables[j := Joined(t', uids[1..], later)];
    } else {
      AddEachToOther(tables, i, j, configs[1..], uids);
      assert [] + Lacking(configs[1..], tables[i].Values) == Lacking(configs[1..], tables[i].Values);
    }
  }

  /**
   Two different loops: the one that is searched ends up with its clients at wanted addresses and no new one; the
   other one gets a client for every known entry whose address the searched loop does not have, whatever it has
   itself, and one for each time an address is configured. A second update with the same configuration creates all
   of them once more.
   */
  lemma OtherLoopResult(tables: seq<Table>, i: nat, j: nat, configs: seq<Config>, uids: seq<nat>, more: seq<nat>)
    requires i < |tables| && j < |tables| && i != j && |uids| >= |configs| && |more| >= |configs|
    ensures var kept := Kept(tables[i], configs);
            var targets := Lacking(configs, kept.Values);
            var once := Update(tables, i, j, configs, uids);
            |targets| <= |configs| &&
            once == tables[i := kept][j := Joined(tables[j], uids, targets)] &&
            Update(once, i, j, configs, more) == once[j := Joined(once[j], more, targets)]
  {
    var kept := Kept(tables[i], configs);
    LackingSize(configs, kept.Values);
    AddEachToOther(tables[i := kept], i, j, configs, uids);
    var once := Update(tables, i, j, configs, uids);
    assert Kept(kept, configs) == kept && once[i := kept] == once;
    AddEachToOther(once, i, j, configs, more);
  }

  /** With two loops the result of SameLoopResult holds exactly when there was nothing to create. */
  lemma OtherLoopResultIff(tables: seq<Table>, i: nat, j: nat, configs: seq<Config>, uids: seq<nat>)
    requires i < |tables| && j < |tables| && i != j && |uids| >= |configs|
    ensures Update(tables, i, j, configs, uids)[i].Values == (tables[i].Values * Wanted(configs)) + Creatable(configs)
       <==> Creatable(configs) <= tables[i].Values
  {
    OtherLoopResult(tables, i, j, configs, uids, uids);
    KeptValues(tables[i], configs);
    CreatableIsWanted(configs);
  }

  lemma CreatableIsWanted(configs: seq<Config>)
    ensures Creatable(configs) <= Wanted(configs)
  {
  }

  // ------------------------------------------------------------------------------------------
  // Which loops they are

  /** The loop in which initialize looks for old clients. */
  function ScannedLoop(hash: nat, loops: nat): (i: nat)
    requires loops > 0
    ensures i < loops
  {
    hash % U32 % loops
  }

  /** The loop to which addClient adds new ones. */
  function HomeLoop(hash: nat, fd: nat, loops: nat): (j: nat)
    requires loops > 0
    ensures j < loops
  {
    ServantOf(MakeUid(fd, hash % 0xFFF)) % loops
  }

  /** Both as remainders; the second is the loop that a lookup of the client's uid goes to. */
  lemma LoopsAre(hash: nat, fd: nat, mgr: ClientLoopManager)
    requires mgr.loops != []
    ensures ScannedLoop(hash, |mgr.loops|) == hash % 0x1_0000_0000 % |mgr.loops|
    ensures HomeLoop(hash, fd, |mgr.loops|) == hash % 0xFFF % |mgr.loops|
    ensures mgr.Home(MakeUid(fd, hash % 0xFFF)) == mgr.loops[hash % 0xFFF % |mgr.loops|]
  {
    UidParts(fd, fd, hash % 0xFFF);
  }

  /** The update does what it should for the loops of this servant name, whatever they hold and is configured. */
  ghost predicate AlwaysReconciles(hash: nat, fd: nat, loops: nat)
    requires loops > 0
  {
    var i, j := ScannedLoop(hash, loops), HomeLoop(hash, fd, loops);
    forall tables: seq<Table>, configs: seq<Config>, uids: seq<nat> |
        |tables| == loops && FreshUids(uids, tables[j], |configs|) ::
      Update(tables, i, j, configs, uids)[i].Values == (tables[i].Values * Wanted(configs)) + Creatable(configs)
  }

  /**
   For any number of loops and any servant name: every update of every configuration leaves the configured
   addresses in the loop that is searched, if and only if the two remainders of the name's hash pick the same loop.
   They always do with one loop; with two, a hash of 0xFFF is one for which they do not.
   */
  lemma {:induction false} ReconcilesIff(hash: nat, fd: nat, loops: nat)
    requires loops > 0
    ensures AlwaysReconciles(hash, fd, loops) <==> hash % U32 % loops == hash % 0xFFF % loops
    ensures AlwaysReconciles(hash, fd, 1) && !AlwaysReconciles(0xFFF, fd, 2)
  {
    ReconcilesIffSame(hash, fd, loops);
    ReconcilesIffSame(hash, fd, 1);
    ReconcilesIffSame(0xFFF, fd, 2);
    UidParts(fd, fd, hash % 0xFFF);
    UidParts(fd, fd, 0);
  }

  lemma ReconcilesIffSame(hash: nat, fd: nat, loops: nat)
    requires loops > 0
    ensures AlwaysReconciles(hash, fd, loops) <==> ScannedLoop(hash, loops) == HomeLoop(hash, fd, loops)
  {
    var i, j := ScannedLoop(hash, loops), HomeLoop(hash, fd, loops);
    if i == j {
      forall tables: seq<Table>, configs: seq<Config>, uids: seq<nat> |
          |tables| == loops && FreshUids(uids, tables[j], |configs|)
        ensures Update(tables, i, j, configs, uids)[i].Values
             == (tables[i].Values * Wanted(configs)) + Creatable(configs)
      {
        SameLoopResult(tables, i, configs, uids);
      }
    } else {
      var tables: seq<Table>, configs, uids := seq(loops, _ => map[]), [Config("", 0, TYPE_TCP)], [0];
      OtherLoopResultIff(tables, i, j, configs, uids);
      assert configs[0].Target() in Creatable(configs);
      assert tables[i].Values == {} && FreshUids(uids, tables[j], 1);
    }
  }

  /** With tcp and udp entries only, the loop of SameLoopResult ends up with exactly the configured addresses. */
  lemma AllKnownMeansConfigured(configs: seq<Config>, earlier: set<Address>)
    requires forall i | 0 <= i < |configs| :: configs[i].clientType == TYPE_TCP || configs[i].clientType == TYPE_UDP
    ensures earlier * Wanted(configs) + Creatable(configs) == Wanted(configs)
  {
    forall a | a in Wanted(configs)
      ensures a in Creatable(configs)
    {
      var i :| 0 <= i < |configs| && a == configs[i].Target();
      assert configs[i].Known();
    }
  }

  // ------------------------------------------------------------------------------------------
  // The loops themselves

  function AddressOf(c: MyClient): Address {
    (c.host, c.port)
  }

  ghost function TableOf(loop: ClientLoop): Table
    reads loop
  {
    map u | u in loop.clients :: AddressOf(loop.clients[u])
  }

  ghost function TablesOf(loops: seq<ClientLoop>): (tables: seq<Table>)
    reads loops
    ensures |tables| == |loops| && forall k | 0 <= k < |loops| :: tables[k] == TableOf(loops[k])
  {
    seq(|loops|, k requires 0 <= k < |loops| reads loops => TableOf(loops[k]))
  }

  /** The inner loop over the configuration. */
  method IsWanted(c: MyClient, configs: seq<Config>) returns (found: bool)
    ensures found <==> AddressOf(c) in Wanted(configs)
  {
    found := false;
    for i := 0 to |configs|
      invariant found <==> exists j :: 0 <= j < i && At(c, configs[j].host, configs[j].port)
    {
      if At(c, configs[i].host, configs[i].port) {
        found := true;
      }
    }
    assert found ==> AddressOf(c) in Wanted(configs) by {
      if found {
        var j :| 0 <= j < |configs| && At(c, configs[j].host, configs[j].port);
        assert configs[j].Target() == AddressOf(c);
      }
    }
  }

  method RemoveUnwanted(loop: ClientLoop, configs: seq<Config>)
    modifies loop
    ensures TableOf(loop) == Kept(old(TableOf(loop)), configs)
    ensures forall u | u in loop.clients :: u in old(loop.clients) && loop.clients[u] == old(loop.clients)[u]
  {
    var ahead, unwanted := loop.clients.Keys, {};
    while ahead != {}
      invariant loop.clients == old(loop.clients) && ahead <= loop.clients.Keys
      invariant unwanted == set u | u in loop.clients && u !in ahead && AddressOf(loop.clients[u]) !in Wanted(configs)
    {
      FirstExists(ahead);
      var u: nat :| IsFirst(u, ahead);
      var found := IsWanted(loop.clients[u], configs);
      if !found {
        unwanted := unwanted + {u};
      }
      ahead := ahead - {u};
    }
    loop.clients := loop.clients - unwanted;
  }

  /** One entry: nothing if the scanned loop has its address or the type is unknown, else one new client at home. */
  method AddMissing(scanned: ClientLoop, home: ClientLoop, config: Config, uid: nat) returns (used: bool)
    modifies home
    ensures used <==> (config.clientType == TYPE_TCP || config.clientType == TYPE_UDP) &&
                      (config.host, config.port) !in old(TableOf(scanned)).Values
    ensures !used ==> home.clients == old(home.clients)
    ensures used ==> uid in home.clients && fresh(home.clients[uid]) &&
                     home.clients == old(home.clients)[uid := home.clients[uid]] &&
                     TableOf(home) == old(TableOf(home))[uid := (config.host, config.port)]
  {
    var c := scanned.FindAt(config.host, config.port);
    if c.Some? {
      assert exists u :: u in scanned.clients && TableOf(scanned)[u] == config.Target();
      return false;
    }
    assert config.Target() !in TableOf(scanned).Values;
    if config.clientType == TYPE_TCP || config.clientType == TYPE_UDP {
      var client := new MyClient(uid, config.host, config.port);
      home.AddClient(client);
      return true;
    }
    return false;
  }

  /**
   The tables of the loops become those of `Update`, also when a new socket has the uid of a registered client, which
   it then replaces. A client is a new object or the same object as before; the latter for all uids that were there
   before, if those of the new sockets are fresh.
   */
  method Initialize(loops: seq<ClientLoop>, i: nat, j: nat, configs: seq<Config>, uids: seq<nat>)
    requires i < |loops| && j < |loops| && forall m, n | 0 <= m < n < |loops| :: loops[m] != loops[n]
    requires |uids| >= |configs|
    modifies loops[i], loops[j]
    ensures TablesOf(loops) == Update(old(TablesOf(loops)), i, j, configs, uids)
    ensures forall k, u | 0 <= k < |loops| && u in loops[k].clients ::
              fresh(loops[k].clients[u]) ||
              (u in old(loops[k].clients) && loops[k].clients[u] == old(loops[k].clients)[u])
    ensures FreshUids(uids, old(TableOf(loops[j])), |configs|) ==>
              forall k, u | 0 <= k < |loops| && u in loops[k].clients && u in old(loops[k].clients) ::
                loops[k].clients[u] == old(loops[k].clients)[u]
  {
    ghost var before := TablesOf(loops);
    RemoveUnwanted(loops[i], configs);
    assert TablesOf(loops) == before[i := Kept(before[i], configs)];
    AddAllMissing(loops, i, j, configs, uids);
  }

  /** The second half: every entry in turn, each new client under the next uid. */
  method AddAllMissing(loops: seq<ClientLoop>, i: nat, j: nat, configs: seq<Config>, uids: seq<nat>)
    requires i < |loops| && j < |loops| && forall m, n | 0 <= m < n < |loops| :: loops[m] != loops[n]
    requires |uids| >= |configs|
    modifies loops[j]
    ensures TablesOf(loops) == AddEach(old(TablesOf(loops)), i, j, configs, uids)
    ensures forall u | u in loops[j].clients ::
              (u in old(loops[j].clients) && loops[j].clients[u] == old(loops[j].clients)[u]) ||
              (fresh(loops[j].clients[u]) && u in uids[..|configs|])
  {
    var n := 0;
    for k := 0 to |configs|
      invariant n <= k
      invariant AddEach(old(TablesOf(loops)), i, j, configs, uids)
             == AddEach(TablesOf(loops), i, j, configs[k..], uids[n..])
      invariant forall u | u in loops[j].clients ::
                  (u in old(loops[j].clients) && loops[j].clients[u] == old(loops[j].clients)[u]) ||
                  (fresh(loops[j].clients[u]) && u in uids[..|configs|])
    {
      ghost var tables := TablesOf(loops);
      var used := AddMissing(loops[i], loops[j], configs[k], uids[n]);
      assert configs[k..][0] == configs[k] && configs[k..][1..] == configs[k + 1..];
      assert uids[n..][0] == uids[n] && uids[n..][1..] == uids[n + 1..];
      if used {
        assert TablesOf(loops) == tables[j := tables[j][uids[n] := configs[k].Target()]];
        assert uids[n] == uids[..|configs|][n];
        n := n + 1;
      } else {
        assert TablesOf(loops) == tables;
      }
    }
  }
}
