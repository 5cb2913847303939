/**
 MyTimeoutMap: values with the second of their last touch, and the same keys once more in one bucket per second.
 `Index` holds both maps as values; the class updates its two fields in place and is proved against it.
 */
module TimeoutMap {
  import opened Bytes
  import opened Sequences
  import opened Ordering

  datatype Entry<V> = Entry(ts: nat, v: V)

  /** One call of the expiry function; None is the null pointer of a key without a value. */
  datatype Call<K, V> = Call(key: K, v: Option<V>)

  /** Every key listed before the cutoff, with the second of the bucket. */
  ghost function Listed<K>(keys: map<nat, set<K>>, cutoff: nat): set<(nat, K)> {
    set t, k | t in keys && t < cutoff && k in keys[t] :: (t, k)
  }

  datatype Index<K(==), V> = Index(values: map<K, Entry<V>>, keys: map<nat, set<K>>) {

    function Bucket(t: nat): set<K> {
      if t in keys then keys[t] else {}
    }

    function Insert(k: K, v: V, now: nat): Index<K, V> {
      Index(values[k := Entry(now, v)], keys[now := Bucket(now) + {k}])
    }

    /** Both update functions: out of the old bucket, which stays even when empty, and into the one of now. */
    function Update(k: K, v: V, now: nat): Index<K, V>
      requires k in values
    {
      var oldTs := values[k].ts;
      var removed := keys[oldTs := Bucket(oldTs) - {k}];
      Index(values[k := Entry(now, v)], removed[now := (if now in removed then removed[now] else {}) + {k}])
    }

    /** erase: an emptied bucket goes with its last key. */
    function Erase(k: K): Index<K, V>
      requires k in values
    {
      var oldTs := values[k].ts;
      var bucket := Bucket(oldTs) - {k};
      Index(values - {k}, if bucket == {} then keys - {oldTs} else keys[oldTs := bucket])
    }

    /** What the buckets before the cutoff list. */
    ghost function Due(cutoff: nat): set<(nat, K)> {
      Listed(keys, cutoff)
    }

    ghost function DueKeys(cutoff: nat): set<K> {
      set p | p in Due(cutoff) :: p.1
    }

    ghost function Expire(cutoff: nat): Index<K, V> {
      Index(values - DueKeys(cutoff), map t | t in keys && t >= cutoff :: keys[t])
    }

    /** Each live key is in the bucket of its second. */
    ghost predicate Covered() {
      forall k | k in values :: values[k].ts in keys && k in keys[values[k].ts]
    }

    /** The buckets and the timestamps say the same. */
    ghost predicate Exact() {
      Covered() && forall t, k | t in keys && k in keys[t] :: k in values && values[k].ts == t
    }

    ghost predicate NoEmptyBucket() {
      forall t | t in keys :: keys[t] != {}
    }
  }

  // ------------------------------------------------------------------------------------------
  // Histories

  datatype Op<K, V> = Insert(k: K, v: V, now: nat)
                    | Touch(k: K, now: nat)
                    | Replace(k: K, v: V, now: nat)
                    | Erase(k: K)
                    | MoveFirst
                    | Expire(cutoff: nat)

  ghost function Apply<K(!new), V>(m: Index<K, V>, op: Op<K, V>, less: (K, K) -> bool): Index<K, V>
    requires StrictOrder(less)
  {
    match op
    case Insert(k, v, now) => m.Insert(k, v, now)
    case Touch(k, now) => if k in m.values then m.Update(k, m.values[k].v, now) else m
    case Replace(k, v, now) => if k in m.values then m.Update(k, v, now) else m
    case Erase(k) => if k in m.values then m.Erase(k) else m
    case MoveFirst => if m.values == map[] then m else m.Erase(Least(m.values.Keys, less))
    case Expire(cutoff) => m.Expire(cutoff)
  }

  ghost function ApplyAll<K(!new), V>(ops: seq<Op<K, V>>, less: (K, K) -> bool): Index<K, V>
    requires StrictOrder(less)
  {
    if ops == [] then Index(map[], map[]) else Apply(ApplyAll(ops[..|ops| - 1], less), ops[|ops| - 1], less)
  }

  lemma EarlyIsDue<K(!new), V>(m: Index<K, V>, cutoff: nat, k: K)
    requires m.Covered()
    ensures k in m.values && m.values[k].ts < cutoff ==> k in m.DueKeys(cutoff)
  {
    if k in m.values && m.values[k].ts < cutoff {
      assert (m.values[k].ts, k) in m.Due(cutoff);
    }
  }

  lemma CoveredKept<K(!new), V>(m: Index<K, V>, op: Op<K, V>, less: (K, K) -> bool)
    requires StrictOrder(less) && m.Covered()
    ensures Apply(m, op, less).Covered()
  {
    match op
    case Expire(cutoff) =>
      forall k | k in m.values && k !in m.DueKeys(cutoff)
        ensures m.values[k].ts >= cutoff
      {
        EarlyIsDue(m, cutoff, k);
      }
    case Insert(_, _, _) =>
    case Touch(_, _) =>
    case Replace(_, _, _) =>
    case Erase(_) =>
    case MoveFirst =>
  }

  /** In every history, re-inserted keys and updates within one second included. */
  lemma {:induction false} AlwaysCovered<K(!new), V>(ops: seq<Op<K, V>>, less: (K, K) -> bool)
    requires StrictOrder(less)
    ensures ApplyAll(ops, less).Covered()
  {
    if ops != [] {
      AlwaysCovered(ops[..|ops| - 1], less);
      CoveredKept(ApplyAll(ops[..|ops| - 1], less), ops[|ops| - 1], less);
    }
  }

  /** The operation gives the key a value; the key a second. */
  predicate GivesValue<K(==), V>(op: Op<K, V>, k: K) {
    (op.Insert? || op.Replace?) && op.k == k
  }

  predicate GivesSecond<K(==), V>(op: Op<K, V>, k: K) {
    (op.Insert? || op.Touch? || op.Replace?) && op.k == k
  }

  lemma EntryStep<K(!new), V>(m: Index<K, V>, op: Op<K, V>, less: (K, K) -> bool, k: K)
    requires StrictOrder(less) && k in Apply(m, op, less).values
    ensures !op.Insert? || op.k != k ==> k in m.values
    ensures var e := Apply(m, op, less).values[k];
            e.v == (if GivesValue(op, k) then op.v else m.values[k].v) &&
            e.ts == if GivesSecond(op, k) then op.now else m.values[k].ts
  {
  }

  /**
   In every history: the value of a live key is that of the last insert or replace of this key, and its second that
   of the last insert, touch or replace.
   */
  lemma {:induction false} EntryIsLastPut<K(!new), V>(ops: seq<Op<K, V>>, less: (K, K) -> bool, k: K)
    returns (i: nat, j: nat)
    requires StrictOrder(less) && k in ApplyAll(ops, less).values
    ensures i < |ops| && (ops[i].Insert? || ops[i].Replace?) && ops[i].k == k
    ensures forall n | i < n < |ops| :: !((ops[n].Insert? || ops[n].Replace?) && ops[n].k == k)
    ensures ApplyAll(ops, less).values[k].v == ops[i].v
    ensures j < |ops| && (ops[j].Insert? || ops[j].Touch? || ops[j].Replace?) && ops[j].k == k
    ensures forall n | j < n < |ops| :: !((ops[n].Insert? || ops[n].Touch? || ops[n].Replace?) && ops[n].k == k)
    ensures ApplyAll(ops, less).values[k].ts == ops[j].now
  {
    var n := |ops| - 1;
    var init, op := ops[..n], ops[n];
    EntryStep(ApplyAll(init, less), op, less, k);
    hide Apply;
    i, j := n, n;
    if !GivesValue(op, k) {
      var earlier;
      i, earlier := EntryIsLastPut(init, less, k);
      assert forall x | 0 <= x < n :: ops[x] == init[x];
      if !GivesSecond(op, k) {
        j := earlier;
      }
    }
  }

  /** No overstay: whatever happened before, an expiry leaves no entry from before the cutoff. */
  lemma NoOverstay<K(!new), V>(ops: seq<Op<K, V>>, less: (K, K) -> bool, cutoff: nat)
    requires StrictOrder(less)
    ensures forall k | k in ApplyAll(ops, less).Expire(cutoff).values ::
              ApplyAll(ops, less).Expire(cutoff).values[k].ts >= cutoff
  {
    AlwaysCovered(ops, less);
    var m := ApplyAll(ops, less);
    forall k | k in m.Expire(cutoff).values
      ensures m.values[k].ts >= cutoff
    {
      EarlyIsDue(m, cutoff, k);
    }
  }

  /** Insert over a live key of another second leaves the key in its old bucket as well. */
  predicate LeavesStale<K(==), V>(m: Index<K, V>, op: Op<K, V>) {
    op.Insert? && op.k in m.values && m.values[op.k].ts != op.now
  }

  lemma DueIffEarly<K(!new), V>(m: Index<K, V>, cutoff: nat, k: K)
    requires m.Exact()
    ensures k in m.DueKeys(cutoff) <==> k in m.values && m.values[k].ts < cutoff
  {
    if k in m.DueKeys(cutoff) {
      var p :| p in m.Due(cutoff) && p.1 == k;
      var t, x :| t in m.keys && t < cutoff && x in m.keys[t] && p == (t, x);
      assert k in m.keys[t];
    }
    EarlyIsDue(m, cutoff, k);
  }

  lemma InsertExactIff<K(!new), V>(m: Index<K, V>, k: K, v: V, now: nat)
    requires m.Exact()
    ensures m.Insert(k, v, now).Exact() <==> k !in m.values || m.values[k].ts == now
  {
    var m' := m.Insert(k, v, now);
    if k in m.values && m.values[k].ts != now {
      var ts := m.values[k].ts;
      assert ts in m'.keys && k in m'.keys[ts] && m'.values[k].ts != ts;
    } else {
      forall t, x | t in m'.keys && x in m'.keys[t]
        ensures x in m'.values && m'.values[x].ts == t
      {
        if t in m.keys && x in m.keys[t] {
          assert x in m.values && m.values[x].ts == t;
        }
      }
      forall x | x in m'.values
        ensures m'.values[x].ts in m'.keys && x in m'.keys[m'.values[x].ts]
      {
      }
    }
  }

  /** An exact index stays exact under every operation but that one, and under that one never. */
  lemma ExactKeptIff<K(!new), V>(m: Index<K, V>, op: Op<K, V>, less: (K, K) -> bool)
    requires StrictOrder(less) && m.Exact()
    ensures Apply(m, op, less).Exact() <==> !LeavesStale(m, op)
  {
    CoveredKept(m, op, less);
    match op
    case Insert(k, v, now) =>
      InsertExactIff(m, k, v, now);
    case Expire(cutoff) =>
      forall t, k | t in m.keys && t >= cutoff && k in m.keys[t]
        ensures k !in m.DueKeys(cutoff)
      {
        DueIffEarly(m, cutoff, k);
      }
    case Touch(_, _) =>
    case Replace(_, _, _) =>
    case Erase(_) =>
    case MoveFirst =>
  }

  ghost predicate FreshInserts<K(!new), V>(ops: seq<Op<K, V>>, less: (K, K) -> bool)
    requires StrictOrder(less)
  {
    forall i | 0 <= i < |ops| && ops[i].Insert? :: ops[i].k !in ApplyAll(ops[..i], less).values
  }

  lemma {:induction false} FreshRunIsExact<K(!new), V>(ops: seq<Op<K, V>>, less: (K, K) -> bool)
    requires StrictOrder(less) && FreshInserts(ops, less)
    ensures ApplyAll(ops, less).Exact()
  {
    if ops != [] {
      var n := |ops| - 1;
      forall i | 0 <= i < n
        ensures ops[..n][..i] == ops[..i]
      {
      }
      FreshRunIsExact(ops[..n], less);
      ExactKeptIff(ApplyAll(ops[..n], less), ops[n], less);
    }
  }

  /** On an exact index an expiry removes exactly the entries from before the cutoff and touches no other. */
  lemma ExactExpiry<K(!new), V>(m: Index<K, V>, cutoff: nat)
    requires m.Exact()
    ensures m.Expire(cutoff).values == map k | k in m.values && m.values[k].ts >= cutoff :: m.values[k]
  {
    forall k
      ensures k in m.DueKeys(cutoff) <==> k in m.values && m.values[k].ts < cutoff
    {
      DueIffEarly(m, cutoff, k);
    }
  }

  /** Some bucket lists a live key under a second before its own timestamp. */
  ghost predicate ListsEarly<K(!new), V>(m: Index<K, V>) {
    exists t, k :: t in m.keys && k in m.keys[t] && k in m.values && t < m.values[k].ts
  }

  /** On a covered index every expiry is a filter by timestamp, if and only if no bucket lists a live key too early. */
  lemma {:induction false} ExpiryIsFilterIff<K(!new), V>(m: Index<K, V>)
    requires m.Covered()
    ensures (forall cutoff :: m.Expire(cutoff).values
                              == map k | k in m.values && m.values[k].ts >= cutoff :: m.values[k])
       <==> !ListsEarly(m)
  {
    if ListsEarly(m) {
      var t, k :| t in m.keys && k in m.keys[t] && k in m.values && t < m.values[k].ts;
      assert (t, k) in m.Due(t + 1);
      assert k !in m.Expire(t + 1).values;
    } else {
      forall cutoff: nat
        ensures m.Expire(cutoff).values == map k | k in m.values && m.values[k].ts >= cutoff :: m.values[k]
      {
        forall k | k in m.values
          ensures k in m.DueKeys(cutoff) <==> m.values[k].ts < cutoff
        {
          EarlyIsDue(m, cutoff, k);
          if k in m.DueKeys(cutoff) {
            var p :| p in m.Due(cutoff) && p.1 == k;
            assert p.0 in m.keys && k in m.keys[p.0];
          }
        }
      }
    }
  }

  /** Some bucket before `now`, other than the one of the key's own second, lists the key. */
  ghost predicate ListedBefore<K(!new), V>(m: Index<K, V>, k: K, now: nat) {
    exists t :: t in m.keys && k in m.keys[t] && t < now && !(k in m.values && t == m.values[k].ts)
  }

  lemma InsertListsEarlyIff<K(!new), V>(m: Index<K, V>, k: K, v: V, now: nat)
    requires m.Covered() && !ListsEarly(m)
    ensures ListsEarly(m.Insert(k, v, now)) <==>
            ListedBefore(m, k, now) || (k in m.values && m.values[k].ts < now)
  {
    var m' := m.Insert(k, v, now);
    if ListsEarly(m') {
      var t, x :| t in m'.keys && x in m'.keys[t] && x in m'.values && t < m'.values[x].ts;
      assert t in m.keys && x in m.keys[t];
      assert x == k;
    }
    if ListedBefore(m, k, now) {
      var t :| t in m.keys && k in m.keys[t] && t < now && !(k in m.values && t == m.values[k].ts);
      assert t in m'.keys && k in m'.keys[t] && t < m'.values[k].ts;
    }
    if k in m.values && m.values[k].ts < now {
      assert m.values[k].ts in m'.keys && k in m'.keys[m.values[k].ts];
    }
  }

  lemma UpdateListsEarlyIff<K(!new), V>(m: Index<K, V>, k: K, v: V, now: nat)
    requires m.Covered() && !ListsEarly(m) && k in m.values
    ensures ListsEarly(m.Update(k, v, now)) <==> ListedBefore(m, k, now)
  {
    var m' := m.Update(k, v, now);
    if ListsEarly(m') {
      var t, x :| t in m'.keys && x in m'.keys[t] && x in m'.values && t < m'.values[x].ts;
      assert t in m.keys && x in m.keys[t];
      assert x == k;
    }
    if ListedBefore(m, k, now) {
      var t :| t in m.keys && k in m.keys[t] && t < now && !(k in m.values && t == m.values[k].ts);
      assert t in m'.keys && k in m'.keys[t] && t < m'.values[k].ts;
    }
  }

  /**
   How an early listing comes about, on every covered index without one: by an insert or an update of a key that a
   bucket before `now` goes on listing, and by nothing else. An insert over a live key leaves its old bucket so; a key
   that was erased after such an insert is still listed in the older bucket.
   */
  lemma ListsEarlyIff<K(!new), V>(m: Index<K, V>, op: Op<K, V>, less: (K, K) -> bool)
    requires StrictOrder(less) && m.Covered() && !ListsEarly(m)
    ensures ListsEarly(Apply(m, op, less)) <==>
            match op
            case Insert(k, _, now) => ListedBefore(m, k, now) || (k in m.values && m.values[k].ts < now)
            case Touch(k, now) => k in m.values && ListedBefore(m, k, now)
            case Replace(k, _, now) => k in m.values && ListedBefore(m, k, now)
            case _ => false
  {
    match op
    case Insert(k, v, now) => InsertListsEarlyIff(m, k, v, now);
    case Touch(k, now) => if k in m.values { UpdateListsEarlyIff(m, k, m.values[k].v, now); }
    case Replace(k, v, now) => if k in m.values { UpdateListsEarlyIff(m, k, v, now); }
    case Erase(_) =>
    case MoveFirst =>
    case Expire(_) =>
  }

  /** Without exactness a key that is alive and in time can go: inserted at 1, again at 5, expiry up to 3. */
  lemma StaleKeyExpiresEarly<V>(v: V)
    ensures var m := Index(map[], map[]).Insert(7, v, 1).Insert(7, v, 5);
            m.values == map[7 := Entry(5, v)] && m.Expire(3).values == map[]
  {
    var m := Index(map[], map[]).Insert(7, v, 1).Insert(7, v, 5);
    assert 7 in m.keys[1] && (1, 7) in m.Due(3);
  }

  // ------------------------------------------------------------------------------------------
  // The calls of an expiry

  /** By timestamp, then by key. */
  function PairOrder<K>(less: (K, K) -> bool): ((nat, K), (nat, K)) -> bool {
    (p: (nat, K), q: (nat, K)) => p.0 < q.0 || (p.0 == q.0 && less(p.1, q.1))
  }

  lemma PairOrderStrict<K(!new)>(less: (K, K) -> bool)
    requires StrictOrder(less)
    ensures StrictOrder(PairOrder(less))
  {
    var o := PairOrder(less);
    forall p
      ensures !o(p, p)
    {
      assert !less(p.1, p.1);
    }
    forall p, q
      ensures o(p, q) || p == q || o(q, p)
    {
      assert p == (p.0, p.1) && q == (q.0, q.1);
      assert less(p.1, q.1) || p.1 == q.1 || less(q.1, p.1);
    }
    forall p, q, r | o(p, q) && o(q, r)
      ensures o(p, r)
    {
      assert less(p.1, q.1) && less(q.1, r.1) ==> less(p.1, r.1);
    }
  }

  /** Each listed key in turn: the call with its value, if it still has one, and then the key is gone. */
  ghost function CallsOver<K(!new), V>(values: map<K, Entry<V>>, pairs: seq<(nat, K)>): seq<Call<K, V>> {
    if pairs == [] then []
    else
      var k := pairs[0].1;
      [Call(k, if k in values then Some(values[k].v) else None)] + CallsOver(values - {k}, pairs[1..])
  }

  ghost function ExpiryCalls<K(!new), V>(values: map<K, Entry<V>>, listed: set<(nat, K)>, less: (K, K) -> bool)
    : seq<Call<K, V>>
    requires StrictOrder(less)
  {
    PairOrderStrict(less);
    CallsOver(values, Ascending(listed, PairOrder(less)))
  }

  /**
   The calls over any list of keys, on any index: one for each, in its order; with the value of the key if it is live
   and was not in the list before, and else with none.
   */
  lemma {:induction false} CallsOverAny<K(!new), V>(values: map<K, Entry<V>>, pairs: seq<(nat, K)>, i: nat)
    requires i < |pairs|
    ensures |CallsOver(values, pairs)| == |pairs| && CallsOver(values, pairs)[i].key == pairs[i].1
    ensures var k := pairs[i].1;
            CallsOver(values, pairs)[i].v ==
            if k in values && (forall j | 0 <= j < i :: pairs[j].1 != k) then Some(values[k].v) else None
    decreases |pairs|
  {
    var first, tail := pairs[0].1, pairs[1..];
    if i > 0 {
      CallsOverAny(values - {first}, tail, i - 1);
      assert forall j | 0 < j < |pairs| :: tail[j - 1] == pairs[j];
      assert (forall j | 0 <= j < i :: pairs[j].1 != pairs[i].1) <==>
             first != pairs[i].1 && forall j | 0 <= j < i - 1 :: tail[j].1 != pairs[i].1 by {
        if first != pairs[i].1 && forall j | 0 <= j < i - 1 :: tail[j].1 != pairs[i].1 {
          forall j | 0 <= j < i
            ensures pairs[j].1 != pairs[i].1
          {
            assert j > 0 ==> pairs[j] == tail[j - 1];
          }
        }
        assert forall j | 0 <= j < i - 1 :: tail[j] == pairs[j + 1];
      }
    } else if |pairs| > 1 {
      CallsOverAny(values - {first}, tail, 0);
    }
  }

  /** An expiry on any index makes one call for each listing before the cutoff, stale ones included. */
  lemma CallsPerListing<K(!new), V>(m: Index<K, V>, cutoff: nat, less: (K, K) -> bool)
    requires StrictOrder(less)
    ensures |ExpiryCalls(m.values, m.Due(cutoff), less)| == |m.Due(cutoff)|
  {
    PairOrderStrict(less);
    var pairs := Ascending(m.Due(cutoff), PairOrder(less));
    if pairs != [] {
      CallsOverAny(m.values, pairs, 0);
    }
  }

  lemma {:induction false} CallsOverDistinct<K(!new), V>(values: map<K, Entry<V>>, pairs: seq<(nat, K)>)
    requires forall i | 0 <= i < |pairs| :: pairs[i].1 in values
    requires forall i, j | 0 <= i < j < |pairs| :: pairs[i].1 != pairs[j].1
    ensures |CallsOver(values, pairs)| == |pairs|
    ensures forall i | 0 <= i < |pairs| :: CallsOver(values, pairs)[i] == Call(pairs[i].1, Some(values[pairs[i].1].v))
  {
    if pairs != [] {
      var k, tail := pairs[0].1, pairs[1..];
      forall i | 0 <= i < |tail|
        ensures tail[i].1 in values - {k}
      {
        assert tail[i] == pairs[i + 1];
      }
      CallsOverDistinct(values - {k}, tail);
    }
  }

  /** What an expiry lists on an exact index: the entries from before the cutoff, with their own seconds, in order. */
  lemma ListedInOrder<K(!new), V>(m: Index<K, V>, cutoff: nat, less: (K, K) -> bool) returns (pairs: seq<(nat, K)>)
    requires StrictOrder(less) && m.Exact()
    ensures StrictOrder(PairOrder(less)) && pairs == Ascending(m.Due(cutoff), PairOrder(less))
    ensures forall i | 0 <= i < |pairs| :: pairs[i].1 in m.values && m.values[pairs[i].1].ts == pairs[i].0 < cutoff
    ensures forall i, j | 0 <= i < j < |pairs| :: PairOrder(less)(pairs[i], pairs[j]) && pairs[i].1 != pairs[j].1
    ensures forall k | k in m.values && m.values[k].ts < cutoff :: (m.values[k].ts, k) in pairs
  {
    PairOrderStrict(less);
    var due := m.Due(cutoff);
    pairs := Ascending(due, PairOrder(less));
    AscendingElements(due, PairOrder(less));
    AscendingSorted(due, PairOrder(less));
    DueEntries(m, cutoff);
    hide *;
    forall i | 0 <= i < |pairs|
      ensures pairs[i].1 in m.values && m.values[pairs[i].1].ts == pairs[i].0 < cutoff
    {
      assert pairs[i] in due;
    }
    forall i, j | 0 <= i < j < |pairs|
      ensures PairOrder(less)(pairs[i], pairs[j]) && pairs[i].1 != pairs[j].1
    {
      PairOrderDiffers(less, pairs[i], pairs[j]);
    }
  }

  lemma DueEntries<K(!new), V>(m: Index<K, V>, cutoff: nat)
    requires m.Exact()
    ensures forall p | p in m.Due(cutoff) :: p.1 in m.values && m.values[p.1].ts == p.0 < cutoff
    ensures forall k | k in m.values && m.values[k].ts < cutoff :: (m.values[k].ts, k) in m.Due(cutoff)
  {
  }

  lemma PairOrderDiffers<K(!new)>(less: (K, K) -> bool, p: (nat, K), q: (nat, K))
    requires StrictOrder(less) && PairOrder(less)(p, q)
    ensures p.0 == q.0 ==> p.1 != q.1
  {
  }

  /**
   On an exact index the expiry function runs once per entry from before the cutoff, with that entry's own
   value, in the order of timestamps and then of keys.
   */
  lemma ExactCalls<K(!new), V>(m: Index<K, V>, cutoff: nat, less: (K, K) -> bool)
    requires StrictOrder(less) && m.Exact()
    ensures var calls := ExpiryCalls(m.values, m.Due(cutoff), less);
            (forall i | 0 <= i < |calls| :: calls[i].key in m.values && m.values[calls[i].key].ts < cutoff
                                            && calls[i].v == Some(m.values[calls[i].key].v)) &&
            (forall k | k in m.values && m.values[k].ts < cutoff ::
               exists i :: 0 <= i < |calls| && calls[i].key == k) &&
            forall i, j | 0 <= i < j < |calls| ::
              PairOrder(less)((m.values[calls[i].key].ts, calls[i].key), (m.values[calls[j].key].ts, calls[j].key))
  {
    var pairs := ListedInOrder(m, cutoff, less);
    var calls := ExpiryCalls(m.values, m.Due(cutoff), less);
    assert calls == CallsOver(m.values, pairs);
    hide *;
    CallsOverDistinct(m.values, pairs);
    EachIsCalled(m.values, pairs, calls, cutoff);
    forall i, j | 0 <= i < j < |calls|
      ensures PairOrder(less)((m.values[calls[i].key].ts, calls[i].key), (m.values[calls[j].key].ts, calls[j].key))
    {
      assert pairs[i] == (m.values[calls[i].key].ts, calls[i].key);
      assert pairs[j] == (m.values[calls[j].key].ts, calls[j].key);
    }
  }

  lemma EachIsCalled<K, V>(values: map<K, Entry<V>>, pairs: seq<(nat, K)>, calls: seq<Call<K, V>>, cutoff: nat)
    requires |calls| == |pairs| && forall i | 0 <= i < |pairs| :: calls[i].key == pairs[i].1
    requires forall k | k in values && values[k].ts < cutoff :: (values[k].ts, k) in pairs
    ensures forall k | k in values && values[k].ts < cutoff :: exists i :: 0 <= i < |calls| && calls[i].key == k
  {
    forall k | k in values && values[k].ts < cutoff
      ensures exists i :: 0 <= i < |calls| && calls[i].key == k
    {
      var i :| 0 <= i < |pairs| && pairs[i] == (values[k].ts, k);
      assert calls[i].key == k;
    }
  }

  // ------------------------------------------------------------------------------------------
  // The random pick

  lemma {:induction false} BucketsHoldEntries<K(!new), V>(m: Index<K, V>, ts: set<nat>)
    requires m.Exact() && m.NoEmptyBucket() && ts <= m.keys.Keys
    ensures |ts| <= |set k | k in m.values && m.values[k].ts in ts|
    decreases |ts|
  {
    if ts != {} {
      var t :| t in ts;
      var k :| k in m.keys[t];
      BucketsHoldEntries(m, ts - {t});
      assert m.values[k].ts == t;
      hide *;
      var small := set x | x in m.values && m.values[x].ts in ts - {t};
      var large := set x | x in m.values && m.values[x].ts in ts;
      assert k !in small && small + {k} <= large;
      SubsetSize(small + {k}, large);
    }
  }

  lemma {:induction false} SubsetSize<T>(a: set<T>, b: set<T>)
    requires a <= b
    ensures |a| <= |b|
  {
    if a != {} {
      var x :| x in a;
      SubsetSize(a - {x}, b - {x});
    }
  }

  /** No more buckets than entries: every index drawn below the bucket count is an index of an entry. */
  lemma BucketCountBound<K(!new), V>(m: Index<K, V>)
    requires m.Exact() && m.NoEmptyBucket()
    ensures |m.keys| <= |m.values|
  {
    BucketsHoldEntries(m, m.keys.Keys);
    SubsetSize((set k | k in m.values && m.values[k].ts in m.keys.Keys), m.values.Keys);
    assert |m.keys.Keys| == |m.keys| && |m.values.Keys| == |m.values|;
  }

  /** Every operation but an update leaves no empty bucket, an update only if the key's old bucket keeps a key. */
  lemma NoEmptyBucketKeptIff<K(!new), V>(m: Index<K, V>, op: Op<K, V>, less: (K, K) -> bool)
    requires StrictOrder(less) && m.Exact() && m.NoEmptyBucket()
    ensures Apply(m, op, less).NoEmptyBucket() <==>
            ((op.Touch? || op.Replace?) && op.k in m.values && m.values[op.k].ts != op.now ==>
               m.keys[m.values[op.k].ts] != {op.k})
  {
    if (op.Touch? || op.Replace?) && op.k in m.values {
      var ts := m.values[op.k].ts;
      var m' := Apply(m, op, less);
      assert op.k in m'.keys[op.now];
      if ts != op.now {
        assert ts in m'.keys && m'.keys[ts] == m.keys[ts] - {op.k};
      }
    }
  }

  lemma {:induction false} PickInRange<K(!new), V>(ops: seq<Op<K, V>>, less: (K, K) -> bool)
    requires StrictOrder(less) && FreshInserts(ops, less)
    requires forall i | 0 <= i < |ops| :: !ops[i].Touch? && !ops[i].Replace?
    ensures ApplyAll(ops, less).Exact() && ApplyAll(ops, less).NoEmptyBucket()
    ensures |ApplyAll(ops, less).keys| <= |ApplyAll(ops, less).values|
  {
    FreshRunIsExact(ops, less);
    if ops != [] {
      var n := |ops| - 1;
      forall i | 0 <= i < n
        ensures ops[..n][..i] == ops[..i]
      {
      }
      PickInRange(ops[..n], less);
      NoEmptyBucketKeptIff(ApplyAll(ops[..n], less), ops[n], less);
    }
    BucketCountBound(ApplyAll(ops, less));
  }

  /** The pick: nothing is drawn from an empty map, else every index below the bucket count is one of an entry. */
  predicate InRange<K(==), V>(m: Index<K, V>) {
    m.values == map[] || |m.keys| <= |m.values|
  }

  /** A bucket for `now` finds room: there is one already, or there are more entries than buckets. */
  predicate RoomForBucket<K(==), V>(m: Index<K, V>, now: nat) {
    now in m.keys || |m.keys| < |m.values|
  }

  /** A live key may go: it is the last one, or its bucket goes with it, or there are more entries than buckets. */
  predicate RoomForErase<K(==), V>(m: Index<K, V>, k: K)
    requires k in m.values
  {
    m.values.Keys == {k} || m.Bucket(m.values[k].ts) == {k} || |m.keys| < |m.values|
  }

  lemma Sizes<K, V>(m: Index<K, V>)
    ensures |m.values.Keys| == |m.values| && |m.keys.Keys| == |m.keys|
  {
  }

  lemma PutSize<A, B>(m: map<A, B>, a: A, b: B)
    ensures |m[a := b]| == |m| + if a in m then 0 else 1
  {
    if a in m {
      assert m[a := b].Keys == m.Keys;
    } else {
      assert m[a := b].Keys == m.Keys + {a};
    }
    assert |m.Keys| == |m| && |m[a := b].Keys| == |m[a := b]|;
  }

  lemma InsertSizes<K(!new), V>(m: Index<K, V>, k: K, v: V, now: nat)
    ensures |m.Insert(k, v, now).keys| == |m.keys| + if now in m.keys then 0 else 1
    ensures |m.Insert(k, v, now).values| == |m.values| + if k in m.values then 0 else 1
  {
    PutSize(m.keys, now, m.Bucket(now) + {k});
    PutSize(m.values, k, Entry(now, v));
  }

  lemma UpdateSizes<K(!new), V>(m: Index<K, V>, k: K, v: V, now: nat)
    requires m.Covered() && k in m.values
    ensures |m.Update(k, v, now).keys| == |m.keys| + if now in m.keys then 0 else 1
    ensures |m.Update(k, v, now).values| == |m.values|
  {
    var ts := m.values[k].ts;
    var removed := m.keys[ts := m.Bucket(ts) - {k}];
    PutSize(m.keys, ts, m.Bucket(ts) - {k});
    PutSize(removed, now, (if now in removed then removed[now] else {}) + {k});
    PutSize(m.values, k, Entry(now, v));
  }

  lemma EraseSizes<K(!new), V>(m: Index<K, V>, k: K)
    requires m.Covered() && k in m.values
    ensures |m.Erase(k).values| == |m.values| - 1
    ensures |m.Erase(k).keys| == |m.keys| - if m.Bucket(m.values[k].ts) == {k} then 1 else 0
  {
    var ts := m.values[k].ts;
    Sizes(m);
    Sizes(m.Erase(k));
    assert m.Erase(k).values.Keys == m.values.Keys - {k};
    assert m.keys[ts] == {k} <==> m.keys[ts] - {k} == {} by {
      assert m.keys[ts] == (m.keys[ts] - {k}) + {k};
    }
    assert m.Erase(k).keys.Keys == if m.keys[ts] == {k} then m.keys.Keys - {ts} else m.keys.Keys;
  }

  lemma InsertInRangeIff<K(!new), V>(m: Index<K, V>, k: K, v: V, now: nat)
    requires InRange(m)
    ensures InRange(m.Insert(k, v, now)) <==>
            if m.values == map[] then m.keys.Keys <= {now} else k !in m.values || RoomForBucket(m, now)
  {
    InsertSizes(m, k, v, now);
    assert k in m.Insert(k, v, now).values;
    if m.values == map[] {
      Sizes(m);
      if m.keys.Keys <= {now} {
        SubsetSize(m.keys.Keys, {now});
        assert now in m.keys || m.keys.Keys == {};
      } else {
        var t :| t in m.keys && t != now;
        assert now in m.keys ==> {t, now} <= m.keys.Keys;
        SubsetSize(if now in m.keys then {t, now} else {t}, m.keys.Keys);
      }
    }
  }

  lemma EraseInRangeIff<K(!new), V>(m: Index<K, V>, k: K)
    requires m.Covered() && InRange(m) && k in m.values
    ensures InRange(m.Erase(k)) <==> RoomForErase(m, k)
  {
    EraseSizes(m, k);
    var left := m.Erase(k).values;
    assert left == map[] <==> m.values.Keys == {k} by {
      assert left.Keys == m.values.Keys - {k} && (left == map[] <==> left.Keys == {});
      assert m.values.Keys == (m.values.Keys - {k}) + {k};
    }
  }

  function BucketsFrom<K, V>(m: Index<K, V>, cutoff: nat): set<nat> {
    set t | t in m.keys && t >= cutoff
  }

  lemma NothingOutside<T>(a: set<T>, b: set<T>)
    ensures a - b == {} <==> a <= b
  {
    forall x | x in a && a - b == {}
      ensures x in b
    {
      assert x in a - b || x in b;
    }
  }

  /** The buckets and the entries that an expiry leaves. */
  lemma ExpireSizes<K(!new), V>(m: Index<K, V>, cutoff: nat)
    ensures |m.Expire(cutoff).keys| == |BucketsFrom(m, cutoff)|
    ensures |m.Expire(cutoff).values| == |m.values.Keys - m.DueKeys(cutoff)|
    ensures m.Expire(cutoff).values == map[] <==> m.values.Keys <= m.DueKeys(cutoff)
  {
    hide Listed;
    var m' := m.Expire(cutoff);
    Sizes(m');
    assert m'.keys.Keys == BucketsFrom(m, cutoff);
    assert m'.values.Keys == m.values.Keys - m.DueKeys(cutoff);
    assert m'.values == map[] <==> m'.values.Keys == {};
    NothingOutside(m.values.Keys, m.DueKeys(cutoff));
  }

  /**
   When the drawn index stays in range, for every covered index on which it is, with empty buckets and stale keys,
   and for every operation:
   - an insert into an empty map, if no bucket of another second is left over; any other insert, if the key is new or
     there is room for its bucket;
   - an update, if the key is absent or there is room for its bucket;
   - an erase and a first-move, if there is nothing to remove or it may go;
   - an expiry, if every entry is due, or from the cutoff on there are no more buckets than entries that are not due.
   */
  lemma PickKeptIff<K(!new), V>(m: Index<K, V>, op: Op<K, V>, less: (K, K) -> bool)
    requires StrictOrder(less) && m.Covered() && InRange(m)
    ensures InRange(Apply(m, op, less)) <==>
            match op
            case Insert(k, _, now) =>
              if m.values == map[] then m.keys.Keys <= {now} else k !in m.values || RoomForBucket(m, now)
            case Touch(k, now) => k !in m.values || RoomForBucket(m, now)
            case Replace(k, _, now) => k !in m.values || RoomForBucket(m, now)
            case Erase(k) => k !in m.values || RoomForErase(m, k)
            case MoveFirst => m.values == map[] || RoomForErase(m, Least(m.values.Keys, less))
            case Expire(c) =>
              m.values.Keys <= m.DueKeys(c) ||
              |BucketsFrom(m, c)| <= |m.values.Keys - m.DueKeys(c)|
  {
    hide RoomForErase, Listed;
    match op
    case Insert(k, v, now) => InsertInRangeIff(m, k, v, now);
    case Touch(k, now) => if k in m.values { UpdateSizes(m, k, m.values[k].v, now); }
    case Replace(k, v, now) => if k in m.values { UpdateSizes(m, k, v, now); }
    case Erase(k) => if k in m.values { EraseInRangeIff(m, k); }
    case MoveFirst => if m.values != map[] { EraseInRangeIff(m, Least(m.values.Keys, less)); }
    case Expire(c) => ExpireSizes(m, c);
  }

  /** One entry, touched a second later: the smallest index on which an update takes the pick out of range. */
  lemma UpdateBreaksPick<V>(v: V)
    ensures var m := Index(map[], map[]).Insert(7, v, 1);
            m.Exact() && m.NoEmptyBucket() && InRange(m) && !InRange(m.Update(7, v, 2))
  {
    var m0 := Index(map[], map[]);
    InsertSizes(m0, 7, v, 1);
    UpdateSizes(m0.Insert(7, v, 1), 7, v, 2);
    assert 7 in m0.Insert(7, v, 1).Update(7, v, 2).values;
  }

  /** Two entries of second 1, and one of second 6 that was touched there after an insert at 5. */
  function Touched<V>(v: V): Index<nat, V> {
    Index(map[1 := Entry(1, v), 2 := Entry(1, v), 4 := Entry(6, v)], map[1 := {1, 2}, 5 := {}, 6 := {4}])
  }

  lemma TouchedIsReached<V>(v: V)
    ensures Touched(v).Exact()
    ensures Touched(v) == Index(map[1 := Entry(1, v), 2 := Entry(1, v), 4 := Entry(5, v)],
                                map[1 := {1, 2}, 5 := {4}]).Update(4, v, 6)
  {
    var m := Index(map[1 := Entry(1, v), 2 := Entry(1, v), 4 := Entry(5, v)], map[1 := {1, 2}, 5 := {4}]);
    assert m.Bucket(5) - {4} == {} && {} + {4} == {4};
    assert m.Update(4, v, 6).values == Touched(v).values;
    assert m.Update(4, v, 6).keys == Touched(v).keys;
  }

  /** That index is in range, until the two expire: then two buckets are left, and one entry. */
  lemma ExpiryBreaksPick<V>(v: V)
    ensures Touched(v).Exact() && InRange(Touched(v)) && !InRange(Touched(v).Expire(3))
  {
    TouchedIsReached(v);
    var m := Touched(v);
    TouchedSizes(v);
    assert 5 in m.keys && 6 in m.keys && m.values[4].ts == 6;
    assert forall k | k in m.values :: k == 4 || m.values[k].ts == 1;
    hide Touched;
    OneLeft(m);
  }

  lemma TouchedSizes<V>(v: V)
    ensures |Touched(v).keys| == |Touched(v).values| == 3
  {
    var m := Touched(v);
    assert m.values.Keys == {1, 2, 4} && m.keys.Keys == {1, 5, 6};
    Sizes(m);
  }

  lemma OneLeft<V>(m: Index<nat, V>)
    requires m.Exact() && 5 in m.keys && 6 in m.keys && 4 in m.values && m.values[4].ts == 6
    requires forall k | k in m.values :: k == 4 || m.values[k].ts == 1
    ensures !InRange(m.Expire(3))
  {
    assert {5, 6} <= BucketsFrom(m, 3);
    SubsetSize({5, 6}, BucketsFrom(m, 3));
    ExpireSizes(m, 3);
    NotDue(m, 3, 4);
    hide Listed, BucketsFrom;
    var left := m.values.Keys - m.DueKeys(3);
    assert |left| == 1 && 4 in left;
  }

  lemma NotDue<K(!new), V>(m: Index<K, V>, cutoff: nat, only: K)
    requires m.Exact() && only in m.values && m.values[only].ts >= cutoff
    requires forall k | k in m.values :: k == only || m.values[k].ts < cutoff
    ensures m.values.Keys - m.DueKeys(cutoff) == {only}
  {
    forall k | k in m.values
      ensures k in m.DueKeys(cutoff) <==> k != only
    {
      DueIffEarly(m, cutoff, k);
    }
  }

  // ------------------------------------------------------------------------------------------
  // The map itself

  /** The keys of the buckets that an expiry has dropped so far. */
  ghost function Dropped<K>(start: map<nat, set<K>>, keys: map<nat, set<K>>): set<K> {
    set t, k | t in start && t !in keys && k in start[t] :: k
  }

  /** What an expiry that is inside bucket t, with `rest` of it still to do, has ahead of it. */
  ghost function Ahead<K>(t: nat, rest: set<K>, keys: map<nat, set<K>>, cutoff: nat): set<(nat, K)> {
    (set k | k in rest :: (t, k)) + Listed(keys - {t}, cutoff)
  }

  lemma ListedIsAhead<K>(keys: map<nat, set<K>>, t: nat, cutoff: nat)
    requires t in keys && t < cutoff
    ensures Listed(keys, cutoff) == Ahead(t, keys[t], keys, cutoff)
  {
  }

  lemma NextAhead<K(!new)>(t: nat, rest: set<K>, keys: map<nat, set<K>>, cutoff: nat, less: (K, K) -> bool)
    requires StrictOrder(less) && rest != {} && IsFirst(t, keys.Keys)
    ensures StrictOrder(PairOrder(less))
    ensures var k, ahead := Least(rest, less), Ahead(t, rest, keys, cutoff);
            ahead != {} && Least(ahead, PairOrder(less)) == (t, k) &&
            ahead - {(t, k)} == Ahead(t, rest - {k}, keys, cutoff)
  {
    PairOrderStrict(less);
    var k, ahead := Least(rest, less), Ahead(t, rest, keys, cutoff);
    assert (t, k) in ahead;
    forall p | p in ahead
      ensures p == (t, k) || PairOrder(less)((t, k), p)
    {
    }
  }

  lemma CallsAhead<K(!new), V>(values: map<K, Entry<V>>, t: nat, rest: set<K>, keys: map<nat, set<K>>, cutoff: nat,
                               less: (K, K) -> bool)
    requires StrictOrder(less) && rest != {} && IsFirst(t, keys.Keys)
    ensures var k := Least(rest, less);
            ExpiryCalls(values, Ahead(t, rest, keys, cutoff), less)
            == [Call(k, if k in values then Some(values[k].v) else None)]
               + ExpiryCalls(values - {k}, Ahead(t, rest - {k}, keys, cutoff), less)
  {
    NextAhead(t, rest, keys, cutoff, less);
    var k, ahead := Least(rest, less), Ahead(t, rest, keys, cutoff);
    var a := Ascending(ahead, PairOrder(less));
    assert a[0] == (t, k) && a[1..] == Ascending(ahead - {(t, k)}, PairOrder(less));
  }

  /** k is the element that `draw` steps from begin() lead to. */
  ghost predicate Rank<K(!new)>(keys: set<K>, less: (K, K) -> bool, draw: nat, k: K)
    requires StrictOrder(less)
  {
    draw < |keys| && Ascending(keys, less)[draw] == k
  }

  class MyTimeoutMap<K(==, !new), V> {
    const less: (K, K) -> bool
    var values: map<K, Entry<V>>
    var keys: map<nat, set<K>>
    var timeout: nat

    ghost predicate Valid() {
      StrictOrder(less)
    }

    ghost function View(): Index<K, V>
      reads this
    {
      Index(values, keys)
    }

    constructor (order: (K, K) -> bool)
      requires StrictOrder(order)
      ensures Valid() && less == order && View() == Index(map[], map[])
    {
      less := order;
      values, keys := map[], map[];
    }

    method SetTimeout(seconds: nat)
      modifies this`timeout
      ensures timeout == seconds
    {
      timeout := seconds;
    }

    method Find(k: K) returns (v: Option<V>)
      ensures v == if k in values then Some(values[k].v) else None
    {
      v := if k in values then Some(values[k].v) else None;
    }

    method Insert(k: K, v: V, now: nat)
      modifies this`values, this`keys
      ensures View() == old(View()).Insert(k, v, now) && values == old(values)[k := Entry(now, v)]
    {
      var bucket := if now in keys then keys[now] else {};
      keys := keys[now := bucket + {k}];
      values := values[k := Entry(now, v)];
    }

    /** update(k) */
    method Touch(k: K, now: nat)
      modifies this`values, this`keys
      ensures View() == if k in old(values) then old(View()).Update(k, old(values[k].v), now) else old(View())
    {
      if k in values {
        Replace(k, values[k].v, now);
      }
    }

    /** update(k, v) */
    method Replace(k: K, v: V, now: nat)
      modifies this`values, this`keys
      ensures View() == if k in old(values) then old(View()).Update(k, v, now) else old(View())
      ensures values == if k in old(values) then old(values)[k := Entry(now, v)] else old(values)
    {
      if k !in values {
        return;
      }
      var ts := values[k].ts;
      values := values[k := Entry(now, v)];
      keys := keys[ts := (if ts in keys then keys[ts] else {}) - {k}];
      keys := keys[now := (if now in keys then keys[now] else {}) + {k}];
    }

    method Erase(k: K) returns (v: Option<V>)
      modifies this`values, this`keys
      ensures v == if k in old(values) then Some(old(values[k].v)) else None
      ensures View() == if k in old(values) then old(View()).Erase(k) else old(View())
    {
      if k !in values {
        return None;
      }
      v := Some(values[k].v);
      var ts := values[k].ts;
      values := values - {k};
      keys := keys[ts := (if ts in keys then keys[ts] else {}) - {k}];
      if keys[ts] == {} {
        keys := keys - {ts};
      }
    }

    /** Removes and returns the entry of the least key. */
    method MoveFirst() returns (v: Option<V>)
      requires Valid()
      modifies this`values, this`keys
      ensures if old(values) == map[] then v == None && View() == old(View())
              else var k := Least(old(values).Keys, less);
                   k in old(values) && (forall x | x in old(values) :: x == k || less(k, x)) &&
                   v == Some(old(values)[k].v) && View() == old(View()).Erase(k)
    {
      if values == map[] {
        return None;
      }
      assert values.Keys != {} by {
        var k :| k in values;
        assert k in values.Keys;
      }
      v := Erase(Least(values.Keys, less));
    }

    /** The entry at the drawn position; out of range is the unchecked walk past the end of the map. */
    method Random(draw: nat) returns (v: Option<V>, inRange: bool)
      requires Valid() && (values != map[] ==> draw < |keys|)
      ensures values == map[] ==> v == None && inRange
      ensures values != map[] ==> (inRange <==> draw < |values|)
      ensures InRange(View()) ==> inRange
      ensures v.Some? ==> exists k :: k in values && v.value == values[k].v && Rank(values.Keys, less, draw, k)
    {
      if values == map[] {
        return None, true;
      }
      var order := Ascending(values.Keys, less);
      AscendingElements(values.Keys, less);
      assert |values.Keys| == |values|;
      if draw >= |order| {
        return None, false;
      }
      assert order[draw] in order && Rank(values.Keys, less, draw, order[draw]);
      return Some(values[order[draw]].v), true;
    }

    /** Runs through the buckets before the cutoff; the result lists the calls of the expiry function in order. */
    method DoTimeout(now: nat) returns (calls: seq<Call<K, V>>)
      requires Valid()
      modifies this`values, this`keys
      ensures var cutoff := (now - timeout) % U32;
              View() == old(View()).Expire(cutoff) && calls == ExpiryCalls(old(values), old(View()).Due(cutoff), less)
    {
      var cutoff := (now - timeout) % U32;
      ghost var start := View();
      calls := ExpireBuckets(cutoff);
      DroppedAll(start, keys, cutoff);
    }

    /** The outer loop of an expiry, over the buckets before the cutoff. */
    method ExpireBuckets(cutoff: nat) returns (calls: seq<Call<K, V>>)
      requires Valid()
      modifies this`values, this`keys
      ensures calls == ExpiryCalls(old(values), Listed(old(keys), cutoff), less)
      ensures values == old(values) - Dropped(old(keys), keys)
      ensures forall t | t in keys :: t in old(keys) && keys[t] == old(keys)[t] && t >= cutoff
      ensures forall t | t in old(keys) && t >= cutoff :: t in keys
    {
      hide ExpiryCalls, Listed, Dropped;
      calls := [];
      ghost var all := ExpiryCalls(values, Listed(keys, cutoff), less);
      NothingDropped(values, keys);
      while true
        invariant all == calls + ExpiryCalls(values, Listed(keys, cutoff), less)
        invariant values == old(values) - Dropped(old(keys), keys)
        invariant forall t | t in keys :: t in old(keys) && keys[t] == old(keys)[t]
        invariant forall t | t in old(keys) && t >= cutoff :: t in keys
        decreases |keys|
      {
        if keys == map[] {
          break;
        }
        FirstExists(keys.Keys);
        var t: nat :| IsFirst(t, keys.Keys);
        if t >= cutoff {
          break;
        }
        ListedIsAhead(keys, t, cutoff);
        var more := ExpireBucket(t, cutoff);
        PlusAssoc(calls, more, ExpiryCalls(values, Listed(keys - {t}, cutoff), less));
        calls := calls + more;
        DroppedNext(old(values), old(keys), keys, t);
        keys := keys - {t};
      }
      NothingAhead(values, keys, cutoff, less);
      assert calls + [] == calls;
    }

    /** The inner loop of an expiry, over bucket t. */
    method ExpireBucket(t: nat, cutoff: nat) returns (calls: seq<Call<K, V>>)
      requires Valid() && IsFirst(t, keys.Keys) && t < cutoff
      modifies this`values
      ensures values == old(values) - keys[t]
      ensures ExpiryCalls(old(values), Ahead(t, keys[t], keys, cutoff), less)
           == calls + ExpiryCalls(values, Listed(keys - {t}, cutoff), less)
    {
      hide ExpiryCalls;
      calls := [];
      var rest := keys[t];
      while rest != {}
        invariant rest <= keys[t] && values == old(values) - (keys[t] - rest)
        invariant ExpiryCalls(old(values), Ahead(t, keys[t], keys, cutoff), less)
               == calls + ExpiryCalls(values, Ahead(t, rest, keys, cutoff), less)
      {
        CallsAhead(values, t, rest, keys, cutoff, less);
        var k := Least(rest, less);
        var call := Call(k, if k in values then Some(values[k].v) else None);
        PlusAssoc(calls, [call], ExpiryCalls(values - {k}, Ahead(t, rest - {k}, keys, cutoff), less));
        calls := calls + [call];
        values := values - {k};
        rest := rest - {k};
      }
      assert Ahead(t, {}, keys, cutoff) == Listed(keys - {t}, cutoff);
    }
  }

  lemma NothingDropped<K, V>(values: map<K, Entry<V>>, keys: map<nat, set<K>>)
    ensures values == values - Dropped(keys, keys)
  {
  }

  lemma NothingAhead<K(!new), V>(values: map<K, Entry<V>>, keys: map<nat, set<K>>, cutoff: nat, less: (K, K) -> bool)
    requires StrictOrder(less) && forall t | t in keys :: t >= cutoff
    ensures ExpiryCalls(values, Listed(keys, cutoff), less) == []
  {
    assert Listed(keys, cutoff) == {};
  }

  lemma DroppedNext<K, V>(values: map<K, Entry<V>>, start: map<nat, set<K>>, keys: map<nat, set<K>>, t: nat)
    requires t in keys && t in start && keys[t] == start[t]
    ensures (values - Dropped(start, keys)) - keys[t] == values - Dropped(start, keys - {t})
  {
    forall k | k in Dropped(start, keys) + keys[t]
      ensures k in Dropped(start, keys - {t})
    {
      if k in Dropped(start, keys) {
        var x :| x in start && x !in keys && k in start[x];
        assert x !in keys - {t};
      } else {
        assert t !in keys - {t} && k in start[t];
      }
    }
    assert Dropped(start, keys - {t}) == Dropped(start, keys) + keys[t];
  }

  lemma DroppedAll<K, V>(start: Index<K, V>, keys: map<nat, set<K>>, cutoff: nat)
    requires forall t | t in keys :: t in start.keys && keys[t] == start.keys[t] && t >= cutoff
    requires forall t | t in start.keys && t >= cutoff :: t in keys
    ensures Index(start.values - Dropped(start.keys, keys), keys) == start.Expire(cutoff)
  {
    forall k
      ensures k in Dropped(start.keys, keys) <==> k in start.DueKeys(cutoff)
    {
      if k in Dropped(start.keys, keys) {
        var t :| t in start.keys && t !in keys && k in start.keys[t];
        assert (t, k) in start.Due(cutoff);
      }
      if k in start.DueKeys(cutoff) {
        var p :| p in start.Due(cutoff) && p.1 == k;
        assert p.0 in start.keys && p.0 !in keys;
      }
    }
  }
}
