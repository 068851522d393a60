/** The substate store interface: keys, updates, what a committed state reads and lists,
    and the in-memory database that is the reference for every other store. */
module Store {
  import opened Bytes
  import opened Ordered

  type SortKey = Bytes
  type Value = Bytes

  datatype PartitionKey = PartitionKey(node: Bytes, num: Byte)

  /** The derived `Ord` of `DbPartitionKey`. */
  predicate PartitionLt(a: PartitionKey, b: PartitionKey) {
    Lt(a.node, b.node) || (a.node == b.node && a.num < b.num)
  }

  datatype DatabaseUpdate = Set(value: Value) | Delete

  datatype PartitionUpdates =
    | Delta(updates: map<SortKey, DatabaseUpdate>)
    | Reset(values: map<SortKey, Value>)

  type NodeUpdates = map<Byte, PartitionUpdates>
  type DatabaseUpdates = map<Bytes, NodeUpdates>

  type Partition = map<SortKey, Value>

  /** The field of the in-memory database: partition contents by partition key. */
  type State = map<PartitionKey, Partition>

  lemma {:induction false} LtOrder()
    ensures StrictTotalOrder(Lt)
  {
    forall a ensures !Lt(a, a) { LtIrreflexive(a); }
    forall a, b, c | Lt(a, b) && Lt(b, c) ensures Lt(a, c) { LtTransitive(a, b, c); }
    forall a, b ensures a == b || Lt(a, b) || Lt(b, a) { LtTotal(a, b); }
  }

  lemma {:induction false} PartitionLtOrder()
    ensures StrictTotalOrder(PartitionLt)
  {
    LtOrder();
    assert forall a: PartitionKey, b: PartitionKey :: a.node == b.node || Lt(a.node, b.node) || Lt(b.node, a.node);
  }

  // ---------------------------------------------------------------------------------------
  // Updates
  // ---------------------------------------------------------------------------------------

  function UpdateOf(u: DatabaseUpdates, pk: PartitionKey): Option<PartitionUpdates> {
    if pk.node in u && pk.num in u[pk.node] then Some(u[pk.node][pk.num]) else None
  }

  /** The partitions an update mentions. */
  function Touched(u: DatabaseUpdates): set<PartitionKey> {
    set n, p | n in u && p in u[n] :: PartitionKey(n, p)
  }

  /** An update of one partition alone. */
  function OnePartition(pk: PartitionKey, pu: PartitionUpdates): DatabaseUpdates {
    map[pk.node := map[pk.num := pu]]
  }

  function Change(u: DatabaseUpdate): Option<Value> {
    match u
    case Set(v) => Some(v)
    case Delete => None
  }

  function Changes(d: map<SortKey, DatabaseUpdate>): map<SortKey, Option<Value>> {
    map k | k in d :: Change(d[k])
  }

  /** The effect of a partition update on the contents of its partition. */
  function Applied(p: Partition, u: PartitionUpdates): Partition {
    match u
    case Delta(updates) => Overlaid(p, Changes(updates))
    case Reset(values) => values
  }

  /** The effective change of one substate, `None` only if it is unaffected. */
  function SubstateChange(u: PartitionUpdates, k: SortKey): Option<DatabaseUpdate> {
    match u
    case Delta(updates) => Get(updates, k)
    case Reset(values) => if k in values then Some(Set(values[k])) else Some(Delete)
  }

  /** Replacing each substate by its effective change is applying the whole partition update. */
  lemma {:induction false} SubstateChangeIsEffect(p: Partition, u: PartitionUpdates, k: SortKey)
    ensures Get(Applied(p, u), k) ==
            match SubstateChange(u, k) {
              case Some(Set(v)) => Some(v)
              case Some(Delete) => None
              case None => Get(p, k)
            }
  {
  }

  /** The nested updates say of every partition what the flat map of deltas says of it,
      and mention no node without a partition. */
  method FromDeltaMaps(maps: map<PartitionKey, map<SortKey, DatabaseUpdate>>) returns (u: DatabaseUpdates)
    ensures forall pk: PartitionKey :: UpdateOf(u, pk) == if pk in maps then Some(Delta(maps[pk])) else None
    ensures forall n :: n in u ==> u[n] != map[]
  {
    u := map[];
    var left := maps.Keys;
    while left != {}
      invariant left <= maps.Keys
      invariant forall pk: PartitionKey ::
                  UpdateOf(u, pk) == if pk in maps && pk !in left then Some(Delta(maps[pk])) else None
      invariant forall n :: n in u ==> u[n] != map[]
    {
      var pk :| pk in left;
      var node := if pk.node in u then u[pk.node] else map[];
      ghost var before := u;
      u := u[pk.node := node[pk.num := Delta(maps[pk])]];
      forall x: PartitionKey ensures UpdateOf(u, x) == if x == pk then Some(Delta(maps[pk])) else UpdateOf(before, x) {
        assert x.node == pk.node && x.num == pk.num ==> x == pk;
      }
      assert pk.num in u[pk.node];
      left := left - {pk};
    }
  }

  // ---------------------------------------------------------------------------------------
  // Committed states
  // ---------------------------------------------------------------------------------------

  function Part(db: State, pk: PartitionKey): Partition {
    if pk in db then db[pk] else map[]
  }

  function WithPartition(db: State, pk: PartitionKey, p: Partition): State {
    if p == map[] then db - {pk} else db[pk := p]
  }

  /** The state after a commit: each mentioned partition takes its update and is
      present only if that leaves something in it; every other partition is kept. */
  function Committed(db: State, u: DatabaseUpdates): State {
    map pk | pk in db.Keys + Touched(u)
             && (pk in Touched(u) ==> Applied(Part(db, pk), u[pk.node][pk.num]) != map[]) ::
      if pk in Touched(u) then Applied(Part(db, pk), u[pk.node][pk.num]) else db[pk]
  }

  /** What one partition becomes under an optional update. */
  function Outcome(db: State, pk: PartitionKey, pu: Option<PartitionUpdates>): Option<Partition> {
    if pu.None? then Get(db, pk)
    else
      var p := Applied(Part(db, pk), pu.value);
      if p == map[] then None else Some(p)
  }

  lemma {:induction false} CommittedAt(db: State, u: DatabaseUpdates, pk: PartitionKey)
    ensures pk in Touched(u) <==> UpdateOf(u, pk).Some?
    ensures Get(Committed(db, u), pk) == Outcome(db, pk, UpdateOf(u, pk))
    ensures Part(Committed(db, u), pk) ==
            match UpdateOf(u, pk) { case Some(pu) => Applied(Part(db, pk), pu) case None => Part(db, pk) }
  {
  }

  function CommittedAll(db: State, us: seq<DatabaseUpdates>): State {
    if us == [] then db else Committed(CommittedAll(db, us[..|us| - 1]), us[|us| - 1])
  }

  function GetRaw(db: State, pk: PartitionKey, k: SortKey): Option<Value> {
    if pk in db then Get(db[pk], k) else None
  }

  /** `skip_while` over the partition's `BTreeMap` iterator. */
  ghost function ListRaw(db: State, pk: PartitionKey, from: Option<SortKey>): seq<(SortKey, Value)> {
    LtOrder();
    SkipBelow(Lt, Entries(Lt, Part(db, pk)), from)
  }

  /** The listing is the partition's entries at or after the start key, in sort-key order. */
  lemma {:induction false} ListRawIsRange(db: State, pk: PartitionKey, from: Option<SortKey>)
    ensures StrictTotalOrder(Lt)
    ensures ListRaw(db, pk, from) == Entries(Lt, From(Lt, Part(db, pk), from))
  {
    LtOrder();
    SkipBelowEntries(Lt, Part(db, pk), from);
  }

  /** `partitions.iter().map(|(key, _)| key)`. */
  ghost function ListPartitions(db: State): seq<PartitionKey> {
    PartitionLtOrder();
    Keys(Entries(PartitionLt, db))
  }

  /** Exactly the present partitions, ascending. */
  lemma {:induction false} ListPartitionsIsSorted(db: State)
    ensures StrictTotalOrder(PartitionLt)
    ensures ListPartitions(db) == SortedSet(PartitionLt, db.Keys)
  {
    PartitionLtOrder();
    var e := Entries(PartitionLt, db);
    EntriesList(PartitionLt, db);
    KeysAt(e);
    forall pk ensures pk in Keys(e) <==> pk in db.Keys {
      assert Lookup(e, pk) == Get(db, pk);
      if pk in db {
        var i := LookupIndex(e, pk);
        assert Keys(e)[i] == pk;
      } else if pk in Keys(e) {
        var i :| 0 <= i < |e| && Keys(e)[i] == pk;
        LookupAt(PartitionLt, e, i);
      }
    }
    SortedSetUnique(PartitionLt, Keys(e), db.Keys);
  }

  // ---------------------------------------------------------------------------------------
  // InMemorySubstateDatabase
  // ---------------------------------------------------------------------------------------

  class InMemoryDatabase {
    var partitions: State

    constructor ()
      ensures partitions == map[]
    {
      partitions := map[];
    }

    function GetRawSubstate(pk: PartitionKey, k: SortKey): Option<Value>
      reads this
    {
      GetRaw(partitions, pk, k)
    }

    method Commit(u: DatabaseUpdates)
      modifies this
      ensures partitions == Committed(old(partitions), u)
    {
      var nodes := u.Keys;
      while nodes != {}
        invariant nodes <= u.Keys
        invariant forall pk: PartitionKey :: Get(partitions, pk) ==
                    Outcome(old(partitions), pk, if pk.node in nodes then None else UpdateOf(u, pk))
      {
        var n :| n in nodes;
        label Before:
        assert forall pk: PartitionKey :: pk.node == n ==> Get(partitions, pk) == Get(old(partitions), pk);
        CommitNode(n, u[n]);
        forall pk: PartitionKey | pk.node == n
          ensures Get(partitions, pk) == Outcome(old(partitions), pk, UpdateOf(u, pk))
        {
          assert Get(old@Before(partitions), pk) == Get(old(partitions), pk);
        }
        nodes := nodes - {n};
      }
      forall pk ensures Get(partitions, pk) == Get(Committed(old(partitions), u), pk) {
        CommittedAt(old(partitions), u, pk);
      }
      SameLookups(partitions, Committed(old(partitions), u));
    }

    method CommitNode(n: Bytes, updates: NodeUpdates)
      modifies this
      ensures forall pk: PartitionKey :: Get(partitions, pk) ==
                Outcome(old(partitions), pk, if pk.node == n then Get(updates, pk.num) else None)
    {
      var nums := updates.Keys;
      while nums != {}
        invariant nums <= updates.Keys
        invariant forall pk: PartitionKey :: Get(partitions, pk) ==
                    Outcome(old(partitions), pk,
                            if pk.node == n && pk.num !in nums then Get(updates, pk.num) else None)
      {
        var num :| num in nums;
        var pk := PartitionKey(n, num);
        assert Get(partitions, pk) == Get(old(partitions), pk);
        CommitPartition(pk, updates[num]);
        nums := nums - {num};
      }
    }

    method CommitPartition(pk: PartitionKey, pu: PartitionUpdates)
      modifies this
      ensures partitions == WithPartition(old(partitions), pk, Applied(Part(old(partitions), pk), pu))
    {
      var partition := if pk in partitions then partitions[pk] else map[];
      match pu {
        case Delta(updates) =>
          var before := partition;
          var left := updates.Keys;
          while left != {}
            invariant left <= updates.Keys
            invariant forall k ::
                        Get(partition, k) == if k in updates && k !in left then Change(updates[k]) else Get(before, k)
          {
            var k :| k in left;
            match updates[k] {
              case Set(v) => partition := partition[k := v];
              case Delete => partition := partition - {k};
            }
            left := left - {k};
          }
          forall k ensures Get(partition, k) == Get(Applied(before, pu), k) {
            SubstateChangeIsEffect(before, pu, k);
          }
          SameLookups(partition, Applied(before, pu));
        case Reset(values) =>
          partition := values;
      }
      if partition == map[] {
        partitions := partitions - {pk};
      } else {
        partitions := partitions[pk := partition];
      }
    }
  }

  lemma {:induction false} SameLookups<K(!new), V>(a: map<K, V>, b: map<K, V>)
    requires forall k :: Get(a, k) == Get(b, k)
    ensures a == b
  {
    forall k ensures k in a <==> k in b {
      assert Get(a, k) == Get(b, k);
    }
    forall k | k in a ensures a[k] == b[k] {
      assert Get(a, k) == Get(b, k);
    }
  }
}
