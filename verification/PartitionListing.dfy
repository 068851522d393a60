/** `list_partition_keys` through overlays. */
module PartitionListing {
  import opened Bytes
  import opened Ordered
  import opened Store
  import opened RocksDb
  import opened RocksSimulation
  import opened Overlay

  predicate NumLt(a: Byte, b: Byte) {
    a < b
  }

  lemma {:induction false} NumLtOrder()
    ensures StrictTotalOrder(NumLt)
  {
  }

  type StagedKeys = seq<(PartitionKey, Option<()>)>

  /** The `(partition_key, Some(()))` pairs of one staged node. */
  function NodeKeys(n: Bytes, nums: seq<(Byte, PartitionUpdates)>): StagedKeys {
    if nums == [] then [] else [(PartitionKey(n, nums[0].0), Some(()))] + NodeKeys(n, nums[1..])
  }

  /** `node_updates.iter().flat_map(..)`. */
  ghost function FlatKeys(nodes: seq<(Bytes, NodeUpdates)>): StagedKeys {
    NumLtOrder();
    if nodes == [] then []
    else NodeKeys(nodes[0].0, Entries(NumLt, nodes[0].1)) + FlatKeys(nodes[1..])
  }

  /** An overlay's listing, given what its root lists. */
  ghost function OverPartitions(root: seq<PartitionKey>, overlay: DatabaseUpdates): seq<PartitionKey> {
    LtOrder();
    Keys(Merged(PartitionLt, Units(root), FlatKeys(Entries(Lt, overlay))))
  }

  ghost function ListPartitionKeys(db: Database): seq<PartitionKey>
    requires Sound(db)
  {
    match db
    case Memory(state) => ListPartitions(state)
    case Rocks(flat) => ListRocksPartitions(flat)
    case Staged(overlay, root) => OverPartitions(ListPartitionKeys(root), overlay)
  }

  /** The partitions that some level of the stack mentions. */
  ghost function Mentioned(db: Database): set<PartitionKey> {
    match db
    case Memory(state) => state.Keys
    case Rocks(flat) => Unflattened(flat).Keys
    case Staged(overlay, root) => Mentioned(root) + Touched(overlay)
  }

  lemma {:induction false} LookupConcat<K, V>(a: seq<(K, V)>, b: seq<(K, V)>, k: K)
    ensures Lookup(a + b, k) == if Lookup(a, k).Some? then Lookup(a, k) else Lookup(b, k)
  {
    if a == [] {
      assert a + b == b;
    } else {
      assert (a + b)[1..] == a[1..] + b;
      LookupConcat(a[1..], b, k);
    }
  }

  lemma {:induction false} NodeKeysAt(n: Bytes, nums: seq<(Byte, PartitionUpdates)>)
    ensures |NodeKeys(n, nums)| == |nums|
    ensures forall i :: 0 <= i < |nums| ==> NodeKeys(n, nums)[i] == (PartitionKey(n, nums[i].0), Some(()))
  {
    if nums == [] {
    } else {
      NodeKeysAt(n, nums[1..]);
    }
  }

  lemma {:induction false} NodeKeysLookup(n: Bytes, nums: seq<(Byte, PartitionUpdates)>, pk: PartitionKey)
    ensures Lookup(NodeKeys(n, nums), pk) ==
            if pk.node == n && Lookup(nums, pk.num).Some? then Some(Some(())) else None
  {
    if nums == [] {
    } else {
      NodeKeysLookup(n, nums[1..], pk);
      assert NodeKeys(n, nums)[1..] == NodeKeys(n, nums[1..]);
    }
  }

  lemma {:induction false} NodeKeysOfMap(n: Bytes, m: NodeUpdates, pk: PartitionKey)
    requires StrictTotalOrder(NumLt)
    ensures Lookup(NodeKeys(n, Entries(NumLt, m)), pk) ==
            if pk.node == n && pk.num in m then Some(Some(())) else None
  {
    NodeKeysLookup(n, Entries(NumLt, m), pk);
    EntriesList(NumLt, m);
    assert Lookup(Entries(NumLt, m), pk.num) == Get(m, pk.num);
  }

  lemma {:induction false} NodeKeysAscend(n: Bytes, m: NodeUpdates)
    requires StrictTotalOrder(NumLt)
    ensures var keys := NodeKeys(n, Entries(NumLt, m));
            && Ascending(PartitionLt, keys)
            && forall i :: 0 <= i < |keys| ==> keys[i].0.node == n && keys[i].1.Some?
  {
    EntriesList(NumLt, m);
    NodeKeysAt(n, Entries(NumLt, m));
  }

  /** The flattened keys ascend through the nodes, and are those of the nodes' maps. */
  lemma {:induction false} FlatKeysAscending(nodes: seq<(Bytes, NodeUpdates)>)
    requires StrictTotalOrder(Lt) && StrictTotalOrder(PartitionLt) && Ascending(Lt, nodes)
    ensures Ascending(PartitionLt, FlatKeys(nodes))
    ensures forall i :: 0 <= i < |FlatKeys(nodes)| ==>
              FlatKeys(nodes)[i].1.Some? && Lookup(nodes, FlatKeys(nodes)[i].0.node).Some?
    ensures forall pk: PartitionKey :: Lookup(FlatKeys(nodes), pk) ==
              if Lookup(nodes, pk.node).Some? && pk.num in Lookup(nodes, pk.node).value
              then Some(Some(())) else None
  {
    if nodes == [] {
    } else {
      NumLtOrder();
      var (n, m) := nodes[0];
      var first, rest := NodeKeys(n, Entries(NumLt, m)), FlatKeys(nodes[1..]);
      FlatKeysAscending(nodes[1..]);
      NodeKeysAscend(n, m);
      LookupBelow(Lt, n, nodes[1..]);
      forall i | 0 <= i < |rest| ensures Lt(n, rest[i].0.node) {
        var j := LookupIndex(nodes[1..], rest[i].0.node);
        assert nodes[1..][j] == nodes[j + 1];
      }
      forall pk: PartitionKey ensures Lookup(FlatKeys(nodes), pk) ==
                if Lookup(nodes, pk.node).Some? && pk.num in Lookup(nodes, pk.node).value
                then Some(Some(())) else None
      {
        LookupConcat(first, rest, pk);
        NodeKeysOfMap(n, m, pk);
      }
    }
  }

  /** Over a root that lists a set of partitions ascending, the overlay lists,
      ascending and once each, the root's partitions and the staged ones. */
  lemma {:induction false} OverPartitionsSorted(s: set<PartitionKey>, overlay: DatabaseUpdates)
    ensures StrictTotalOrder(PartitionLt)
    ensures OverPartitions(SortedSet(PartitionLt, s), overlay) == SortedSet(PartitionLt, s + Touched(overlay))
  {
    PartitionLtOrder();
    LtOrder();
    var under, over := SortedSet(PartitionLt, s), FlatKeys(Entries(Lt, overlay));
    SortedSetMembers(PartitionLt, s);
    EntriesList(Lt, overlay);
    FlatKeysAscending(Entries(Lt, overlay));
    UnitsAt(under);
    MergedLookup(PartitionLt, Units(under), over);
    var merged := Merged(PartitionLt, Units(under), over);
    KeysAt(merged);
    forall pk ensures pk in Keys(merged) <==> pk in s + Touched(overlay) {
      UnitsLookup(under, pk);
      CommittedAt(map[], overlay, pk);
      assert Lookup(Entries(Lt, overlay), pk.node) == Get(overlay, pk.node);
      if Lookup(merged, pk).Some? {
        var i := LookupIndex(merged, pk);
        assert Keys(merged)[i] == pk;
      } else if pk in Keys(merged) {
        var i :| 0 <= i < |merged| && Keys(merged)[i] == pk;
        LookupAt(PartitionLt, merged, i);
      }
    }
    SortedSetUnique(PartitionLt, Keys(merged), s + Touched(overlay));
  }

  /** An ascending overlay listing shows that the root's own listing was ascending. */
  lemma {:induction false} OverPartitionsOrdered(root: seq<PartitionKey>, overlay: DatabaseUpdates)
    requires AscendingKeys(PartitionLt, OverPartitions(root, overlay))
    ensures AscendingKeys(PartitionLt, root)
  {
    PartitionLtOrder();
    LtOrder();
    var over := FlatKeys(Entries(Lt, overlay));
    EntriesList(Lt, overlay);
    FlatKeysAscending(Entries(Lt, overlay));
    MergedKeysOrdered(PartitionLt, root, over);
  }

  /** The bottom store scans its partitions in the derived order. */
  ghost predicate InOrder(db: Database) {
    match db
    case Memory(_) => true
    case Rocks(flat) => LengthFollowsOrder(Unflattened(flat).Keys)
    case Staged(_, root) => InOrder(root)
  }

  /** Staged partitions are listed beside those of the root, in whatever order the root lists. */
  lemma {:induction false} OverPartitionsMembers(root: seq<PartitionKey>, overlay: DatabaseUpdates, pk: PartitionKey)
    ensures pk in OverPartitions(root, overlay) <==> pk in root || pk in Touched(overlay)
  {
    PartitionLtOrder();
    LtOrder();
    var over := FlatKeys(Entries(Lt, overlay));
    EntriesList(Lt, overlay);
    FlatKeysAscending(Entries(Lt, overlay));
    MergedMembers(PartitionLt, Units(root), over, pk);
    UnitsAt(root);
    CommittedAt(map[], overlay, pk);
    assert Lookup(Entries(Lt, overlay), pk.node) == Get(overlay, pk.node);
    KeysLookup(over, pk);
  }

  /** Exactly the mentioned partitions are listed. */
  lemma {:induction false} ListsMembers(db: Database, pk: PartitionKey)
    requires Sound(db)
    ensures pk in ListPartitionKeys(db) <==> pk in Mentioned(db)
  {
    match db {
      case Memory(state) =>
        ListPartitionsIsSorted(state);
        SortedSetMembers(PartitionLt, state.Keys);
      case Rocks(flat) =>
        UnflattenedSimulates(flat);
        PartitionsAgree(flat, Unflattened(flat));
        SortedSetMembers(RocksLt, Unflattened(flat).Keys);
      case Staged(overlay, root) =>
        ListsMembers(root, pk);
        OverPartitionsMembers(ListPartitionKeys(root), overlay, pk);
    }
  }

  /** Through any stack the listing is strictly ascending, once each, over the partitions that some
      level mentions, if and only if the bottom store scans its own in order. */
  lemma {:induction false} ListsMentionedIff(db: Database)
    requires Sound(db)
    ensures StrictTotalOrder(PartitionLt)
    ensures ListPartitionKeys(db) == SortedSet(PartitionLt, Mentioned(db)) <==> InOrder(db)
  {
    PartitionLtOrder();
    match db {
      case Memory(state) => ListPartitionsIsSorted(state);
      case Rocks(flat) =>
        UnflattenedSimulates(flat);
        PartitionsAgree(flat, Unflattened(flat));
        ScanOrderIsOrdIff(Unflattened(flat).Keys);
      case Staged(overlay, root) =>
        ListsMentionedIff(root);
        OverPartitionsIff(ListPartitionKeys(root), Mentioned(root), overlay) by {
          forall pk ensures pk in ListPartitionKeys(root) <==> pk in Mentioned(root) {
            ListsMembers(root, pk);
          }
        }
    }
  }

  /** An overlay sorts its listing exactly if its root does. */
  lemma {:induction false} OverPartitionsIff(listed: seq<PartitionKey>, s: set<PartitionKey>, overlay: DatabaseUpdates)
    requires forall pk :: pk in listed <==> pk in s
    ensures StrictTotalOrder(PartitionLt)
    ensures OverPartitions(listed, overlay) == SortedSet(PartitionLt, s + Touched(overlay)) <==>
            listed == SortedSet(PartitionLt, s)
  {
    PartitionLtOrder();
    if listed == SortedSet(PartitionLt, s) {
      OverPartitionsSorted(s, overlay);
    }
    if OverPartitions(listed, overlay) == SortedSet(PartitionLt, s + Touched(overlay)) {
      SortedSetMembers(PartitionLt, s + Touched(overlay));
      OverPartitionsOrdered(listed, overlay);
      SortedSetUnique(PartitionLt, listed, s);
    }
  }

  /** Over an in-memory root the listing is always strictly ascending and once each. */
  lemma {:induction false} ListsMentioned(db: Database)
    requires !OnRocks(db)
    ensures Sound(db) && StrictTotalOrder(PartitionLt)
    ensures ListPartitionKeys(db) == SortedSet(PartitionLt, Mentioned(db))
  {
    MemoryIsSound(db);
    MemoryIsInOrder(db);
    ListsMentionedIff(db);
  }

  lemma {:induction false} MemoryIsInOrder(db: Database)
    requires !OnRocks(db)
    ensures InOrder(db)
  {
    match db {
      case Memory(_) =>
      case Staged(_, root) => MemoryIsInOrder(root);
    }
  }

  // ---------------------------------------------------------------------------------------
  // RocksDB scans shorter node keys first
  // ---------------------------------------------------------------------------------------

  const SHORT_FIRST: PartitionKey := PartitionKey([1], 0)
  const LONG_SECOND: PartitionKey := PartitionKey([0, 0], 0)

  /** One substate in each of two partitions, committed to the empty RocksDB store. */
  function TwoPartitions(v: Value): DatabaseUpdates {
    map[[1] := map[0 := Delta(map[[] := Set(v)])], [0, 0] := map[0 := Delta(map[[] := Set(v)])]]
  }

  lemma {:induction false} TwoPartitionsAt(v: Value, pk: PartitionKey)
    ensures pk in Committed(map[], TwoPartitions(v)) <==> pk == SHORT_FIRST || pk == LONG_SECOND
  {
    var u := TwoPartitions(v);
    CommittedAt(map[], u, pk);
    if UpdateOf(u, pk).Some? {
      SubstateChangeIsEffect(map[], UpdateOf(u, pk).value, []);
    }
  }

  lemma {:induction false} TwoPartitionsCommitted(v: Value)
    ensures CommittedAll(map[], [TwoPartitions(v)]).Keys == {SHORT_FIRST, LONG_SECOND}
  {
    forall pk ensures pk in Committed(map[], TwoPartitions(v)) <==> pk in {SHORT_FIRST, LONG_SECOND} {
      TwoPartitionsAt(v, pk);
    }
  }

  lemma {:induction false} TwoPartitionsAreShort(v: Value)
    ensures ShortRun([TwoPartitions(v)])
  {
    ShorterIsShort([]);
  }

  /** The first byte of a short string decides against the scan order. */
  lemma {:induction false} ScanIsNotInOrder()
    ensures RocksLt(SHORT_FIRST, LONG_SECOND) && PartitionLt(LONG_SECOND, SHORT_FIRST)
    ensures !LengthFollowsOrder({SHORT_FIRST, LONG_SECOND})
  {
    assert SHORT_FIRST in {SHORT_FIRST, LONG_SECOND} && LONG_SECOND in {SHORT_FIRST, LONG_SECOND};
  }

  /** An overlay that stages a change to the second of two partitions, listed out of order,
      lists that partition twice. */
  lemma {:induction false} ListedTwice(x: PartitionKey, y: PartitionKey, k: SortKey)
    requires PartitionLt(y, x)
    ensures OverPartitions([x, y], Deletion(y, k)) == [y, x, y]
  {
    LtOrder();
    PartitionLtOrder();
    StagedKeysOfOne(y, Delta(map[k := Delete]));
    UnitsAt([x, y]);
    assert Units([x, y]) == [(x, ()), (y, ())];
    MergedOutOfOrder(PartitionLt, x, y);
    KeysAt([(y, ()), (x, ()), (y, ())]);
  }

  lemma {:induction false} StagedKeysOfOne(pk: PartitionKey, pu: PartitionUpdates)
    requires StrictTotalOrder(Lt)
    ensures FlatKeys(Entries(Lt, OnePartition(pk, pu))) == [(pk, Some(()))]
  {
    NumLtOrder();
    var nums: NodeUpdates := map[pk.num := pu];
    EntriesOfOne(NumLt, pk.num, pu);
    EntriesOfOne(Lt, pk.node, nums);
    assert NodeKeys(pk.node, [(pk.num, pu)]) == [(pk, Some(()))];
    var nodes := [(pk.node, nums)];
    assert nodes[1..] == [];
    assert FlatKeys(nodes) == [(pk, Some(()))] + FlatKeys([]);
  }

  /** After one commit to the empty RocksDB store, an overlay that stages a change to one of the
      two partitions lists that partition twice. */
  lemma {:induction false} PartitionListedTwice(v: Value)
    ensures ShortRun([TwoPartitions(v)])
    ensures var flat := FlatCommittedAll(map[], [TwoPartitions(v)]);
            var db := Staged(Deletion(LONG_SECOND, []), Rocks(flat));
            && Sound(db)
            && ListPartitionKeys(Rocks(flat)) == [SHORT_FIRST, LONG_SECOND]
            && ListPartitionKeys(db) == [LONG_SECOND, SHORT_FIRST, LONG_SECOND]
  {
    TwoPartitionsAreShort(v);
    RunIsSound([TwoPartitions(v)]);
    TwoPartitionsListed(v);
    DeletionIsShort(LONG_SECOND);
    ScanIsNotInOrder();
    ListedTwice(SHORT_FIRST, LONG_SECOND, []);
  }

  lemma {:induction false} TwoPartitionsListed(v: Value)
    requires ShortRun([TwoPartitions(v)]) && Sound(Rocks(FlatCommittedAll(map[], [TwoPartitions(v)])))
    ensures ListRocksPartitions(FlatCommittedAll(map[], [TwoPartitions(v)])) == [SHORT_FIRST, LONG_SECOND]
  {
    var us := [TwoPartitions(v)];
    var mem := CommittedAll(map[], us);
    TwoPartitionsCommitted(v);
    RunsSimulate(us);
    PartitionsAgree(FlatCommittedAll(map[], us), mem);
    SortedTwo();
  }

  lemma {:induction false} SortedTwo()
    ensures StrictTotalOrder(RocksLt)
    ensures SortedSet(RocksLt, {SHORT_FIRST, LONG_SECOND}) == [SHORT_FIRST, LONG_SECOND]
  {
    RocksLtOrder();
    ScanIsNotInOrder();
    SortedSetUnique(RocksLt, [SHORT_FIRST, LONG_SECOND], {SHORT_FIRST, LONG_SECOND});
  }

  lemma {:induction false} DeletionIsShort(pk: PartitionKey)
    requires Encodable(pk)
    ensures ShortUpdates(Deletion(pk, []))
  {
    ShorterIsShort([]);
  }

  // ---------------------------------------------------------------------------------------
  // Emptied partitions stay listed
  // ---------------------------------------------------------------------------------------

  /** No present partition is missed. */
  lemma {:induction false} ViewIsMentioned(db: Database)
    ensures View(db).Keys <= Mentioned(db)
  {
    match db {
      case Memory(_) =>
      case Rocks(_) =>
      case Staged(_, root) => ViewIsMentioned(root);
    }
  }

  /** The staged partitions that an update leaves empty. */
  function Emptied(state: State, u: DatabaseUpdates): set<PartitionKey> {
    set pk | pk in Touched(u) && Applied(Part(state, pk), u[pk.node][pk.num]) == map[]
  }

  /** Level by level: a level adds what it empties and takes away what it fills again. */
  ghost function Phantoms(db: Database): set<PartitionKey> {
    match db
    case Memory(_) => {}
    case Rocks(_) => {}
    case Staged(overlay, root) => (Phantoms(root) - Touched(overlay)) + Emptied(View(root), overlay)
  }

  /** The listing is off by exactly the phantoms. */
  lemma {:induction false} PhantomsAreTheRest(db: Database)
    ensures Mentioned(db) - View(db).Keys == Phantoms(db)
  {
    match db {
      case Memory(_) =>
      case Rocks(_) =>
      case Staged(overlay, root) =>
        PhantomsAreTheRest(root);
        forall pk ensures pk in Mentioned(db) - View(db).Keys <==> pk in Phantoms(db) {
          CommittedAt(View(root), overlay, pk);
          assert pk in Mentioned(root) - View(root).Keys <==> pk in Phantoms(root);
        }
    }
  }

  lemma {:induction false} MentionedIsViewIff(db: Database)
    ensures Mentioned(db) == View(db).Keys <==> Phantoms(db) == {}
  {
    ViewIsMentioned(db);
    PhantomsAreTheRest(db);
    DifferenceIsEmptyIff(Mentioned(db), View(db).Keys);
  }

  lemma {:induction false} DifferenceIsEmptyIff<K>(s: set<K>, t: set<K>)
    requires t <= s
    ensures s == t <==> s - t == {}
  {
    if s - t == {} {
      forall k | k in s ensures k in t {
        assert k !in s - t;
      }
    }
  }

  /** A stack lists exactly the committed state's partitions if and only if no level leaves a
      partition empty that no level above it fills again. */
  lemma {:induction false} ListingIsCommittedIff(db: Database)
    requires Sound(db) && InOrder(db)
    ensures ListPartitionKeys(db) == ListPartitions(View(db)) <==> Phantoms(db) == {}
  {
    ListsMentionedIff(db);
    ListPartitionsIsSorted(View(db));
    SortedSetsEqualIff(PartitionLt, Mentioned(db), View(db).Keys);
    MentionedIsViewIff(db);
  }

  function OneSubstate(pk: PartitionKey, k: SortKey, v: Value): State {
    map[pk := map[k := v]]
  }

  function Deletion(pk: PartitionKey, k: SortKey): DatabaseUpdates {
    OnePartition(pk, Delta(map[k := Delete]))
  }

  lemma {:induction false} DeletionEmpties(pk: PartitionKey, k: SortKey, v: Value)
    ensures Committed(OneSubstate(pk, k, v), Deletion(pk, k)) == map[]
  {
    var after := Committed(OneSubstate(pk, k, v), Deletion(pk, k));
    assert Applied(map[k := v], Delta(map[k := Delete])) == map[];
    forall x ensures x !in after {
      CommittedAt(OneSubstate(pk, k, v), Deletion(pk, k), x);
      assert Get(after, x) == None;
    }
  }

  /** Deleting the only substate of a partition leaves it in the overlay's listing:
      after the deletion the committed state has no partition at all, the overlay lists one. */
  lemma {:induction false} EmptiedPartitionIsListed(pk: PartitionKey, k: SortKey, v: Value)
    ensures Committed(OneSubstate(pk, k, v), Deletion(pk, k)) == map[]
    ensures pk in ListPartitionKeys(Staged(Deletion(pk, k), Memory(OneSubstate(pk, k, v))))
  {
    DeletionEmpties(pk, k, v);
    var db := Staged(Deletion(pk, k), Memory(OneSubstate(pk, k, v)));
    ListsMentioned(db);
    SortedSetMembers(PartitionLt, Mentioned(db));
    assert pk in Mentioned(db);
  }
}
