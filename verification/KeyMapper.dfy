/** `SpreadPrefixKeyMapper` and `create_database_updates`: logical node, partition and substate
    keys expressed as database keys by prefixing them with a shortened hash. */
module KeyMapper {
  import opened Bytes
  import opened Ordered
  import opened Store
  import RocksDb
  import RocksSimulation
  import Overlay
  import PartitionListing

  type Hash = b: Bytes | |b| == 32 witness seq(32, i => 0)

  /** The hash is an arbitrary function to 32 bytes. */
  type HashFn = Bytes -> Hash

  const HASHED_PREFIX_LENGTH: nat := 20

  type NodeId = n: Bytes | |n| == 30 witness seq(30, i => 0)

  datatype SubstateKey = Field(field: Byte) | Map(key: Bytes) | Sorted(hi: Byte, lo: Byte, key: Bytes)

  function ToHashPrefixed(h: HashFn, plain: Bytes): (b: Bytes)
    ensures |b| == HASHED_PREFIX_LENGTH + |plain|
  {
    h(plain)[..HASHED_PREFIX_LENGTH] + plain
  }

  function FromHashPrefixed(b: Bytes): Bytes
    requires |b| >= HASHED_PREFIX_LENGTH
  {
    b[HASHED_PREFIX_LENGTH..]
  }

  function ToDbPartitionKey(h: HashFn, node: NodeId, num: Byte): PartitionKey {
    PartitionKey(ToHashPrefixed(h, node), num)
  }

  function FromDbPartitionKey(pk: PartitionKey): (NodeId, Byte)
    requires |pk.node| == HASHED_PREFIX_LENGTH + 30
  {
    (FromHashPrefixed(pk.node), pk.num)
  }

  function ToDbSortKey(h: HashFn, key: SubstateKey): SortKey {
    match key
    case Field(f) => [f]
    case Map(k) => ToHashPrefixed(h, k)
    case Sorted(hi, lo, k) => [hi, lo] + ToHashPrefixed(h, k)
  }

  function FieldFromDb(b: SortKey): SubstateKey
    requires b != []
  {
    Field(b[0])
  }

  function MapFromDb(b: SortKey): SubstateKey
    requires |b| >= HASHED_PREFIX_LENGTH
  {
    Map(FromHashPrefixed(b))
  }

  function SortedFromDb(b: SortKey): SubstateKey
    requires |b| >= 2 + HASHED_PREFIX_LENGTH
  {
    Sorted(b[0], b[1], FromHashPrefixed(b[2..]))
  }

  /** Reading a database key back at its own kind gives the logical key. */
  lemma {:induction false} KeysRoundTrip(h: HashFn, node: NodeId, num: Byte, key: SubstateKey)
    ensures FromDbPartitionKey(ToDbPartitionKey(h, node, num)) == (node, num)
    ensures var b := ToDbSortKey(h, key);
            match key {
              case Field(_) => |b| == 1 && FieldFromDb(b) == key
              case Map(k) => |b| == 20 + |k| && MapFromDb(b) == key
              case Sorted(_, _, k) => |b| == 22 + |k| && SortedFromDb(b) == key
            }
  {
  }

  /** The other way round: a database key that carries the hash of its own tail where its kind has
      it, and any one byte, is the key of what is read from it. */
  lemma {:induction false} DbKeysRoundTrip(h: HashFn, b: SortKey, pk: PartitionKey)
    ensures |b| == 1 ==> ToDbSortKey(h, FieldFromDb(b)) == b
    ensures |b| >= 20 && h(b[20..])[..20] == b[..20] ==> ToDbSortKey(h, MapFromDb(b)) == b
    ensures |b| >= 22 && h(b[22..])[..20] == b[2..22] ==> ToDbSortKey(h, SortedFromDb(b)) == b
    ensures |pk.node| == 50 && h(pk.node[20..])[..20] == pk.node[..20] ==>
              var (node, num) := FromDbPartitionKey(pk); ToDbPartitionKey(h, node, num) == pk
  {
    if |b| >= 20 {
      assert b == b[..20] + b[20..];
    }
    if |b| >= 22 {
      assert b == [b[0], b[1]] + (b[2..22] + b[22..]) && b[2..][20..] == b[22..];
    }
    if |pk.node| == 50 {
      assert pk.node == pk.node[..20] + pk.node[20..];
    }
  }

  /** Some hash function maps a Map key and a Sorted key to one database key
      only if the Sorted key continues the Map key after its first two bytes. */
  predicate MayCollide(m: Bytes, s: Bytes) {
    |m| >= 2 && m[2..] == s
  }

  lemma {:induction false} CollisionNeedsTail(h: HashFn, m: Bytes, hi: Byte, lo: Byte, s: Bytes)
    requires ToDbSortKey(h, Map(m)) == ToDbSortKey(h, Sorted(hi, lo, s))
    ensures MayCollide(m, s)
  {
    var b := ToDbSortKey(h, Map(m));
    assert |b| == 20 + |m| && |b| == 22 + |s|;
    assert b[22..] == s by { assert ToDbSortKey(h, Sorted(hi, lo, s))[22..] == s; }
    assert b[22..] == m[2..];
  }

  function Zeros(n: nat): (b: Bytes)
    ensures |b| == n
  {
    if n == 0 then [] else [0] + Zeros(n - 1)
  }

  /** A hash function chosen to make two given keys collide. */
  function CollidingHash(m: Bytes, hi: Byte, lo: Byte, s: Bytes): HashFn
    requires MayCollide(m, s)
  {
    (b: Bytes) => CollidingHashOf(m, hi, lo, b)
  }

  function CollidingHashOf(m: Bytes, hi: Byte, lo: Byte, b: Bytes): (r: Hash)
    requires |m| >= 2
    ensures r[..HASHED_PREFIX_LENGTH] == if b == m then [hi, lo] + Zeros(18) else Zeros(18) + m[..2]
  {
    (if b == m then [hi, lo] + Zeros(18) else Zeros(18) + m[..2]) + Zeros(12)
  }

  /** For any Map key and any Sorted key that continues it, there is a hash under which they collide. */
  lemma {:induction false} CollisionExists(m: Bytes, hi: Byte, lo: Byte, s: Bytes)
    requires MayCollide(m, s)
    ensures var h := CollidingHash(m, hi, lo, s);
            ToDbSortKey(h, Map(m)) == ToDbSortKey(h, Sorted(hi, lo, s))
  {
  }

  predicate Compatible(a: SubstateKey, b: SubstateKey) {
    && (a.Map? && b.Sorted? ==> !MayCollide(a.key, b.key))
    && (b.Map? && a.Sorted? ==> !MayCollide(b.key, a.key))
  }

  /** Under every hash, keys that cannot collide are mapped apart; a Field key never
      collides with another kind. */
  lemma {:induction false} SortKeysInjective(h: HashFn, a: SubstateKey, b: SubstateKey)
    requires Compatible(a, b) && ToDbSortKey(h, a) == ToDbSortKey(h, b)
    ensures a == b
  {
    KeysRoundTrip(h, seq(30, i => 0), 0, a);
    KeysRoundTrip(h, seq(30, i => 0), 0, b);
    match (a, b) {
      case (Map(m), Sorted(hi, lo, s)) => CollisionNeedsTail(h, m, hi, lo, s);
      case (Sorted(hi, lo, s), Map(m)) => CollisionNeedsTail(h, m, hi, lo, s);
      case _ =>
    }
  }

  /** Sorted keys are scanned in the order of their two-byte prefix. */
  lemma {:induction false} SortedKeysScanInOrder(h: HashFn, a: SubstateKey, b: SubstateKey)
    requires a.Sorted? && b.Sorted? && (a.hi < b.hi || (a.hi == b.hi && a.lo < b.lo))
    ensures Lt(ToDbSortKey(h, a), ToDbSortKey(h, b))
  {
  }

  // ---------------------------------------------------------------------------------------
  // Logical updates
  // ---------------------------------------------------------------------------------------

  datatype PartitionStateUpdates =
    | DeltaOf(bySubstate: map<SubstateKey, DatabaseUpdate>)
    | ResetTo(newValues: map<SubstateKey, Value>)

  type StateUpdates = map<NodeId, map<Byte, PartitionStateUpdates>>

  ghost function Preimage<K, L>(f: K -> L, s: set<K>, l: L): (k: K)
    requires exists k :: k in s && f(k) == l
    ensures k in s && f(k) == l
  {
    var k :| k in s && f(k) == l;
    k
  }

  /** `iter().map(|(k, v)| (f(k), v)).collect()`. If two keys are mapped to one,
      which of their values survives is left open. */
  ghost function Collected<K, L, V>(f: K -> L, m: map<K, V>): (r: map<L, V>) {
    var image := set k | k in m :: f(k);
    map l | l in image :: m[Preimage(f, m.Keys, l)]
  }

  lemma {:induction false} CollectedAt<K(!new), L, V>(f: K -> L, m: map<K, V>, k: K)
    requires forall x :: x in m && f(x) == f(k) ==> x == k
    ensures Get(Collected(f, m), f(k)) == Get(m, k)
  {
  }

  function SortKeyOf(h: HashFn): SubstateKey -> SortKey {
    (k: SubstateKey) => ToDbSortKey(h, k)
  }

  function NodeKeyOf(h: HashFn): NodeId -> Bytes {
    (n: NodeId) => ToHashPrefixed(h, n)
  }

  ghost function PartitionDatabaseUpdates(h: HashFn, u: PartitionStateUpdates): PartitionUpdates {
    match u
    case DeltaOf(m) => Delta(Collected(SortKeyOf(h), m))
    case ResetTo(m) => Reset(Collected(SortKeyOf(h), m))
  }

  ghost function NodeDatabaseUpdates(h: HashFn, u: map<Byte, PartitionStateUpdates>): NodeUpdates {
    map p | p in u :: PartitionDatabaseUpdates(h, u[p])
  }

  ghost function CreateDatabaseUpdates(h: HashFn, u: StateUpdates): DatabaseUpdates {
    Collected(NodeKeyOf(h), map n | n in u :: NodeDatabaseUpdates(h, u[n]))
  }

  type Substate = (NodeId, Byte, SubstateKey)

  /** The logical state: a plain map keyed by node, partition and substate key. */
  type LogicalState = map<Substate, Value>

  function LogicalUpdateOf(u: StateUpdates, node: NodeId, num: Byte): Option<PartitionStateUpdates> {
    if node in u && num in u[node] then Some(u[node][num]) else None
  }

  function LogicalOutcome(s: LogicalState, u: StateUpdates, at: Substate): Option<Value> {
    match LogicalUpdateOf(u, at.0, at.1)
    case None => Get(s, at)
    case Some(DeltaOf(m)) => if at.2 in m then Change(m[at.2]) else Get(s, at)
    case Some(ResetTo(m)) => Get(m, at.2)
  }

  function KeysOf(u: PartitionStateUpdates): set<SubstateKey> {
    match u
    case DeltaOf(m) => m.Keys
    case ResetTo(m) => m.Keys
  }

  /** The plain map after the updates. */
  function LogicalApplied(s: LogicalState, u: StateUpdates): LogicalState {
    var named := set n, p, k | n in u && p in u[n] && k in KeysOf(u[n][p]) :: (n, p, k);
    map at | at in s.Keys + named && LogicalOutcome(s, u, at).Some? :: LogicalOutcome(s, u, at).value
  }

  function LogicalAll(s: LogicalState, us: seq<StateUpdates>): LogicalState {
    if us == [] then s else LogicalApplied(LogicalAll(s, us[..|us| - 1]), us[|us| - 1])
  }

  lemma {:induction false} LogicalAppliedAt(s: LogicalState, u: StateUpdates, at: Substate)
    ensures Get(LogicalApplied(s, u), at) == LogicalOutcome(s, u, at)
  {
  }

  // ---------------------------------------------------------------------------------------
  // The commuting square
  // ---------------------------------------------------------------------------------------

  /** The substate keys in use, partition by partition. */
  type Usage = (NodeId, Byte, SubstateKey) -> bool

  /** No partition uses two keys that some hash could make collide. */
  ghost predicate Separated(used: Usage) {
    forall n, p, a, b :: used(n, p, a) && used(n, p, b) ==> Compatible(a, b)
  }

  predicate SameKind(a: SubstateKey, b: SubstateKey) {
    (a.Field? <==> b.Field?) && (a.Map? <==> b.Map?)
  }

  /** In particular if each partition uses one kind of key. */
  lemma {:induction false} OneKindIsSeparated(used: Usage)
    requires forall n, p, a, b :: used(n, p, a) && used(n, p, b) ==> SameKind(a, b)
    ensures Separated(used)
  {
  }

  predicate KeepsTo(u: StateUpdates, used: Usage) {
    forall n, p, k :: n in u && p in u[n] && k in KeysOf(u[n][p]) ==> used(n, p, k)
  }

  /** Every used substate reads the same through the mapper and from the plain map. */
  ghost predicate Represents(h: HashFn, used: Usage, db: State, s: LogicalState) {
    forall n, p, k :: used(n, p, k) ==>
      GetRaw(db, ToDbPartitionKey(h, n, p), ToDbSortKey(h, k)) == Get(s, (n, p, k))
  }

  lemma {:induction false} NodeUpdatesAt(h: HashFn, u: StateUpdates, n: NodeId)
    ensures Get(CreateDatabaseUpdates(h, u), ToHashPrefixed(h, n)) ==
            if n in u then Some(NodeDatabaseUpdates(h, u[n])) else None
  {
    var byNode := map x | x in u :: NodeDatabaseUpdates(h, u[x]);
    forall x | x in byNode && NodeKeyOf(h)(x) == NodeKeyOf(h)(n) ensures x == n {
      assert FromHashPrefixed(ToHashPrefixed(h, x)) == x && FromHashPrefixed(ToHashPrefixed(h, n)) == n;
    }
    CollectedAt(NodeKeyOf(h), byNode, n);
  }

  /** The database update of a logical partition is the mapped logical update. */
  lemma {:induction false} UpdatesAt(h: HashFn, u: StateUpdates, n: NodeId, p: Byte)
    ensures UpdateOf(CreateDatabaseUpdates(h, u), ToDbPartitionKey(h, n, p)) ==
            match LogicalUpdateOf(u, n, p) {
              case Some(pu) => Some(PartitionDatabaseUpdates(h, pu))
              case None => None
            }
  {
    NodeUpdatesAt(h, u, n);
  }

  /** A mapped partition update finds the value of a key it cannot confuse with another. */
  lemma {:induction false} MappedKeyAt<V>(h: HashFn, m: map<SubstateKey, V>, k: SubstateKey)
    requires forall x :: x in m ==> Compatible(x, k)
    ensures Get(Collected(SortKeyOf(h), m), ToDbSortKey(h, k)) == Get(m, k)
  {
    forall x | x in m && SortKeyOf(h)(x) == SortKeyOf(h)(k) ensures x == k {
      SortKeysInjective(h, x, k);
    }
    CollectedAt(SortKeyOf(h), m, k);
  }

  lemma {:induction false} ReadAfterCommit(
    h: HashFn, used: Usage, db: State, s: LogicalState, u: StateUpdates, n: NodeId, p: Byte, k: SubstateKey)
    requires Separated(used) && KeepsTo(u, used) && used(n, p, k)
    requires GetRaw(db, ToDbPartitionKey(h, n, p), ToDbSortKey(h, k)) == Get(s, (n, p, k))
    ensures GetRaw(Committed(db, CreateDatabaseUpdates(h, u)), ToDbPartitionKey(h, n, p), ToDbSortKey(h, k)) ==
            LogicalOutcome(s, u, (n, p, k))
  {
    UpdatesAt(h, u, n, p);
    RocksSimulation.CommittedRead(db, CreateDatabaseUpdates(h, u), ToDbPartitionKey(h, n, p), ToDbSortKey(h, k));
    if LogicalUpdateOf(u, n, p).Some? {
      KeptApart(used, u, n, p, k);
      MappedOutcome(h, u[n][p], k, Get(s, (n, p, k)));
    }
  }

  /** What a mapped partition update leaves at the mapped key is what the update leaves at the key. */
  lemma {:induction false} MappedOutcome(h: HashFn, pu: PartitionStateUpdates, k: SubstateKey, prior: Option<Value>)
    requires forall x :: x in KeysOf(pu) ==> Compatible(x, k)
    ensures var b := ToDbSortKey(h, k);
            match PartitionDatabaseUpdates(h, pu) {
              case Delta(d) => if b in d then Change(d[b]) else prior
              case Reset(v) => Get(v, b)
            }
            == match pu {
                 case DeltaOf(m) => if k in m then Change(m[k]) else prior
                 case ResetTo(m) => Get(m, k)
               }
  {
    match pu {
      case DeltaOf(m) => MappedKeyAt(h, m, k);
      case ResetTo(m) => MappedKeyAt(h, m, k);
    }
  }

  lemma {:induction false} KeptApart(used: Usage, u: StateUpdates, n: NodeId, p: Byte, k: SubstateKey)
    requires Separated(used) && KeepsTo(u, used) && used(n, p, k) && n in u && p in u[n]
    ensures forall x :: x in KeysOf(u[n][p]) ==> Compatible(x, k)
  {
  }

  /** Committing mapped updates keeps the representation. */
  lemma {:induction false} CommitRepresents(h: HashFn, used: Usage, db: State, s: LogicalState, u: StateUpdates)
    requires Separated(used) && KeepsTo(u, used) && Represents(h, used, db, s)
    ensures Represents(h, used, Committed(db, CreateDatabaseUpdates(h, u)), LogicalApplied(s, u))
  {
    forall n, p, k | used(n, p, k)
      ensures GetRaw(Committed(db, CreateDatabaseUpdates(h, u)), ToDbPartitionKey(h, n, p), ToDbSortKey(h, k)) ==
              Get(LogicalApplied(s, u), (n, p, k))
    {
      LogicalAppliedAt(s, u, (n, p, k));
      ReadAfterCommit(h, used, db, s, u, n, p, k);
    }
  }

  ghost function CreateAll(h: HashFn, us: seq<StateUpdates>): seq<DatabaseUpdates> {
    if us == [] then [] else CreateAll(h, us[..|us| - 1]) + [CreateDatabaseUpdates(h, us[|us| - 1])]
  }

  /** For every hash and every run of logical updates, reading a substate back through
      the mapper gives what the plain map holds. */
  lemma {:induction false} RunsRepresent(h: HashFn, used: Usage, us: seq<StateUpdates>)
    requires Separated(used) && forall i :: 0 <= i < |us| ==> KeepsTo(us[i], used)
    ensures Represents(h, used, CommittedAll(map[], CreateAll(h, us)), LogicalAll(map[], us))
  {
    if us == [] {
    } else {
      var before := us[..|us| - 1];
      RunsRepresent(h, used, before);
      assert KeepsTo(us[|us| - 1], used);
      CommitRepresents(h, used, CommittedAll(map[], CreateAll(h, before)), LogicalAll(map[], before), us[|us| - 1]);
      assert CreateAll(h, us)[..|CreateAll(h, us)| - 1] == CreateAll(h, before);
    }
  }

  // ---------------------------------------------------------------------------------------
  // The whole stack: logical updates, mapper, RocksDB
  // ---------------------------------------------------------------------------------------

  predicate KeySizesAllowed(u: StateUpdates) {
    forall n, p, k :: n in u && p in u[n] && k in KeysOf(u[n][p]) ==>
      k.Field? || |k.key| <= RocksDb.MAX_SUBSTATE_KEY_SIZE
  }

  /** Every collected key comes from a key of the source map. */
  lemma {:induction false} CollectedOrigin<K, L, V>(f: K -> L, m: map<K, V>, l: L) returns (k: K)
    requires l in Collected(f, m)
    ensures k in m && f(k) == l
  {
    k := Preimage(f, m.Keys, l);
  }

  lemma {:induction false} NodeOrigin(h: HashFn, u: StateUpdates, b: Bytes) returns (n: NodeId)
    requires b in CreateDatabaseUpdates(h, u)
    ensures n in u && b == ToHashPrefixed(h, n)
    ensures CreateDatabaseUpdates(h, u)[b] == NodeDatabaseUpdates(h, u[n])
  {
    var byNode: map<NodeId, NodeUpdates> := map x | x in u :: NodeDatabaseUpdates(h, u[x]);
    n := CollectedOrigin<NodeId, Bytes, NodeUpdates>(NodeKeyOf(h), byNode, b);
    NodeUpdatesAt(h, u, n);
  }

  /** Substate keys of allowed size never reach the bound of the Reset range delete. */
  lemma {:induction false} MappedUpdatesAreShort(h: HashFn, u: StateUpdates)
    requires KeySizesAllowed(u)
    ensures RocksSimulation.ShortUpdates(CreateDatabaseUpdates(h, u))
  {
    var du := CreateDatabaseUpdates(h, u);
    forall b | b in du ensures |b| == HASHED_PREFIX_LENGTH + 30 {
      var n := NodeOrigin(h, u, b);
    }
    forall b, p | b in du && p in du[b] ensures RocksSimulation.ShortPartition(du[b][p]) {
      var n := NodeOrigin(h, u, b);
      forall k | k in RocksDb.NamedKeys(du[b][p]) ensures RocksSimulation.Short(k) {
        NamedKeyIsShort(h, u[n][p], k);
      }
    }
  }

  lemma {:induction false} NamedKeyIsShort(h: HashFn, pu: PartitionStateUpdates, b: SortKey)
    requires forall k :: k in KeysOf(pu) ==> k.Field? || |k.key| <= RocksDb.MAX_SUBSTATE_KEY_SIZE
    requires b in RocksDb.NamedKeys(PartitionDatabaseUpdates(h, pu))
    ensures RocksSimulation.Short(b)
  {
    var k :| k in KeysOf(pu) && SortKeyOf(h)(k) == b;
    RocksSimulation.ShorterIsShort(b);
  }

  lemma {:induction false} CreatedAt(h: HashFn, us: seq<StateUpdates>)
    ensures |CreateAll(h, us)| == |us|
    ensures forall i :: 0 <= i < |us| ==> CreateAll(h, us)[i] == CreateDatabaseUpdates(h, us[i])
  {
    if us == [] {
    } else {
      CreatedAt(h, us[..|us| - 1]);
    }
  }

  lemma {:induction false} MappedRunIsShort(h: HashFn, us: seq<StateUpdates>)
    requires forall i :: 0 <= i < |us| ==> KeySizesAllowed(us[i])
    ensures RocksSimulation.ShortRun(CreateAll(h, us))
  {
    CreatedAt(h, us);
    forall i | 0 <= i < |us| ensures RocksSimulation.ShortUpdates(CreateAll(h, us)[i]) {
      MappedUpdatesAreShort(h, us[i]);
    }
  }

  /** For every hash and every run of logical updates committed to the RocksDB store through the
      mapper, reading a substate back gives what the plain map holds. */
  lemma {:induction false} RocksReadsAreLogical(
    h: HashFn, used: Usage, us: seq<StateUpdates>, n: NodeId, p: Byte, k: SubstateKey)
    requires Separated(used) && used(n, p, k)
    requires forall i :: 0 <= i < |us| ==> KeepsTo(us[i], used) && KeySizesAllowed(us[i])
    ensures RocksSimulation.ShortRun(CreateAll(h, us))
    ensures var flat := RocksDb.FlatCommittedAll(map[], CreateAll(h, us));
            Get(flat, RocksDb.EncodeKey(ToDbPartitionKey(h, n, p), ToDbSortKey(h, k))) ==
            Get(LogicalAll(map[], us), (n, p, k))
  {
    MappedRunIsShort(h, us);
    RocksSimulation.ReadsAfterRun(CreateAll(h, us), ToDbPartitionKey(h, n, p), ToDbSortKey(h, k), None);
    RunsRepresent(h, used, us);
  }

  /** Mapped node keys all have the same length. */
  predicate FullNodeKeys(mem: State) {
    forall pk :: pk in mem ==> |pk.node| == HASHED_PREFIX_LENGTH + 30
  }

  lemma {:induction false} MappedNodeKeysAreFull(h: HashFn, us: seq<StateUpdates>)
    ensures FullNodeKeys(CommittedAll(map[], CreateAll(h, us)))
  {
    if us == [] {
    } else {
      var before, last := us[..|us| - 1], us[|us| - 1];
      MappedNodeKeysAreFull(h, before);
      assert CreateAll(h, us)[..|CreateAll(h, us)| - 1] == CreateAll(h, before);
      var mem := CommittedAll(map[], CreateAll(h, before));
      forall pk | pk in CommittedAll(map[], CreateAll(h, us)) ensures |pk.node| == HASHED_PREFIX_LENGTH + 30 {
        CommittedAt(mem, CreateDatabaseUpdates(h, last), pk);
        if UpdateOf(CreateDatabaseUpdates(h, last), pk).Some? {
          var n := NodeOrigin(h, last, pk.node);
        }
      }
    }
  }

  /** For every hash and every run of logical updates committed to the RocksDB store through the
      mapper, any stack of overlays over the store lists the stored and the staged partitions,
      ascending and once each. */
  lemma {:induction false} OverlayOverRocksLists(h: HashFn, us: seq<StateUpdates>, db: Overlay.Database)
    requires forall i :: 0 <= i < |us| ==> KeySizesAllowed(us[i])
    requires RocksSimulation.ShortRun(CreateAll(h, us))
    requires Overlay.Sound(db) && Bottom(db) == Overlay.Rocks(RocksDb.FlatCommittedAll(map[], CreateAll(h, us)))
    ensures StrictTotalOrder(PartitionLt)
    ensures PartitionListing.ListPartitionKeys(db) == SortedSet(PartitionLt, PartitionListing.Mentioned(db))
  {
    RocksSimulation.RunsSimulate(CreateAll(h, us));
    RocksSimulation.SimulatesIff(Bottom(db).flat, CommittedAll(map[], CreateAll(h, us)));
    MappedNodeKeysAreFull(h, us);
    BottomIsInOrder(db);
    PartitionListing.ListsMentionedIff(db);
  }

  function Bottom(db: Overlay.Database): Overlay.Database {
    if db.Staged? then Bottom(db.root) else db
  }

  lemma {:induction false} BottomIsInOrder(db: Overlay.Database)
    requires Bottom(db).Rocks? && FullNodeKeys(RocksSimulation.Unflattened(Bottom(db).flat))
    ensures PartitionListing.InOrder(db)
  {
    match db {
      case Rocks(_) =>
      case Staged(_, root) => BottomIsInOrder(root);
    }
  }
}
