/** The flat RocksDB store simulates the in-memory database. */
module RocksSimulation {
  import opened Bytes
  import opened Ordered
  import opened Store
  import opened RocksDb

  /** The flat map holds exactly the substates of the in-memory state, under their encoded keys. */
  ghost predicate Simulates(flat: Flat, mem: State) {
    && (forall b :: b in flat ==> WellFormed(b))
    && (forall pk :: pk in mem ==> Encodable(pk) && mem[pk] != map[])
    && (forall b :: WellFormed(b) ==> Get(flat, b) == GetRaw(mem, DecodeKey(b).0, DecodeKey(b).1))
  }

  /** Every stored sort key that a Reset's range delete cannot reach is written again by that Reset. */
  predicate ResetsCovered(mem: State, u: DatabaseUpdates) {
    forall n, p :: n in u && p in u[n] && u[n][p].Reset? ==>
      forall k :: k in Part(mem, PartitionKey(n, p)) && Bound() <= k ==> k in u[n][p].values
  }

  /** Point reads of a simulating store are the in-memory reads. */
  lemma {:induction false} ReadsAgree(flat: Flat, mem: State, pk: PartitionKey, k: SortKey)
    requires Simulates(flat, mem) && Encodable(pk)
    ensures Get(flat, EncodeKey(pk, k)) == GetRaw(mem, pk, k)
  {
    DecodeEncode(pk, k);
  }

  lemma {:induction false} CommittedRead(mem: State, u: DatabaseUpdates, pk: PartitionKey, k: SortKey)
    ensures GetRaw(Committed(mem, u), pk, k) ==
            match UpdateOf(u, pk) {
              case None => GetRaw(mem, pk, k)
              case Some(Delta(d)) => if k in d then Change(d[k]) else GetRaw(mem, pk, k)
              case Some(Reset(v)) => Get(v, k)
            }
  {
    CommittedAt(mem, u, pk);
    if UpdateOf(u, pk).Some? {
      SubstateChangeIsEffect(Part(mem, pk), UpdateOf(u, pk).value, k);
    }
    assert GetRaw(Committed(mem, u), pk, k) == Get(Part(Committed(mem, u), pk), k);
    assert GetRaw(mem, pk, k) == Get(Part(mem, pk), k);
  }

  /** A commit keeps the simulation if its Resets are covered. */
  lemma {:induction false} CommitKeepsSimulation(flat: Flat, mem: State, u: DatabaseUpdates)
    requires Simulates(flat, mem) && NodesEncodable(u) && ResetsCovered(mem, u)
    ensures Simulates(FlatCommitted(flat, u), Committed(mem, u))
  {
    var flat', after := FlatCommitted(flat, u), Committed(mem, u);
    forall b | b in flat' ensures WellFormed(b) {
      FlatCommittedAt(flat, u, b);
    }
    forall pk | pk in after ensures Encodable(pk) && after[pk] != map[] {
      CommittedAt(mem, u, pk);
    }
    forall b | WellFormed(b) ensures Get(flat', b) == GetRaw(after, DecodeKey(b).0, DecodeKey(b).1) {
      CommitAgreesAt(flat, mem, u, b);
    }
  }

  lemma {:induction false} CommitAgreesAt(flat: Flat, mem: State, u: DatabaseUpdates, b: Bytes)
    requires Simulates(flat, mem) && NodesEncodable(u) && ResetsCovered(mem, u) && WellFormed(b)
    ensures Get(FlatCommitted(flat, u), b) == GetRaw(Committed(mem, u), DecodeKey(b).0, DecodeKey(b).1)
  {
    var (pk, k) := DecodeKey(b);
    CommittedRead(mem, u, pk, k);
    FlatCommittedAt(flat, u, b);
    assert Get(flat, b) == GetRaw(mem, pk, k);
    match UpdateOf(u, pk) {
      case Some(Reset(values)) => CoveredAt(mem, u, pk, k);
      case _ =>
    }
  }

  lemma {:induction false} CoveredAt(mem: State, u: DatabaseUpdates, pk: PartitionKey, k: SortKey)
    requires ResetsCovered(mem, u) && UpdateOf(u, pk).Some? && UpdateOf(u, pk).value.Reset?
    ensures Bound() <= k && GetRaw(mem, pk, k).Some? ==> k in UpdateOf(u, pk).value.values
  {
    assert u[pk.node][pk.num].Reset? && PartitionKey(pk.node, pk.num) == pk;
  }

  /** A stored sort key that extends the bound outlives the Reset that drops it. */
  lemma {:induction false} UncoveredKeySurvives(
    flat: Flat, mem: State, u: DatabaseUpdates, pk: PartitionKey, k: SortKey)
    requires Simulates(flat, mem) && NodesEncodable(u)
    requires UpdateOf(u, pk).Some? && UpdateOf(u, pk).value.Reset? && k !in UpdateOf(u, pk).value.values
    requires k in Part(mem, pk) && Bound() <= k
    ensures GetRaw(Committed(mem, u), pk, k) == None
    ensures Get(FlatCommitted(flat, u), EncodeKey(pk, k)) == Some(Part(mem, pk)[k])
  {
    DecodeEncode(pk, k);
    CommittedRead(mem, u, pk, k);
    FlatCommittedAt(flat, u, EncodeKey(pk, k));
  }

  /** One commit keeps the simulation if and only if every sort key that starts with the all-ones
      bound and is stored in a Reset partition is among that Reset's new values. */
  lemma {:induction false} CommitSimulatesIff(flat: Flat, mem: State, u: DatabaseUpdates)
    requires Simulates(flat, mem) && NodesEncodable(u)
    ensures Simulates(FlatCommitted(flat, u), Committed(mem, u)) <==> ResetsCovered(mem, u)
  {
    if ResetsCovered(mem, u) {
      CommitKeepsSimulation(flat, mem, u);
    } else {
      var n, p :| n in u && p in u[n] && u[n][p].Reset? &&
        !forall k :: k in Part(mem, PartitionKey(n, p)) && Bound() <= k ==> k in u[n][p].values;
      var k :| k in Part(mem, PartitionKey(n, p)) && Bound() <= k && k !in u[n][p].values;
      UncoveredKeySurvives(flat, mem, u, PartitionKey(n, p), k);
      DecodeEncode(PartitionKey(n, p), k);
      assert !Simulates(FlatCommitted(flat, u), Committed(mem, u));
    }
  }

  /** Sets one substate. */
  function Setting(pk: PartitionKey, k: SortKey, v: Value): DatabaseUpdates {
    OnePartition(pk, Delta(map[k := Set(v)]))
  }

  /** Drops everything in a partition. */
  function Emptying(pk: PartitionKey): DatabaseUpdates {
    OnePartition(pk, Reset(map[]))
  }

  /** Two commits from the empty store, a substate whose sort key extends the bound and then a Reset
      of its partition: the RocksDB store still holds the substate, the in-memory database does not. */
  lemma {:induction false} BoundOutlivesReset(pk: PartitionKey, k: SortKey, v: Value)
    requires Encodable(pk) && Bound() <= k
    ensures Get(FlatCommittedAll(map[], [Setting(pk, k, v), Emptying(pk)]), EncodeKey(pk, k)) == Some(v)
    ensures GetRaw(CommittedAll(map[], [Setting(pk, k, v), Emptying(pk)]), pk, k) == None
  {
    TwoCommits(Setting(pk, k, v), Emptying(pk));
    SettingIsRead(map[], pk, k, v);
    EmptyingKeepsBound(FlatCommitted(map[], Setting(pk, k, v)), pk, k);
    CommittedRead(Committed(map[], Setting(pk, k, v)), Emptying(pk), pk, k);
  }

  lemma {:induction false} TwoCommits(a: DatabaseUpdates, b: DatabaseUpdates)
    requires NodesEncodable(a) && NodesEncodable(b)
    ensures FlatCommittedAll(map[], [a, b]) == FlatCommitted(FlatCommitted(map[], a), b)
    ensures CommittedAll(map[], [a, b]) == Committed(Committed(map[], a), b)
  {
    var us: seq<DatabaseUpdates>, one: seq<DatabaseUpdates> := [a, b], [a];
    assert us[..1] == one && |one[..0]| == 0;
    assert FlatCommittedAll(map[], one) == FlatCommitted(map[], a);
    assert CommittedAll(map[], one) == Committed(map[], a);
  }

  lemma {:induction false} SettingIsRead(flat: Flat, pk: PartitionKey, k: SortKey, v: Value)
    requires Encodable(pk)
    ensures Get(FlatCommitted(flat, Setting(pk, k, v)), EncodeKey(pk, k)) == Some(v)
  {
    DecodeEncode(pk, k);
    FlatCommittedAt(flat, Setting(pk, k, v), EncodeKey(pk, k));
  }

  lemma {:induction false} EmptyingKeepsBound(flat: Flat, pk: PartitionKey, k: SortKey)
    requires Encodable(pk) && Bound() <= k
    ensures Get(FlatCommitted(flat, Emptying(pk)), EncodeKey(pk, k)) == Get(flat, EncodeKey(pk, k))
  {
    DecodeEncode(pk, k);
    FlatCommittedAt(flat, Emptying(pk), EncodeKey(pk, k));
  }

  /** Sort keys that do not reach the all-ones bound, as all with fewer than
      `2 * MAX_SUBSTATE_KEY_SIZE` bytes. */
  predicate Short(k: SortKey) {
    !(Bound() <= k)
  }

  lemma {:induction false} ShorterIsShort(k: SortKey)
    requires |k| < 2 * MAX_SUBSTATE_KEY_SIZE
    ensures Short(k)
  {
  }

  predicate ShortPartition(pu: PartitionUpdates) {
    forall k :: k in NamedKeys(pu) ==> Short(k)
  }

  predicate ShortUpdates(u: DatabaseUpdates) {
    NodesEncodable(u) && forall n, p :: n in u && p in u[n] ==> ShortPartition(u[n][p])
  }

  predicate ShortRun(us: seq<DatabaseUpdates>) {
    forall i :: 0 <= i < |us| ==> NodesEncodable(us[i]) && ShortUpdates(us[i])
  }

  ghost predicate AllShort(mem: State) {
    forall pk, k :: GetRaw(mem, pk, k).Some? ==> Short(k)
  }

  /** A short commit is covered on a state of short keys, and leaves only short keys. */
  lemma {:induction false} ShortIsCovered(mem: State, u: DatabaseUpdates)
    requires AllShort(mem) && ShortUpdates(u)
    ensures ResetsCovered(mem, u) && AllShort(Committed(mem, u))
  {
    forall n, p | n in u && p in u[n] && u[n][p].Reset?
      ensures forall k :: k in Part(mem, PartitionKey(n, p)) && Bound() <= k ==> k in u[n][p].values
    {
      forall k | k in Part(mem, PartitionKey(n, p)) ensures Short(k) {
        assert GetRaw(mem, PartitionKey(n, p), k).Some?;
      }
    }
    forall pk, k | GetRaw(Committed(mem, u), pk, k).Some? ensures Short(k) {
      CommittedRead(mem, u, pk, k);
    }
  }

  /** After every run of commits with short sort keys, the store simulates the in-memory
      database that took the same commits. */
  lemma {:induction false} RunsSimulate(us: seq<DatabaseUpdates>)
    requires ShortRun(us)
    ensures Simulates(FlatCommittedAll(map[], us), CommittedAll(map[], us))
    ensures AllShort(CommittedAll(map[], us))
  {
    if us == [] {
    } else {
      var before, last := us[..|us| - 1], us[|us| - 1];
      RunsSimulate(before);
      ShortIsCovered(CommittedAll(map[], before), last);
      CommitKeepsSimulation(FlatCommittedAll(map[], before), CommittedAll(map[], before), last);
    }
  }

  // ---------------------------------------------------------------------------------------
  // The state a flat map stands for
  // ---------------------------------------------------------------------------------------

  ghost predicate Holds(flat: Flat, b: Bytes, pk: PartitionKey, k: SortKey) {
    b in flat && WellFormed(b) && DecodeKey(b) == (pk, k)
  }

  ghost function SortKeysIn(flat: Flat, pk: PartitionKey): set<SortKey> {
    set b | b in flat && InPartition(b, pk) :: DecodeKey(b).1
  }

  ghost function PartitionIn(flat: Flat, pk: PartitionKey): Partition {
    map k | k in SortKeysIn(flat, pk) :: (var b :| Holds(flat, b, pk, k); flat[b])
  }

  /** The two-level map read back from the byte keys. */
  ghost function Unflattened(flat: Flat): State {
    map pk | pk in (set b | b in flat && WellFormed(b) :: DecodeKey(b).0) :: PartitionIn(flat, pk)
  }

  lemma {:induction false} UnflattenedAt(flat: Flat, b: Bytes)
    requires WellFormed(b)
    ensures GetRaw(Unflattened(flat), DecodeKey(b).0, DecodeKey(b).1) == Get(flat, b)
  {
    var (pk, k) := DecodeKey(b);
    EncodeDecode(b);
    if GetRaw(Unflattened(flat), pk, k).Some? || b in flat {
      if b in flat {
        assert Holds(flat, b, pk, k) && k in SortKeysIn(flat, pk);
      }
      forall c | Holds(flat, c, pk, k) ensures c == b {
        EncodeDecode(c);
      }
    }
  }

  /** A flat map of well-formed keys simulates the state read back from it, and no other. */
  lemma {:induction false} SimulatesIff(flat: Flat, mem: State)
    ensures Simulates(flat, mem) <==> (forall b :: b in flat ==> WellFormed(b)) && mem == Unflattened(flat)
  {
    if forall b :: b in flat ==> WellFormed(b) {
      UnflattenedSimulates(flat);
      if Simulates(flat, mem) {
        SimulatedIsUnique(flat, mem, Unflattened(flat));
      }
    }
  }

  lemma {:induction false} UnflattenedSimulates(flat: Flat)
    requires forall b :: b in flat ==> WellFormed(b)
    ensures Simulates(flat, Unflattened(flat))
  {
    var mem := Unflattened(flat);
    forall pk | pk in mem ensures Encodable(pk) && mem[pk] != map[] {
      var b :| b in flat && WellFormed(b) && DecodeKey(b).0 == pk;
      EncodeDecode(b);
      UnflattenedAt(flat, b);
      assert DecodeKey(b).1 in mem[pk];
    }
    forall b | WellFormed(b) ensures Get(flat, b) == GetRaw(mem, DecodeKey(b).0, DecodeKey(b).1) {
      UnflattenedAt(flat, b);
    }
  }

  lemma {:induction false} SimulatedIsUnique(flat: Flat, x: State, y: State)
    requires Simulates(flat, x) && Simulates(flat, y)
    ensures x == y
  {
    SimulatedWithin(flat, x, y);
    SimulatedWithin(flat, y, x);
  }

  lemma {:induction false} SimulatedWithin(flat: Flat, x: State, y: State)
    requires Simulates(flat, x) && Simulates(flat, y)
    ensures forall pk :: pk in x ==> pk in y && y[pk] == x[pk]
  {
    forall pk | pk in x ensures pk in y && y[pk] == x[pk] {
      forall k ensures GetRaw(x, pk, k) == GetRaw(y, pk, k) {
        ReadsAgree(flat, x, pk, k);
        ReadsAgree(flat, y, pk, k);
      }
      var k :| k in x[pk];
      assert GetRaw(y, pk, k).Some?;
      forall k ensures Get(x[pk], k) == Get(y[pk], k) {
        assert GetRaw(x, pk, k) == GetRaw(y, pk, k);
      }
      SameLookups(x[pk], y[pk]);
    }
  }

  // ---------------------------------------------------------------------------------------
  // Seek and take_while
  // ---------------------------------------------------------------------------------------

  ghost predicate KeysWellFormed(s: seq<(Bytes, Value)>) {
    forall i :: 0 <= i < |s| ==> WellFormed(s[i].0)
  }

  /** Decode each entry, take while it is in the partition, keep the sort key. */
  function TakePartition(s: seq<(Bytes, Value)>, pk: PartitionKey): seq<(SortKey, Value)>
    requires KeysWellFormed(s)
  {
    if s == [] || DecodeKey(s[0].0).0 != pk then []
    else [(DecodeKey(s[0].0).1, s[0].1)] + TakePartition(s[1..], pk)
  }

  ghost function ListRocks(flat: Flat, pk: PartitionKey, from: Option<SortKey>): seq<(SortKey, Value)>
    requires Encodable(pk) && forall b :: b in flat ==> WellFormed(b)
  {
    LtOrder();
    var start := EncodeKey(pk, if from.Some? then from.value else []);
    var scanned := Entries(Lt, From(Lt, flat, Some(start)));
    ScanWellFormed(From(Lt, flat, Some(start)));
    TakePartition(scanned, pk)
  }

  lemma {:induction false} ScanWellFormed(flat: Flat)
    requires StrictTotalOrder(Lt)
    requires forall b :: b in flat ==> WellFormed(b)
    ensures KeysWellFormed(Entries(Lt, flat))
  {
    var s := Entries(Lt, flat);
    EntriesList(Lt, flat);
    forall i | 0 <= i < |s| ensures WellFormed(s[i].0) {
      LookupAt(Lt, s, i);
      assert Lookup(s, s[i].0) == Get(flat, s[i].0);
    }
  }

  /** Once a scan that started at or after the partition's header has left the partition,
      none of the partition's keys is still to come. */
  lemma {:induction false} LeftForGood(s: seq<(Bytes, Value)>, pk: PartitionKey, k: SortKey)
    requires StrictTotalOrder(Lt) && Encodable(pk) && Ascending(Lt, s) && KeysWellFormed(s)
    requires s != [] && !Lt(s[0].0, Header(pk)) && DecodeKey(s[0].0).0 != pk
    ensures Lookup(s, EncodeKey(pk, k)) == None
  {
    var key := EncodeKey(pk, k);
    DecodeEncode(pk, k);
    if Lookup(s, key).Some? {
      var i := LookupIndex(s, key);
      assert i > 0;
      assert Lt(s[0].0, s[i].0);
      BetweenHasPrefix(Header(pk), s[0].0, k);
      InPartitionIsPrefix(s[0].0, pk);
    }
  }

  lemma {:induction false} TakenAbove(
    s: seq<(Bytes, Value)>, pk: PartitionKey, k0: SortKey, rest: seq<(SortKey, Value)>)
    requires StrictTotalOrder(Lt) && Encodable(pk) && Ascending(Lt, s) && Ascending(Lt, rest)
    requires s != [] && s[0].0 == EncodeKey(pk, k0)
    requires forall k :: Lookup(rest, k) == Lookup(s[1..], EncodeKey(pk, k))
    ensures Below(Lt, k0, rest)
  {
    forall i | 0 <= i < |rest| ensures Lt(k0, rest[i].0) {
      LookupAt(Lt, rest, i);
      var j := LookupIndex(s[1..], EncodeKey(pk, rest[i].0));
      assert Lt(s[0].0, s[j + 1].0);
      LtCommonPrefix(Header(pk), k0, rest[i].0);
    }
  }

  lemma {:induction false} SameFront(pk: PartitionKey, a: SortKey, b: SortKey)
    requires Encodable(pk)
    ensures EncodeKey(pk, a) == EncodeKey(pk, b) <==> a == b
  {
    DecodeEncode(pk, a);
    DecodeEncode(pk, b);
  }

  lemma {:induction false} TakenFirst(
    s: seq<(Bytes, Value)>, pk: PartitionKey, k0: SortKey, rest: seq<(SortKey, Value)>, k: SortKey)
    requires Encodable(pk) && s != [] && s[0].0 == EncodeKey(pk, k0)
    requires Lookup(rest, k) == Lookup(s[1..], EncodeKey(pk, k))
    ensures Lookup([(k0, s[0].1)] + rest, k) == Lookup(s, EncodeKey(pk, k))
  {
    SameFront(pk, k0, k);
    assert ([(k0, s[0].1)] + rest)[1..] == rest;
  }

  lemma {:induction false} TakenOn(
    s: seq<(Bytes, Value)>, pk: PartitionKey, k0: SortKey, rest: seq<(SortKey, Value)>)
    requires StrictTotalOrder(Lt) && Encodable(pk) && Ascending(Lt, s) && Ascending(Lt, rest)
    requires s != [] && s[0].0 == EncodeKey(pk, k0)
    requires forall k :: Lookup(rest, k) == Lookup(s[1..], EncodeKey(pk, k))
    ensures Ascending(Lt, [(k0, s[0].1)] + rest)
    ensures forall k :: Lookup([(k0, s[0].1)] + rest, k) == Lookup(s, EncodeKey(pk, k))
  {
    TakenAbove(s, pk, k0, rest);
    forall k ensures Lookup([(k0, s[0].1)] + rest, k) == Lookup(s, EncodeKey(pk, k)) {
      TakenFirst(s, pk, k0, rest, k);
    }
  }

  lemma {:induction false} NextAboveHeader(s: seq<(Bytes, Value)>, pk: PartitionKey)
    requires StrictTotalOrder(Lt) && Encodable(pk) && Ascending(Lt, s) && s != [] && !Lt(s[0].0, Header(pk))
    ensures |s| > 1 ==> !Lt(s[1].0, Header(pk))
  {
    if |s| > 1 {
      assert Lt(s[0].0, s[1].0);
    }
  }

  /** Taking while in the partition yields its scanned entries, sort keys ascending. */
  lemma {:induction false} TakePartitionLists(s: seq<(Bytes, Value)>, pk: PartitionKey)
    requires StrictTotalOrder(Lt) && Encodable(pk) && Ascending(Lt, s) && KeysWellFormed(s)
    requires s != [] ==> !Lt(s[0].0, Header(pk))
    ensures Ascending(Lt, TakePartition(s, pk))
    ensures forall k :: Lookup(TakePartition(s, pk), k) == Lookup(s, EncodeKey(pk, k))
  {
    if s == [] {
    } else if DecodeKey(s[0].0).0 != pk {
      forall k ensures Lookup(s, EncodeKey(pk, k)) == None { LeftForGood(s, pk, k); }
    } else {
      var k0 := DecodeKey(s[0].0).1;
      EncodeDecode(s[0].0);
      assert s[0].0 == EncodeKey(pk, k0);
      NextAboveHeader(s, pk);
      TakePartitionLists(s[1..], pk);
      TakenOn(s, pk, k0, TakePartition(s[1..], pk));
    }
  }

  /** The keys of a scan that starts in a partition are not below the partition's header. */
  lemma {:induction false} ScanStartsAtHeader(flat: Flat, pk: PartitionKey, first: SortKey)
    requires StrictTotalOrder(Lt) && Encodable(pk)
    ensures var s := Entries(Lt, From(Lt, flat, Some(EncodeKey(pk, first))));
            Ascending(Lt, s) && (s != [] ==> !Lt(s[0].0, Header(pk)))
  {
    var start := EncodeKey(pk, first);
    var range := From(Lt, flat, Some(start));
    var s := Entries(Lt, range);
    EntriesList(Lt, range);
    if s != [] {
      LookupAt(Lt, s, 0);
      assert Lookup(s, s[0].0) == Get(range, s[0].0);
      LtCommonPrefix(Header(pk), first, []);
      assert Header(pk) + [] == Header(pk);
    }
  }

  /** Restricting the flat map at an encoded start key restricts the partition at its sort key. */
  lemma {:induction false} RangeAgrees(flat: Flat, mem: State, pk: PartitionKey, from: Option<SortKey>, k: SortKey)
    requires Simulates(flat, mem) && Encodable(pk)
    ensures Get(From(Lt, flat, Some(EncodeKey(pk, if from.Some? then from.value else []))), EncodeKey(pk, k))
            == Get(From(Lt, Part(mem, pk), from), k)
  {
    ReadsAgree(flat, mem, pk, k);
    LtCommonPrefix(Header(pk), k, if from.Some? then from.value else []);
  }

  /** A scan lists exactly the partition's entries at or after the start key, in sort-key order:
      the in-memory listing. */
  lemma {:induction false} ListingsAgree(flat: Flat, mem: State, pk: PartitionKey, from: Option<SortKey>)
    requires Simulates(flat, mem) && Encodable(pk)
    ensures ListRocks(flat, pk, from) == ListRaw(mem, pk, from)
  {
    LtOrder();
    var first := if from.Some? then from.value else [];
    var range := From(Lt, flat, Some(EncodeKey(pk, first)));
    var s := Entries(Lt, range);
    ScanWellFormed(range);
    ScanStartsAtHeader(flat, pk, first);
    TakePartitionLists(s, pk);
    var wanted := From(Lt, Part(mem, pk), from);
    forall k ensures Lookup(TakePartition(s, pk), k) == Get(wanted, k) {
      EntriesList(Lt, range);
      assert Lookup(s, EncodeKey(pk, k)) == Get(range, EncodeKey(pk, k));
      RangeAgrees(flat, mem, pk, from, k);
    }
    ListsIsEntries(Lt, TakePartition(s, pk), wanted);
    ListRawIsRange(mem, pk, from);
  }

  /** Reads and listings after every run from the empty store. */
  lemma {:induction false} ReadsAfterRun(
    us: seq<DatabaseUpdates>, pk: PartitionKey, k: SortKey, from: Option<SortKey>)
    requires Encodable(pk) && ShortRun(us)
    ensures var flat, mem := FlatCommittedAll(map[], us), CommittedAll(map[], us);
            && Get(flat, EncodeKey(pk, k)) == GetRaw(mem, pk, k)
            && (forall b :: b in flat ==> WellFormed(b))
            && ListRocks(flat, pk, from) == ListRaw(mem, pk, from)
  {
    RunsSimulate(us);
    ReadsAgree(FlatCommittedAll(map[], us), CommittedAll(map[], us), pk, k);
    ListingsAgree(FlatCommittedAll(map[], us), CommittedAll(map[], us), pk, from);
  }

  // ---------------------------------------------------------------------------------------
  // Partition listing
  // ---------------------------------------------------------------------------------------

  /** `dedup()`: drop every item equal to the one before it. */
  function Dedup<K(==)>(ks: seq<K>): seq<K> {
    if |ks| <= 1 then ks
    else if ks[0] == ks[1] then Dedup(ks[1..])
    else [ks[0]] + Dedup(ks[1..])
  }

  function PartitionsOf(s: seq<(Bytes, Value)>): (r: seq<PartitionKey>)
    requires KeysWellFormed(s)
    ensures |r| == |s| && forall i :: 0 <= i < |s| ==> r[i] == DecodeKey(s[i].0).0
  {
    if s == [] then [] else [DecodeKey(s[0].0).0] + PartitionsOf(s[1..])
  }

  ghost function ListRocksPartitions(flat: Flat): seq<PartitionKey>
    requires forall b :: b in flat ==> WellFormed(b)
  {
    LtOrder();
    ScanWellFormed(flat);
    Dedup(PartitionsOf(Entries(Lt, flat)))
  }

  /** Removing adjacent duplicates of a non-descending sequence leaves a strictly ascending one
      with the same members. */
  lemma {:induction false} DedupAscending<K(!new)>(lt: (K, K) -> bool, ks: seq<K>)
    requires StrictTotalOrder(lt)
    requires forall i, j :: 0 <= i < j < |ks| ==> ks[i] == ks[j] || lt(ks[i], ks[j])
    ensures AscendingKeys(lt, Dedup(ks))
    ensures forall k :: k in Dedup(ks) <==> k in ks
    ensures ks != [] ==> Dedup(ks) != [] && Dedup(ks)[0] == ks[0]
  {
    if |ks| <= 1 {
    } else {
      var d := Dedup(ks[1..]);
      DedupAscending(lt, ks[1..]);
      assert ks == [ks[0]] + ks[1..];
      assert ks[0] == ks[1] || lt(ks[0], ks[1]);
      if ks[0] != ks[1] {
        forall j | 0 <= j < |d| ensures lt(ks[0], d[j]) {
          if j > 0 { assert lt(d[0], d[j]); }
        }
      }
    }
  }

  lemma {:induction false} ScanOrdersPartitions(s: seq<(Bytes, Value)>, i: nat, j: nat)
    requires KeysWellFormed(s) && Ascending(Lt, s) && i < j < |s|
    ensures var a, b := DecodeKey(s[i].0).0, DecodeKey(s[j].0).0; a == b || RocksLt(a, b)
  {
    EncodeDecode(s[i].0);
    EncodeDecode(s[j].0);
    assert Lt(s[i].0, s[j].0);
    EncodedOrder(DecodeKey(s[i].0).0, DecodeKey(s[i].0).1, DecodeKey(s[j].0).0, DecodeKey(s[j].0).1);
  }

  /** The partitions met by a scan are the non-empty ones. */
  lemma {:induction false} ScanMeetsPartition(flat: Flat, mem: State, s: seq<(Bytes, Value)>, pk: PartitionKey)
    requires Simulates(flat, mem) && StrictTotalOrder(Lt) && KeysWellFormed(s)
    requires Ascending(Lt, s) && forall b :: Lookup(s, b) == Get(flat, b)
    ensures pk in PartitionsOf(s) <==> pk in mem
  {
    if pk in mem {
      var k :| k in mem[pk];
      ReadsAgree(flat, mem, pk, k);
      MeetsKey(s, pk, k);
    }
    if pk in PartitionsOf(s) {
      var i :| 0 <= i < |s| && PartitionsOf(s)[i] == pk;
      LookupAt(Lt, s, i);
      HeldKey(flat, mem, s[i].0);
    }
  }

  lemma {:induction false} HeldKey(flat: Flat, mem: State, b: Bytes)
    requires Simulates(flat, mem) && Get(flat, b).Some?
    ensures WellFormed(b) && DecodeKey(b).0 in mem
  {
  }

  lemma {:induction false} MeetsKey(s: seq<(Bytes, Value)>, pk: PartitionKey, k: SortKey)
    requires KeysWellFormed(s) && Encodable(pk) && Lookup(s, EncodeKey(pk, k)).Some?
    ensures pk in PartitionsOf(s)
  {
    var i := LookupIndex(s, EncodeKey(pk, k));
    DecodeEncode(pk, k);
    assert PartitionsOf(s)[i] == pk;
  }

  /** Each non-empty partition is listed exactly once, shorter node keys first. */
  lemma {:induction false} PartitionsAgree(flat: Flat, mem: State)
    requires Simulates(flat, mem)
    ensures StrictTotalOrder(RocksLt)
    ensures ListRocksPartitions(flat) == SortedSet(RocksLt, mem.Keys)
  {
    LtOrder();
    RocksLtOrder();
    ScanWellFormed(flat);
    var s := Entries(Lt, flat);
    var ks := PartitionsOf(s);
    EntriesList(Lt, flat);
    forall i, j | 0 <= i < j < |ks| ensures ks[i] == ks[j] || RocksLt(ks[i], ks[j]) {
      ScanOrdersPartitions(s, i, j);
    }
    DedupAscending(RocksLt, ks);
    forall pk ensures pk in ks <==> pk in mem.Keys {
      ScanMeetsPartition(flat, mem, s, pk);
    }
    SortedSetUnique(RocksLt, Dedup(ks), mem.Keys);
  }

  /** Shorter node keys are also lexicographically smaller. */
  predicate LengthFollowsOrder(s: set<PartitionKey>) {
    forall a, b :: a in s && b in s && |a.node| < |b.node| ==> Lt(a.node, b.node)
  }

  /** The scan order is the derived `Ord` of partition keys if and only if
      shorter node keys are also lexicographically smaller. */
  lemma {:induction false} ScanOrderIsOrdIff(s: set<PartitionKey>)
    ensures StrictTotalOrder(RocksLt) && StrictTotalOrder(PartitionLt)
    ensures SortedSet(RocksLt, s) == SortedSet(PartitionLt, s) <==> LengthFollowsOrder(s)
  {
    RocksLtOrder();
    PartitionLtOrder();
    LtOrder();
    var r := SortedSet(RocksLt, s);
    SortedSetMembers(RocksLt, s);
    if LengthFollowsOrder(s) {
      forall i, j | 0 <= i < j < |r| ensures PartitionLt(r[i], r[j]) {
        assert RocksLt(r[i], r[j]);
        assert r[i] in s && r[j] in s;
      }
      SortedSetUnique(PartitionLt, r, s);
    }
    if r == SortedSet(PartitionLt, s) {
      SortedSetMembers(PartitionLt, s);
      forall a, b | a in s && b in s && |a.node| < |b.node| ensures Lt(a.node, b.node) {
        assert a in r && b in r;
        var i :| 0 <= i < |r| && r[i] == a;
        var j :| 0 <= j < |r| && r[j] == b;
        IndexOrder(RocksLt, r, i, j);
        assert PartitionLt(r[i], r[j]);
      }
    }
  }
}
