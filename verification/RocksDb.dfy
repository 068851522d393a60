/** `RocksdbSubstateStore`: the two-level substate map flattened into one ordered map of
    byte strings, with a length-prefixed key codec, seek-and-take scans and a range delete.
    RocksDB itself is an ordered map with put, delete, half-open delete-range and forward seek. */
module RocksDb {
  import opened Bytes
  import opened Ordered
  import opened Store

  const MAX_SUBSTATE_KEY_SIZE: nat := 1024

  const U32_LIMIT: nat := 0x1_0000_0000

  type Flat = map<Bytes, Value>

  // ---------------------------------------------------------------------------------------
  // The key codec
  // ---------------------------------------------------------------------------------------

  function Be32(n: nat): (b: Bytes)
    requires n < U32_LIMIT
    ensures |b| == 4
  {
    [n / 0x100 / 0x100 / 0x100, n / 0x100 / 0x100 % 0x100, n / 0x100 % 0x100, n % 0x100]
  }

  function FromBe32(b: Bytes): nat
    requires |b| == 4
  {
    (((b[0] as int) * 0x100 + b[1]) * 0x100 + b[2]) * 0x100 + b[3]
  }

  /** The length of the node key must fit a `u32`. */
  predicate Encodable(pk: PartitionKey) {
    |pk.node| < U32_LIMIT
  }

  function Header(pk: PartitionKey): Bytes
    requires Encodable(pk)
  {
    Be32(|pk.node|) + pk.node + [pk.num]
  }

  function EncodeKey(pk: PartitionKey, k: SortKey): Bytes
    requires Encodable(pk)
  {
    Header(pk) + k
  }

  predicate WellFormed(b: Bytes) {
    |b| >= 4 && |b| > 4 + FromBe32(b[..4])
  }

  function DecodeKey(b: Bytes): (PartitionKey, SortKey)
    requires WellFormed(b)
  {
    var offset := 4 + FromBe32(b[..4]);
    (PartitionKey(b[4..offset], b[offset]), b[offset + 1..])
  }

  lemma {:induction false} Be32RoundTrip(n: nat, b: Bytes)
    requires n < U32_LIMIT && |b| == 4
    ensures FromBe32(Be32(n)) == n
    ensures FromBe32(b) < U32_LIMIT && Be32(FromBe32(b)) == b
  {
  }

  /** Decoding inverts encoding. */
  lemma {:induction false} DecodeEncode(pk: PartitionKey, k: SortKey)
    requires Encodable(pk)
    ensures WellFormed(EncodeKey(pk, k)) && DecodeKey(EncodeKey(pk, k)) == (pk, k)
  {
    var b, n := EncodeKey(pk, k), |pk.node|;
    Be32RoundTrip(n, Be32(n));
    assert b[..4] == Be32(n);
    assert b[4..4 + n] == pk.node;
    assert b[4 + n + 1..] == k;
  }

  /** Encoding inverts decoding. */
  lemma {:induction false} EncodeDecode(b: Bytes)
    requires WellFormed(b)
    ensures Encodable(DecodeKey(b).0) && EncodeKey(DecodeKey(b).0, DecodeKey(b).1) == b
  {
    Be32RoundTrip(0, b[..4]);
    var offset := 4 + FromBe32(b[..4]);
    assert b == b[..4] + b[4..offset] + [b[offset]] + b[offset + 1..];
  }

  predicate InPartition(b: Bytes, pk: PartitionKey) {
    WellFormed(b) && DecodeKey(b).0 == pk
  }

  /** A byte string is a key of a partition exactly if it starts with the partition's header. */
  lemma {:induction false} InPartitionIsPrefix(b: Bytes, pk: PartitionKey)
    requires Encodable(pk)
    ensures InPartition(b, pk) <==> Header(pk) <= b
  {
    if InPartition(b, pk) {
      EncodeDecode(b);
    }
    if Header(pk) <= b {
      assert b == EncodeKey(pk, b[|Header(pk)|..]);
      DecodeEncode(pk, b[|Header(pk)|..]);
    }
  }

  // ---------------------------------------------------------------------------------------
  // The byte order on encoded keys
  // ---------------------------------------------------------------------------------------

  lemma {:induction false} Be32Order(m: nat, n: nat)
    requires m < U32_LIMIT && n < U32_LIMIT
    ensures Lt(Be32(m), Be32(n)) <==> m < n
  {
  }

  /** The order in which a scan meets partitions: shorter node keys first. */
  predicate RocksLt(a: PartitionKey, b: PartitionKey) {
    |a.node| < |b.node| || (|a.node| == |b.node| && PartitionLt(a, b))
  }

  lemma {:induction false} RocksLtOrder()
    ensures StrictTotalOrder(RocksLt)
  {
    PartitionLtOrder();
  }

  /** The byte order on encoded keys orders by partition first, then by sort key. */
  lemma {:induction false} EncodedOrder(p: PartitionKey, a: SortKey, q: PartitionKey, b: SortKey)
    requires Encodable(p) && Encodable(q)
    ensures Lt(EncodeKey(p, a), EncodeKey(q, b)) <==> RocksLt(p, q) || (p == q && Lt(a, b))
  {
    var m, n := |p.node|, |q.node|;
    var restP, restQ := p.node + ([p.num] + a), q.node + ([q.num] + b);
    assert EncodeKey(p, a) == Be32(m) + restP && EncodeKey(q, b) == Be32(n) + restQ;
    LtConcat(Be32(m), Be32(n), restP, restQ);
    Be32Order(m, n);
    Be32Order(n, m);
    if m == n {
      LtConcat(p.node, q.node, [p.num] + a, [q.num] + b);
      LtConcat([p.num], [q.num], a, b);
      LtIrreflexive(p.node);
    } else {
      Be32RoundTrip(m, Be32(m));
      Be32RoundTrip(n, Be32(n));
    }
  }

  /** Whatever lies between a prefix and one of its extensions has that prefix. */
  lemma {:induction false} BetweenHasPrefix(p: Bytes, b: Bytes, x: Bytes)
    requires !Lt(b, p) && Lt(b, p + x)
    ensures p <= b
  {
    if p == [] {
    } else {
      assert (p + x)[1..] == p[1..] + x;
      BetweenHasPrefix(p[1..], b[1..], x);
      assert p == [p[0]] + p[1..] && b == [b[0]] + b[1..];
    }
  }

  // ---------------------------------------------------------------------------------------
  // The Reset range delete
  // ---------------------------------------------------------------------------------------

  function Ones(n: nat): (b: Bytes)
    ensures |b| == n
  {
    if n == 0 then [] else [255] + Ones(n - 1)
  }

  /** The sort key of the exclusive upper bound: `vec![u8::MAX; 2 * MAX_SUBSTATE_KEY_SIZE]`. */
  function Bound(): Bytes {
    Ones(2 * MAX_SUBSTATE_KEY_SIZE)
  }

  /** Only the extensions of an all-ones string are not below it. */
  lemma {:induction false} BelowOnes(k: SortKey, n: nat)
    ensures Lt(k, Ones(n)) <==> !(Ones(n) <= k)
  {
    if n == 0 {
    } else if k != [] && k[0] == 255 {
      BelowOnes(k[1..], n - 1);
      assert Ones(n)[1..] == Ones(n - 1);
      assert k == [k[0]] + k[1..] && Ones(n) == [255] + Ones(n - 1);
    }
  }

  predicate InRange(b: Bytes, lo: Bytes, hi: Bytes) {
    !Lt(b, lo) && Lt(b, hi)
  }

  predicate InResetRange(b: Bytes, pk: PartitionKey)
    requires Encodable(pk)
  {
    InRange(b, EncodeKey(pk, []), EncodeKey(pk, Bound()))
  }

  /** The range delete of a Reset removes no key of another partition, and every key of its
      own partition except those that extend the all-ones bound. */
  lemma {:induction false} ResetRangeIsPartition(b: Bytes, pk: PartitionKey)
    requires Encodable(pk)
    ensures InResetRange(b, pk) <==> InPartition(b, pk) && !(Bound() <= DecodeKey(b).1)
  {
    var h := Header(pk);
    InPartitionIsPrefix(b, pk);
    assert EncodeKey(pk, []) == h;
    if h <= b {
      var k := b[|h|..];
      assert b == EncodeKey(pk, k);
      DecodeEncode(pk, k);
      LtCommonPrefix(h, k, []);
      LtCommonPrefix(h, k, Bound());
      assert h + [] == h;
      BelowOnes(k, 2 * MAX_SUBSTATE_KEY_SIZE);
    } else if InResetRange(b, pk) {
      BetweenHasPrefix(h, b, Bound());
    }
  }

  // ---------------------------------------------------------------------------------------
  // Commits
  // ---------------------------------------------------------------------------------------

  /** What one flat key reads after its partition took an update. */
  function FlatOutcome(flat: Flat, b: Bytes, pu: Option<PartitionUpdates>): Option<Value> {
    if pu.None? || !WellFormed(b) then Get(flat, b)
    else
      var k := DecodeKey(b).1;
      match pu.value
      case Delta(updates) => if k in updates then Change(updates[k]) else Get(flat, b)
      case Reset(values) =>
        if k in values then Some(values[k]) else if Bound() <= k then Get(flat, b) else None
  }

  function UpdateFor(u: DatabaseUpdates, b: Bytes): Option<PartitionUpdates> {
    if WellFormed(b) then UpdateOf(u, DecodeKey(b).0) else None
  }

  /** `u32::try_from(node_key.len()).unwrap()` does not panic for any node key of the update. */
  predicate NodesEncodable(u: DatabaseUpdates) {
    forall n :: n in u ==> |n| < U32_LIMIT
  }

  function NamedKeys(pu: PartitionUpdates): set<SortKey> {
    match pu
    case Delta(updates) => updates.Keys
    case Reset(values) => values.Keys
  }

  /** The byte keys an update names. */
  function NamedBytes(u: DatabaseUpdates): set<Bytes>
    requires NodesEncodable(u)
  {
    set n, p, k | n in u && p in u[n] && k in NamedKeys(u[n][p]) :: EncodeKey(PartitionKey(n, p), k)
  }

  /** The flat map after a commit. */
  function FlatCommitted(flat: Flat, u: DatabaseUpdates): Flat
    requires NodesEncodable(u)
  {
    map b | b in flat.Keys + NamedBytes(u) && FlatOutcome(flat, b, UpdateFor(u, b)).Some? ::
      FlatOutcome(flat, b, UpdateFor(u, b)).value
  }

  lemma {:induction false} FlatCommittedAt(flat: Flat, u: DatabaseUpdates, b: Bytes)
    requires NodesEncodable(u)
    ensures Get(FlatCommitted(flat, u), b) == FlatOutcome(flat, b, UpdateFor(u, b))
  {
    if b !in flat && FlatOutcome(flat, b, UpdateFor(u, b)).Some? {
      var (pk, k) := DecodeKey(b);
      EncodeDecode(b);
      assert pk == PartitionKey(pk.node, pk.num) && k in NamedKeys(u[pk.node][pk.num]);
    }
  }

  function FlatCommittedAll(flat: Flat, us: seq<DatabaseUpdates>): Flat
    requires forall i :: 0 <= i < |us| ==> NodesEncodable(us[i])
  {
    if us == [] then flat else FlatCommitted(FlatCommittedAll(flat, us[..|us| - 1]), us[|us| - 1])
  }

  class RocksdbSubstateStore {
    var db: Flat

    constructor ()
      ensures db == map[]
    {
      db := map[];
    }

    method Put(b: Bytes, v: Value)
      modifies this
      ensures db == old(db)[b := v]
    {
      db := db[b := v];
    }

    method Remove(b: Bytes)
      modifies this
      ensures db == old(db) - {b}
    {
      db := db - {b};
    }

    method DeleteRange(lo: Bytes, hi: Bytes)
      modifies this
      ensures db == map b | b in old(db) && !InRange(b, lo, hi) :: old(db)[b]
    {
      db := map b | b in db && !InRange(b, lo, hi) :: db[b];
    }

    method Commit(u: DatabaseUpdates)
      requires NodesEncodable(u)
      modifies this
      ensures db == FlatCommitted(old(db), u)
    {
      var nodes := u.Keys;
      while nodes != {}
        invariant nodes <= u.Keys
        invariant forall b :: Get(db, b) == FlatOutcome(old(db), b,
                    if WellFormed(b) && DecodeKey(b).0.node in nodes then None else UpdateFor(u, b))
      {
        var n :| n in nodes;
        label Before:
        CommitNode(n, u[n]);
        forall b ensures Get(db, b) == FlatOutcome(old(db), b,
            if WellFormed(b) && DecodeKey(b).0.node in nodes - {n} then None else UpdateFor(u, b))
        {
          if WellFormed(b) && DecodeKey(b).0.node == n {
            assert Get(old@Before(db), b) == Get(old(db), b);
          }
        }
        nodes := nodes - {n};
      }
      forall b ensures Get(db, b) == Get(FlatCommitted(old(db), u), b) {
        FlatCommittedAt(old(db), u, b);
      }
      SameLookups(db, FlatCommitted(old(db), u));
    }

    method CommitNode(n: Bytes, updates: NodeUpdates)
      requires |n| < U32_LIMIT
      modifies this
      ensures forall b :: Get(db, b) == FlatOutcome(old(db), b,
                if WellFormed(b) && DecodeKey(b).0.node == n then Get(updates, DecodeKey(b).0.num) else None)
    {
      var nums := updates.Keys;
      while nums != {}
        invariant nums <= updates.Keys
        invariant forall b :: Get(db, b) == FlatOutcome(old(db), b,
                    if WellFormed(b) && DecodeKey(b).0.node == n && DecodeKey(b).0.num !in nums
                    then Get(updates, DecodeKey(b).0.num) else None)
      {
        var num :| num in nums;
        var pk := PartitionKey(n, num);
        label Before:
        CommitPartition(pk, updates[num]);
        forall b ensures Get(db, b) == FlatOutcome(old(db), b,
            if WellFormed(b) && DecodeKey(b).0.node == n && DecodeKey(b).0.num !in nums - {num}
            then Get(updates, DecodeKey(b).0.num) else None)
        {
          if InPartition(b, pk) {
            assert Get(old@Before(db), b) == Get(old(db), b);
          }
        }
        nums := nums - {num};
      }
    }

    method CommitPartition(pk: PartitionKey, pu: PartitionUpdates)
      requires Encodable(pk)
      modifies this
      ensures forall b :: Get(db, b) == FlatOutcome(old(db), b, if InPartition(b, pk) then Some(pu) else None)
    {
      match pu {
        case Delta(updates) => ApplyDelta(pk, updates);
        case Reset(values) =>
          DeleteRange(EncodeKey(pk, []), EncodeKey(pk, Bound()));
          forall b { ResetRangeIsPartition(b, pk); }
          assert forall b :: Get(db, b) == if InResetRange(b, pk) then None else Get(old(db), b);
          PutAll(pk, values);
      }
    }

    method ApplyDelta(pk: PartitionKey, updates: map<SortKey, DatabaseUpdate>)
      requires Encodable(pk)
      modifies this
      ensures forall b :: Get(db, b) ==
                if InPartition(b, pk) && DecodeKey(b).1 in updates then Change(updates[DecodeKey(b).1])
                else Get(old(db), b)
    {
      var left := updates.Keys;
      while left != {}
        invariant left <= updates.Keys
        invariant forall b :: Get(db, b) ==
                    if InPartition(b, pk) && DecodeKey(b).1 in updates.Keys - left
                    then Change(updates[DecodeKey(b).1]) else Get(old(db), b)
      {
        var k :| k in left;
        var key := EncodeKey(pk, k);
        OnlyKey(pk, k);
        match updates[k] {
          case Set(v) => Put(key, v);
          case Delete => Remove(key);
        }
        left := left - {k};
      }
    }

    method PutAll(pk: PartitionKey, values: map<SortKey, Value>)
      requires Encodable(pk)
      modifies this
      ensures forall b :: Get(db, b) ==
                if InPartition(b, pk) && DecodeKey(b).1 in values then Some(values[DecodeKey(b).1])
                else Get(old(db), b)
    {
      var left := values.Keys;
      while left != {}
        invariant left <= values.Keys
        invariant forall b :: Get(db, b) ==
                    if InPartition(b, pk) && DecodeKey(b).1 in values.Keys - left
                    then Some(values[DecodeKey(b).1]) else Get(old(db), b)
      {
        var k :| k in left;
        OnlyKey(pk, k);
        Put(EncodeKey(pk, k), values[k]);
        left := left - {k};
      }
    }
  }

  /** An encoded key is the only byte string that decodes to its parts. */
  lemma {:induction false} OnlyKey(pk: PartitionKey, k: SortKey)
    requires Encodable(pk)
    ensures forall b :: (InPartition(b, pk) && DecodeKey(b).1 == k) <==> b == EncodeKey(pk, k)
  {
    DecodeEncode(pk, k);
    forall b | InPartition(b, pk) && DecodeKey(b).1 == k ensures b == EncodeKey(pk, k) {
      EncodeDecode(b);
    }
  }
}
