/** `SubstateDatabaseOverlay`: commits are staged in memory and every read behaves as if they had
    already reached the root: an in-memory database, a RocksDB store or another overlay. */
module Overlay {
  import opened Bytes
  import opened Ordered
  import opened Store
  import opened RocksDb
  import opened RocksSimulation

  // ---------------------------------------------------------------------------------------
  // merge_database_updates
  // ---------------------------------------------------------------------------------------

  function MergedPartition(a: PartitionUpdates, b: PartitionUpdates): PartitionUpdates {
    match (a, b)
    case (Delta(x), Delta(y)) => Delta(x + y)
    case (Reset(x), Delta(y)) => Reset(Overlaid(x, Changes(y)))
    case (_, Reset(_)) => b
  }

  function MergedOption(a: Option<PartitionUpdates>, b: Option<PartitionUpdates>): Option<PartitionUpdates> {
    if a.Some? && b.Some? then Some(MergedPartition(a.value, b.value))
    else if b.Some? then b
    else a
  }

  function MergedNode(a: NodeUpdates, b: NodeUpdates): NodeUpdates {
    map p | p in a.Keys + b.Keys :: MergedOption(Get(a, p), Get(b, p)).value
  }

  function MergedUpdates(a: DatabaseUpdates, b: DatabaseUpdates): DatabaseUpdates {
    map n | n in a.Keys + b.Keys ::
      if n !in a then b[n] else if n !in b then a[n] else MergedNode(a[n], b[n])
  }

  function MergedAll(us: seq<DatabaseUpdates>): DatabaseUpdates {
    if us == [] then map[] else MergedUpdates(MergedAll(us[..|us| - 1]), us[|us| - 1])
  }

  lemma {:induction false} MergedUpdatesAt(a: DatabaseUpdates, b: DatabaseUpdates, pk: PartitionKey)
    ensures UpdateOf(MergedUpdates(a, b), pk) == MergedOption(UpdateOf(a, pk), UpdateOf(b, pk))
  {
  }

  /** Merging two partition updates composes their effects. */
  lemma {:induction false} AppliedMerged(p: Partition, a: PartitionUpdates, b: PartitionUpdates)
    ensures Applied(Applied(p, a), b) == Applied(p, MergedPartition(a, b))
  {
    var left, right := Applied(Applied(p, a), b), Applied(p, MergedPartition(a, b));
    forall k ensures Get(left, k) == Get(right, k) {
      SubstateChangeIsEffect(p, a, k);
      SubstateChangeIsEffect(Applied(p, a), b, k);
      SubstateChangeIsEffect(p, MergedPartition(a, b), k);
    }
    SameLookups(left, right);
  }

  /** Committing merged updates once is committing both in order. */
  lemma {:induction false} CommittedMerged(db: State, a: DatabaseUpdates, b: DatabaseUpdates)
    ensures Committed(Committed(db, a), b) == Committed(db, MergedUpdates(a, b))
  {
    var m := MergedUpdates(a, b);
    forall pk ensures Get(Committed(Committed(db, a), b), pk) == Get(Committed(db, m), pk) {
      CommittedAt(db, a, pk);
      CommittedAt(Committed(db, a), b, pk);
      CommittedAt(db, m, pk);
      MergedUpdatesAt(a, b, pk);
      if UpdateOf(a, pk).Some? && UpdateOf(b, pk).Some? {
        AppliedMerged(Part(db, pk), UpdateOf(a, pk).value, UpdateOf(b, pk).value);
      }
    }
    SameLookups(Committed(Committed(db, a), b), Committed(db, m));
  }

  lemma {:induction false} CommittedNothing(db: State)
    ensures Committed(db, map[]) == db
  {
  }

  /** The squashed updates of any run of commits have the effect of the whole run. */
  lemma {:induction false} SquashedRun(db: State, us: seq<DatabaseUpdates>)
    ensures CommittedAll(db, us) == Committed(db, MergedAll(us))
  {
    if us == [] {
      CommittedNothing(db);
    } else {
      SquashedRun(db, us[..|us| - 1]);
      CommittedMerged(db, MergedAll(us[..|us| - 1]), us[|us| - 1]);
    }
  }

  // ---------------------------------------------------------------------------------------
  // Stacked overlays
  // ---------------------------------------------------------------------------------------

  datatype Database = Memory(state: State) | Rocks(flat: Flat) | Staged(overlay: DatabaseUpdates, root: Database)

  /** The store at the bottom of the stack is RocksDB. */
  predicate OnRocks(db: Database) {
    match db
    case Memory(_) => false
    case Rocks(_) => true
    case Staged(_, root) => OnRocks(root)
  }

  /** Over RocksDB, nothing stored or staged has a sort key that extends the bound of the range
      delete. Over an in-memory database nothing is asked. */
  ghost predicate Sound(db: Database) {
    match db
    case Memory(_) => true
    case Rocks(flat) => forall b :: b in flat ==> WellFormed(b) && Short(DecodeKey(b).1)
    case Staged(overlay, root) => Sound(root) && Takes(root, overlay)
  }

  predicate Takes(db: Database, u: DatabaseUpdates) {
    OnRocks(db) ==> ShortUpdates(u)
  }

  predicate Addresses(db: Database, pk: PartitionKey) {
    OnRocks(db) ==> Encodable(pk)
  }

  lemma {:induction false} MemoryIsSound(db: Database)
    requires !OnRocks(db)
    ensures Sound(db)
  {
    match db {
      case Memory(_) =>
      case Staged(_, root) => MemoryIsSound(root);
    }
  }

  /** The committed state a database stands for. */
  ghost function View(db: Database): State {
    match db
    case Memory(state) => state
    case Rocks(flat) => Unflattened(flat)
    case Staged(overlay, root) => Committed(View(root), overlay)
  }

  function GetRawByKey(db: Database, pk: PartitionKey, k: SortKey): Option<Value>
    requires Addresses(db, pk)
  {
    match db
    case Memory(state) => GetRaw(state, pk, k)
    case Rocks(flat) => Get(flat, EncodeKey(pk, k))
    case Staged(overlay, root) =>
      if pk.node !in overlay then GetRawByKey(root, pk, k)
      else if pk.num !in overlay[pk.node] then GetRawByKey(root, pk, k)
      else match overlay[pk.node][pk.num] {
        case Delta(updates) =>
          if k !in updates then GetRawByKey(root, pk, k)
          else (match updates[k] case Set(v) => Some(v) case Delete => None)
        case Reset(values) => Get(values, k)
      }
  }

  /** Reading any key through any stack gives what the committed state holds. */
  lemma {:induction false} ReadsAreCommitted(db: Database, pk: PartitionKey, k: SortKey)
    requires Sound(db) && Addresses(db, pk)
    ensures GetRawByKey(db, pk, k) == GetRaw(View(db), pk, k)
  {
    match db {
      case Memory(_) =>
      case Rocks(flat) =>
        UnflattenedSimulates(flat);
        ReadsAgree(flat, View(db), pk, k);
      case Staged(overlay, root) =>
        ReadsAreCommitted(root, pk, k);
        CommittedRead(View(root), overlay, pk, k);
    }
  }

  ghost function ListRawByKey(db: Database, pk: PartitionKey, from: Option<SortKey>): seq<(SortKey, Value)>
    requires Sound(db) && Addresses(db, pk)
  {
    LtOrder();
    match db
    case Memory(state) => ListRaw(state, pk, from)
    case Rocks(flat) => ListRocks(flat, pk, from)
    case Staged(overlay, root) =>
      if pk.node !in overlay then ListRawByKey(root, pk, from)
      else if pk.num !in overlay[pk.node] then ListRawByKey(root, pk, from)
      else match overlay[pk.node][pk.num] {
        case Reset(values) => Entries(Lt, From(Lt, values, from))
        case Delta(updates) =>
          Merged(Lt, ListRawByKey(root, pk, from), Entries(Lt, From(Lt, Changes(updates), from)))
      }
  }

  /** Listing any partition from any start key through any stack is the committed listing:
      ascending, without deleted keys, each key once with its newest value. */
  lemma {:induction false} ListingsAreCommitted(db: Database, pk: PartitionKey, from: Option<SortKey>)
    requires Sound(db) && Addresses(db, pk)
    ensures ListRawByKey(db, pk, from) == ListRaw(View(db), pk, from)
  {
    match db {
      case Memory(_) =>
      case Rocks(flat) =>
        UnflattenedSimulates(flat);
        ListingsAgree(flat, View(db), pk, from);
      case Staged(overlay, root) =>
        var state := View(root);
        ListingsAreCommitted(root, pk, from);
        ListRawIsRange(state, pk, from);
        ListRawIsRange(View(db), pk, from);
        CommittedAt(state, overlay, pk);
        match UpdateOf(overlay, pk) {
          case Some(Delta(updates)) =>
            var p := Part(state, pk);
            MergedEntries(Lt, From(Lt, p, from), From(Lt, Changes(updates), from));
            OverlaidFrom(p, Changes(updates), from);
          case _ =>
        }
    }
  }

  lemma {:induction false} OverlaidFrom(p: Partition, c: map<SortKey, Option<Value>>, from: Option<SortKey>)
    ensures Overlaid(From(Lt, p, from), From(Lt, c, from)) == From(Lt, Overlaid(p, c), from)
  {
  }

  // ---------------------------------------------------------------------------------------
  // Runs of commits and flushes
  // ---------------------------------------------------------------------------------------

  /** Only RocksDB itself encodes the node keys of a commit. */
  function DbCommit(db: Database, u: DatabaseUpdates): (r: Database)
    requires db.Rocks? ==> NodesEncodable(u)
    ensures OnRocks(r) == OnRocks(db)
  {
    match db
    case Memory(state) => Memory(Committed(state, u))
    case Rocks(flat) => Rocks(FlatCommitted(flat, u))
    case Staged(overlay, root) => Staged(MergedUpdates(overlay, u), root)
  }

  /** `commit_overlay_into_root_store` on the overlay `level` levels below the top. */
  ghost function FlushAt(db: Database, level: nat): (r: Database)
    requires Sound(db)
    ensures OnRocks(r) == OnRocks(db)
  {
    if !db.Staged? then db
    else if level == 0 then Staged(map[], DbCommit(db.root, db.overlay))
    else Staged(db.overlay, FlushAt(db.root, level - 1))
  }

  datatype Step = Commit(updates: DatabaseUpdates) | Flush(level: nat)

  ghost predicate TakesAll(db: Database, steps: seq<Step>) {
    forall i :: 0 <= i < |steps| && steps[i].Commit? ==> Takes(db, steps[i].updates)
  }

  ghost function Run(db: Database, steps: seq<Step>): (r: Database)
    requires Sound(db) && TakesAll(db, steps)
    ensures Sound(r) && OnRocks(r) == OnRocks(db)
  {
    if steps == [] then db
    else
      var before := Run(db, steps[..|steps| - 1]);
      match steps[|steps| - 1]
      case Commit(u) =>
        CommitIsSound(before, u);
        DbCommit(before, u)
      case Flush(level) =>
        FlushIsSound(before, level);
        FlushAt(before, level)
  }

  function Commits(steps: seq<Step>): seq<DatabaseUpdates> {
    if steps == [] then []
    else
      var before := Commits(steps[..|steps| - 1]);
      match steps[|steps| - 1]
      case Commit(u) => before + [u]
      case Flush(_) => before
  }

  function AllCommits(us: seq<DatabaseUpdates>): seq<Step> {
    if us == [] then [] else [Commit(us[0])] + AllCommits(us[1..])
  }

  lemma {:induction false} CommitsOfConcat(a: seq<Step>, b: seq<Step>)
    ensures Commits(a + b) == Commits(a) + Commits(b)
  {
    if b == [] {
      assert a + b == a;
    } else {
      assert (a + b)[..|a + b| - 1] == a + b[..|b| - 1];
      CommitsOfConcat(a, b[..|b| - 1]);
    }
  }

  /** The commits of a run of commits alone are those commits, in order; flushes add none. */
  lemma {:induction false} CommitsAre(us: seq<DatabaseUpdates>, level: nat)
    ensures Commits(AllCommits(us)) == us && Commits([Flush(level)]) == []
  {
    if us == [] {
    } else {
      var first: Step := Commit(us[0]);
      CommitsAre(us[1..], level);
      CommitsOfConcat([first], AllCommits(us[1..]));
      assert [first][..0] == [];
    }
  }

  lemma {:induction false} MergedIsShort(a: DatabaseUpdates, b: DatabaseUpdates)
    requires ShortUpdates(a) && ShortUpdates(b)
    ensures ShortUpdates(MergedUpdates(a, b))
  {
    var m := MergedUpdates(a, b);
    forall n, p | n in m && p in m[n] ensures ShortPartition(m[n][p]) {
      MergedUpdatesAt(a, b, PartitionKey(n, p));
      assert n in a && p in a[n] ==> ShortPartition(a[n][p]);
      assert n in b && p in b[n] ==> ShortPartition(b[n][p]);
    }
  }

  lemma {:induction false} CommitIsSound(db: Database, u: DatabaseUpdates)
    requires Sound(db) && Takes(db, u)
    ensures Sound(DbCommit(db, u))
  {
    match db {
      case Memory(_) =>
      case Rocks(flat) =>
        forall b | b in FlatCommitted(flat, u) ensures WellFormed(b) && Short(DecodeKey(b).1) {
          FlatCommittedAt(flat, u, b);
        }
      case Staged(overlay, root) =>
        if OnRocks(root) {
          MergedIsShort(overlay, u);
        }
    }
  }

  /** What a run of short commits from the empty RocksDB store leaves is sound. */
  lemma {:induction false} RunIsSound(us: seq<DatabaseUpdates>)
    requires ShortRun(us)
    ensures Sound(Rocks(FlatCommittedAll(map[], us)))
  {
    if us == [] {
    } else {
      RunIsSound(us[..|us| - 1]);
      CommitIsSound(Rocks(FlatCommittedAll(map[], us[..|us| - 1])), us[|us| - 1]);
    }
  }

  lemma {:induction false} FlushIsSound(db: Database, level: nat)
    requires Sound(db)
    ensures Sound(FlushAt(db, level))
  {
    if !db.Staged? {
    } else if level == 0 {
      CommitIsSound(db.root, db.overlay);
    } else {
      FlushIsSound(db.root, level - 1);
    }
  }

  /** Only a commit that reaches RocksDB itself must be short. */
  lemma {:induction false} ViewOfCommit(db: Database, u: DatabaseUpdates)
    requires db.Rocks? ==> Sound(db) && Takes(db, u)
    ensures View(DbCommit(db, u)) == Committed(View(db), u)
  {
    match db {
      case Memory(_) =>
      case Rocks(flat) => ViewOfRocksCommit(flat, u);
      case Staged(overlay, root) => CommittedMerged(View(root), overlay, u);
    }
  }

  lemma {:induction false} ViewOfRocksCommit(flat: Flat, u: DatabaseUpdates)
    requires Sound(Rocks(flat)) && ShortUpdates(u)
    ensures Unflattened(FlatCommitted(flat, u)) == Committed(Unflattened(flat), u)
  {
    var mem := Unflattened(flat);
    UnflattenedSimulates(flat);
    forall pk, k | GetRaw(mem, pk, k).Some? ensures Short(k) {
      ReadsAgree(flat, mem, pk, k);
      DecodeEncode(pk, k);
    }
    ShortIsCovered(mem, u);
    CommitKeepsSimulation(flat, mem, u);
    SimulatesIff(FlatCommitted(flat, u), Committed(mem, u));
  }

  /** Flushing one level empties that level and leaves the view as it was. */
  lemma {:induction false} ViewOfFlush(db: Database, level: nat)
    requires Sound(db)
    ensures View(FlushAt(db, level)) == View(db)
    ensures db.Staged? && level == 0 ==> FlushAt(db, level).overlay == map[]
  {
    if !db.Staged? {
    } else if level == 0 {
      ViewOfTopFlush(db.overlay, db.root);
    } else {
      ViewOfFlush(db.root, level - 1);
      ViewOfStaged(db.overlay, FlushAt(db.root, level - 1), db.root);
    }
  }

  lemma {:induction false} ViewOfStaged(overlay: DatabaseUpdates, a: Database, b: Database)
    requires View(a) == View(b)
    ensures View(Staged(overlay, a)) == View(Staged(overlay, b))
  {
  }

  lemma {:induction false} ViewOfTopFlush(overlay: DatabaseUpdates, root: Database)
    requires Sound(root) && Takes(root, overlay)
    ensures View(Staged(map[], DbCommit(root, overlay))) == View(Staged(overlay, root))
  {
    ViewOfCommit(root, overlay);
    CommittedNothing(Committed(View(root), overlay));
  }

  /** The number of overlays in a stack. */
  function Height(db: Database): nat {
    if db.Staged? then 1 + Height(db.root) else 0
  }

  /** What the overlay `level` levels below the top stages, and what it is put over. */
  function Layer(db: Database, level: nat): DatabaseUpdates
    requires level < Height(db)
  {
    if level == 0 then db.overlay else Layer(db.root, level - 1)
  }

  function Under(db: Database, level: nat): Database
    requires level < Height(db)
  {
    if level == 0 then db.root else Under(db.root, level - 1)
  }

  /** A flush empties its level into what is under it, and leaves every level above as it was. */
  lemma {:induction false} FlushMovesLevel(db: Database, level: nat)
    requires Sound(db) && level < Height(db)
    ensures var after := FlushAt(db, level);
            && Height(after) == Height(db) && Layer(after, level) == map[]
            && (forall i :: 0 <= i < level ==> Layer(after, i) == Layer(db, i))
            && (Under(db, level).Rocks? ==> NodesEncodable(Layer(db, level)))
            && Under(after, level) == DbCommit(Under(db, level), Layer(db, level))
  {
    if level == 0 {
      CommitKeepsHeight(db.root, db.overlay);
    } else {
      FlushMovesLevel(db.root, level - 1);
      var after, below := FlushAt(db, level), FlushAt(db.root, level - 1);
      assert after == Staged(db.overlay, below);
      forall i | 0 <= i < level ensures Layer(after, i) == Layer(db, i) {
        assert i > 0 ==> Layer(below, i - 1) == Layer(db.root, i - 1);
      }
    }
  }

  lemma {:induction false} CommitKeepsHeight(db: Database, u: DatabaseUpdates)
    requires db.Rocks? ==> NodesEncodable(u)
    ensures Height(DbCommit(db, u)) == Height(db)
  {
  }

  /** Any run of commits and of flushes at any level leaves the view that
      the commits alone produce on the plain in-memory state. */
  lemma {:induction false} RunsAreCommitted(db: Database, steps: seq<Step>)
    requires Sound(db) && TakesAll(db, steps)
    ensures View(Run(db, steps)) == CommittedAll(View(db), Commits(steps))
  {
    if steps == [] {
    } else {
      var before := steps[..|steps| - 1];
      RunsAreCommitted(db, before);
      match steps[|steps| - 1] {
        case Commit(u) =>
          ViewOfCommit(Run(db, before), u);
          assert Commits(steps)[..|Commits(steps)| - 1] == Commits(before);
        case Flush(level) =>
          ViewOfFlush(Run(db, before), level);
      }
    }
  }

  /** Reads and listings after any run, in terms of the plain in-memory database. */
  lemma {:induction false} ReadsAfterAnyRun(
    db: Database, steps: seq<Step>, pk: PartitionKey, k: SortKey, from: Option<SortKey>)
    requires Sound(db) && TakesAll(db, steps) && Addresses(db, pk)
    ensures GetRawByKey(Run(db, steps), pk, k) == GetRaw(CommittedAll(View(db), Commits(steps)), pk, k)
    ensures ListRawByKey(Run(db, steps), pk, from) == ListRaw(CommittedAll(View(db), Commits(steps)), pk, from)
  {
    RunsAreCommitted(db, steps);
    ReadsAreCommitted(Run(db, steps), pk, k);
    ListingsAreCommitted(Run(db, steps), pk, from);
  }

  // ---------------------------------------------------------------------------------------
  // The overlay object
  // ---------------------------------------------------------------------------------------

  /** What an overlay may be put over. */
  datatype Root =
    | InMemory(memory: InMemoryDatabase)
    | OnDisk(store: RocksdbSubstateStore)
    | Below(layer: SubstateDatabaseOverlay)

  class SubstateDatabaseOverlay {
    var overlay: DatabaseUpdates
    const root: Root
    ghost const Repr: set<object>

    /** The objects below are this one's alone. Nothing here ever changes. */
    ghost predicate Valid()
      decreases Repr
    {
      this in Repr &&
      match root
      case InMemory(memory) => memory in Repr
      case OnDisk(store) => store in Repr
      case Below(layer) => layer in Repr && layer.Repr < Repr && this !in layer.Repr && layer.Valid()
    }

    constructor (root: Root)
      requires root.Below? ==> root.layer.Valid()
      ensures Valid() && this.root == root && overlay == map[]
      ensures Repr == {this} + match root
                               case InMemory(memory) => {memory}
                               case OnDisk(store) => {store}
                               case Below(layer) => layer.Repr
    {
      this.root := root;
      overlay := map[];
      Repr := {this} + match root
                       case InMemory(memory) => {memory}
                       case OnDisk(store) => {store}
                       case Below(layer) => layer.Repr;
    }

    ghost function Stack(): Database
      requires Valid()
      reads Repr
      decreases Repr, 1
    {
      Staged(overlay, RootStack())
    }

    ghost function RootStack(): Database
      requires Valid()
      reads Repr - {this}
      decreases Repr, 0
    {
      match root
      case InMemory(memory) => Memory(memory.partitions)
      case OnDisk(store) => Rocks(store.db)
      case Below(layer) => layer.Stack()
    }

    /** Stages the commit; nothing below is touched. */
    method Commit(u: DatabaseUpdates)
      requires Valid()
      modifies this
      ensures Stack() == DbCommit(old(Stack()), u)
      ensures View(Stack()) == Committed(old(View(Stack())), u)
    {
      ViewOfCommit(Stack(), u);
      var nodes := u.Keys;
      while nodes != {}
        invariant nodes <= u.Keys
        invariant RootStack() == old(RootStack())
        invariant forall n :: Get(overlay, n) ==
                    Get(if n in nodes then old(overlay) else MergedUpdates(old(overlay), u), n)
      {
        var n :| n in nodes;
        assert Get(overlay, n) == Get(old(overlay), n);
        if n in overlay {
          var merged := MergeNode(overlay[n], u[n]);
          overlay := overlay[n := merged];
        } else {
          overlay := overlay[n := u[n]];
        }
        nodes := nodes - {n};
      }
      forall n ensures Get(overlay, n) == Get(MergedUpdates(old(overlay), u), n) {
      }
      SameLookups(overlay, MergedUpdates(old(overlay), u));
    }

    static method MergeNode(a: NodeUpdates, b: NodeUpdates) returns (r: NodeUpdates)
      ensures r == MergedNode(a, b)
    {
      r := a;
      var nums := b.Keys;
      while nums != {}
        invariant nums <= b.Keys
        invariant forall p :: Get(r, p) == Get(if p in nums then a else MergedNode(a, b), p)
      {
        var p :| p in nums;
        assert Get(r, p) == Get(a, p);
        if p in r {
          var merged := MergePartition(r[p], b[p]);
          r := r[p := merged];
        } else {
          r := r[p := b[p]];
        }
        nums := nums - {p};
      }
      SameLookups(r, MergedNode(a, b));
    }

    static method MergePartition(a: PartitionUpdates, b: PartitionUpdates) returns (r: PartitionUpdates)
      ensures r == MergedPartition(a, b)
    {
      match (a, b) {
        case (Delta(x), Delta(y)) =>
          r := Delta(x + y);
        case (Reset(x), Delta(y)) =>
          var values := x;
          var left := y.Keys;
          while left != {}
            invariant left <= y.Keys
            invariant forall k :: Get(values, k) == if k in y && k !in left then Change(y[k]) else Get(x, k)
          {
            var k :| k in left;
            match y[k] {
              case Set(v) => values := values[k := v];
              case Delete => values := values - {k};
            }
            left := left - {k};
          }
          forall k ensures Get(values, k) == Get(Overlaid(x, Changes(y)), k) {
            SubstateChangeIsEffect(x, b, k);
          }
          SameLookups(values, Overlaid(x, Changes(y)));
          r := Reset(values);
        case (_, Reset(_)) =>
          r := b;
      }
    }

    /** Empties the overlay into the root. No read through the overlay changes. */
    method CommitOverlayIntoRootStore()
      requires Valid() && Sound(Stack())
      modifies Repr
      ensures overlay == map[]
      ensures Stack() == FlushAt(old(Stack()), 0)
      ensures View(RootStack()) == old(View(Stack())) && View(Stack()) == old(View(Stack()))
    {
      ViewOfFlush(Stack(), 0);
      ViewOfCommit(RootStack(), overlay);
      var staged := overlay;
      overlay := map[];
      match root {
        case InMemory(memory) => memory.Commit(staged);
        case OnDisk(store) => store.Commit(staged);
        case Below(layer) => layer.Commit(staged);
      }
    }

    function GetRawSubstate(pk: PartitionKey, k: SortKey): (r: Option<Value>)
      requires Valid() && Sound(Stack()) && Addresses(Stack(), pk)
      reads Repr
      ensures r == GetRaw(View(Stack()), pk, k)
      decreases Repr, 1
    {
      ReadsAreCommitted(Stack(), pk, k);
      match UpdateOf(overlay, pk)
      case Some(Delta(updates)) => if k in updates then Change(updates[k]) else GetFromRoot(pk, k)
      case Some(Reset(values)) => Get(values, k)
      case None => GetFromRoot(pk, k)
    }

    function GetFromRoot(pk: PartitionKey, k: SortKey): (r: Option<Value>)
      requires Valid() && Sound(RootStack()) && Addresses(RootStack(), pk)
      reads Repr
      ensures r == GetRawByKey(RootStack(), pk, k)
      decreases Repr, 0
    {
      ReadsAreCommitted(RootStack(), pk, k);
      match root
      case InMemory(memory) => memory.GetRawSubstate(pk, k)
      case OnDisk(store) => Get(store.db, EncodeKey(pk, k))
      case Below(layer) => layer.GetRawSubstate(pk, k)
    }
  }
}
