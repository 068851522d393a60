/** The untyped SBOR `Value` codec, the tree a typed value stands for, and SBOR depth. */
module SborTree {
  import opened Bytes
  import opened Ordered
  import opened SborWire
  import opened SborDerive
  import opened SborRoundTrip

  /** `sbor::Value` without custom values. */
  datatype Tree =
    | TLeaf(leaf: Leaf, value: LeafValue)
    | TTuple(fields: Trees)
    | TEnum(discriminator: Byte, fields: Trees)
    | TArray(elementKind: ValueKind, items: Trees)
    | TMap(keyKind: ValueKind, valueKind: ValueKind, entries: Entries)
  datatype Trees = TNil | TCons(head: Tree, tail: Trees)
  datatype Entries = ENil | ECons(key: Tree, value: Tree, rest: Entries)

  function TreeKind(t: Tree): ValueKind {
    match t
    case TLeaf(l, _) => LeafKind(l)
    case TTuple(_) => KTuple
    case TEnum(_, _) => KEnum
    case TArray(_, _) => KArray
    case TMap(_, _, _) => KMap
  }

  function Count(ts: Trees): nat {
    match ts
    case TNil => 0
    case TCons(_, t) => 1 + Count(t)
  }

  function EntryCount(es: Entries): nat {
    match es
    case ENil => 0
    case ECons(_, _, r) => 1 + EntryCount(r)
  }

  /** Sizes fit, primitives are in range, elements have the kind their container announces. */
  predicate Sized(t: Tree) {
    match t
    case TLeaf(l, v) => HasLeaf(v, l) && LeafSized(v)
    case TTuple(fs) => Count(fs) <= MAX_SIZE && SizedAll(fs)
    case TEnum(_, fs) => Count(fs) <= MAX_SIZE && SizedAll(fs)
    case TArray(k, items) => Count(items) <= MAX_SIZE && SizedAll(items) && Uniform(items, k)
    case TMap(k, v, es) => EntryCount(es) <= MAX_SIZE && SizedEntries(es, k, v)
  }

  predicate SizedAll(ts: Trees) {
    match ts
    case TNil => true
    case TCons(t, r) => Sized(t) && SizedAll(r)
  }

  predicate Uniform(ts: Trees, k: ValueKind) {
    match ts
    case TNil => true
    case TCons(t, r) => TreeKind(t) == k && Uniform(r, k)
  }

  predicate SizedEntries(es: Entries, k: ValueKind, v: ValueKind) {
    match es
    case ENil => true
    case ECons(x, y, r) => Sized(x) && Sized(y) && TreeKind(x) == k && TreeKind(y) == v && SizedEntries(r, k, v)
  }

  /** Each layer of the tree counts as one depth. */
  function TreeDepth(t: Tree): nat {
    match t
    case TLeaf(_, _) => 1
    case TTuple(fs) => 1 + TreesDepth(fs)
    case TEnum(_, fs) => 1 + TreesDepth(fs)
    case TArray(_, items) => 1 + TreesDepth(items)
    case TMap(_, _, es) => 1 + EntriesDepth(es)
  }

  function TreesDepth(ts: Trees): nat {
    match ts
    case TNil => 0
    case TCons(t, r) => Max(TreeDepth(t), TreesDepth(r))
  }

  function EntriesDepth(es: Entries): nat {
    match es
    case ENil => 0
    case ECons(x, y, r) => Max(Max(TreeDepth(x), TreeDepth(y)), EntriesDepth(r))
  }

  /** The body that the `Value` encoder writes. */
  function TreeBytes(t: Tree): Bytes
    requires Sized(t)
  {
    match t
    case TLeaf(l, v) => LeafBytes(l, v)
    case TTuple(fs) => Leb(Count(fs)) + FieldBytes(fs)
    case TEnum(disc, fs) => [disc] + (Leb(Count(fs)) + FieldBytes(fs))
    case TArray(k, items) => [AsU8(k)] + (Leb(Count(items)) + ItemBytes(items))
    case TMap(k, v, es) => [AsU8(k)] + ([AsU8(v)] + (Leb(EntryCount(es)) + EntryBytes(es, k, v)))
  }

  function FieldBytes(ts: Trees): Bytes
    requires SizedAll(ts)
  {
    match ts
    case TNil => []
    case TCons(t, r) => ([AsU8(TreeKind(t))] + TreeBytes(t)) + FieldBytes(r)
  }

  function ItemBytes(ts: Trees): Bytes
    requires SizedAll(ts)
  {
    match ts
    case TNil => []
    case TCons(t, r) => TreeBytes(t) + ItemBytes(r)
  }

  function EntryBytes(es: Entries, k: ValueKind, v: ValueKind): Bytes
    requires SizedEntries(es, k, v)
  {
    match es
    case ENil => []
    case ECons(x, y, r) => TreeBytes(x) + (TreeBytes(y) + EntryBytes(r, k, v))
  }

  /** The keys and values of a map, each key before its value. */
  function KeysAndValues(es: Entries): Trees {
    match es
    case ENil => TNil
    case ECons(x, y, r) => TCons(x, TCons(y, KeysAndValues(r)))
  }

  /** The entries of a map are laid out as the elements of an array that alternates keys and values. */
  lemma {:induction false} EntriesAlternate(es: Entries, k: ValueKind, v: ValueKind)
    requires SizedEntries(es, k, v)
    ensures SizedAll(KeysAndValues(es)) && EntryBytes(es, k, v) == ItemBytes(KeysAndValues(es))
  {
    match es {
      case ENil =>
      case ECons(_, _, r) => EntriesAlternate(r, k, v);
    }
  }

  /** Before them come the kind of the keys, the kind of the values and the number of entries. */
  lemma {:induction false} MapLayout(k: ValueKind, v: ValueKind, es: Entries)
    requires Sized(TMap(k, v, es))
    ensures SizedAll(KeysAndValues(es))
    ensures var b := TreeBytes(TMap(k, v, es));
            b == [AsU8(k), AsU8(v)] + (Leb(EntryCount(es)) + ItemBytes(KeysAndValues(es)))
  {
    EntriesAlternate(es, k, v);
    JoinBytes(AsU8(k), AsU8(v), Leb(EntryCount(es)) + EntryBytes(es, k, v));
  }

  lemma {:induction false} JoinBytes(x: Byte, y: Byte, rest: Bytes)
    ensures [x] + ([y] + rest) == [x, y] + rest
  {
  }

  // ---------------------------------------------------------------------------------------
  // Decoding a Value
  // ---------------------------------------------------------------------------------------

  function LeafOf(k: ValueKind): Option<Leaf> {
    match k
    case KBool => Some(LBool)
    case KI8 => Some(LInt(true, W1))
    case KI16 => Some(LInt(true, W2))
    case KI32 => Some(LInt(true, W4))
    case KI64 => Some(LInt(true, W8))
    case KI128 => Some(LInt(true, W16))
    case KU8 => Some(LInt(false, W1))
    case KU16 => Some(LInt(false, W2))
    case KU32 => Some(LInt(false, W4))
    case KU64 => Some(LInt(false, W8))
    case KU128 => Some(LInt(false, W16))
    case KString => Some(LString)
    case _ => None
  }

  /** `Value::decode_body_with_value_kind`. The `Vec`s it fills are lists here. */
  function DecodeTree(kind: ValueKind, b: Bytes, d: nat, max: nat): Dec<Tree>
    decreases max - d, 3
  {
    match kind
    case KTuple =>
      var (n, rest) :- ReadSize(b);
      var (fs, rest') :- DecodeTreeFields(n, rest, d, max);
      Ok(TTuple(fs), rest')
    case KEnum =>
      var (disc, rest) :- ReadByte(b);
      var (n, rest') :- ReadSize(rest);
      var (fs, rest'') :- DecodeTreeFields(n, rest', d, max);
      Ok(TEnum(disc, fs), rest'')
    case KArray =>
      var (k, rest) :- ReadValueKind(b);
      var (n, rest') :- ReadSize(rest);
      var (items, rest'') :- DecodeTreeItems(k, n, rest', d, max);
      Ok(TArray(k, items), rest'')
    case KMap =>
      var (k, rest) :- ReadValueKind(b);
      var (v, rest') :- ReadValueKind(rest);
      var (n, rest'') :- ReadSize(rest');
      var (es, rest3) :- DecodeTreeEntries(k, v, n, rest'', d, max);
      Ok(TMap(k, v, es), rest3)
    case _ =>
      var leaf := LeafOf(kind).value;
      var (v, rest) :- DecodeLeaf(leaf, b);
      Ok(TLeaf(leaf, v), rest)
  }

  function DecodeTreeDeeper(kind: ValueKind, b: Bytes, d: nat, max: nat): Dec<Tree>
    decreases max - d, 1
  {
    if d + 1 > max then Err(MaxDepthExceeded(max)) else DecodeTree(kind, b, d + 1, max)
  }

  function DecodeTreeFields(n: nat, b: Bytes, d: nat, max: nat): Dec<Trees>
    decreases max - d, 2, n
  {
    if n == 0 then Ok(TNil, b)
    else
      var (kind, rest) :- ReadValueKind(b);
      var (t, rest') :- DecodeTreeDeeper(kind, rest, d, max);
      var (ts, rest'') :- DecodeTreeFields(n - 1, rest', d, max);
      Ok(TCons(t, ts), rest'')
  }

  function DecodeTreeItems(k: ValueKind, n: nat, b: Bytes, d: nat, max: nat): Dec<Trees>
    decreases max - d, 2, n
  {
    if n == 0 then Ok(TNil, b)
    else
      var (t, rest) :- DecodeTreeDeeper(k, b, d, max);
      var (ts, rest') :- DecodeTreeItems(k, n - 1, rest, d, max);
      Ok(TCons(t, ts), rest')
  }

  function DecodeTreeEntries(k: ValueKind, v: ValueKind, n: nat, b: Bytes, d: nat, max: nat): Dec<Entries>
    decreases max - d, 2, n + 1
  {
    if n == 0 then Ok(ENil, b)
    else
      var (entry, rest) :- DecodeTreeEntry(k, v, b, d, max);
      var (es, rest') :- DecodeTreeEntries(k, v, n - 1, rest, d, max);
      Ok(ECons(entry.0, entry.1, es), rest')
  }

  function DecodeTreeEntry(k: ValueKind, v: ValueKind, b: Bytes, d: nat, max: nat): Dec<(Tree, Tree)>
    decreases max - d, 2, 0
  {
    var (x, rest) :- DecodeTreeDeeper(k, b, d, max);
    var (y, rest') :- DecodeTreeDeeper(v, rest, d, max);
    Ok((x, y), rest')
  }

  /** `decode::<Value>()`. */
  function DecodeValue(b: Bytes, max: nat): Dec<Tree> {
    var (kind, rest) :- ReadValueKind(b);
    DecodeTreeDeeper(kind, rest, 0, max)
  }

  // ---------------------------------------------------------------------------------------
  // The Value codec round trips at exactly the depths that fit
  // ---------------------------------------------------------------------------------------

  /** The result of reading something of depth `depth` at stack depth `d`. */
  function AtDepth<T>(v: T, rest: Bytes, depth: nat, d: nat, max: nat): Dec<T> {
    if d + depth <= max then Ok(v, rest) else Err(MaxDepthExceeded(max))
  }

  lemma {:induction false} TreeExact(t: Tree, d: nat, max: nat, suffix: Bytes)
    requires Sized(t) && 1 <= d <= max
    ensures DecodeTree(TreeKind(t), TreeBytes(t) + suffix, d, max) == AtDepth(t, suffix, TreeDepth(t), d - 1, max)
    decreases t, 0
  {
    match t {
      case TLeaf(l, v) => LeafExact(l, v, d, max, suffix);
      case TTuple(fs) => TupleExact(fs, d, max, suffix);
      case TEnum(disc, fs) => EnumExact(disc, fs, d, max, suffix);
      case TArray(k, items) => ArrayExact(k, items, d, max, suffix);
      case TMap(k, v, es) => MapExact(k, v, es, d, max, suffix);
    }
  }

  lemma {:induction false} LeafExact(l: Leaf, v: LeafValue, d: nat, max: nat, suffix: Bytes)
    requires HasLeaf(v, l) && LeafSized(v)
    ensures DecodeTree(LeafKind(l), LeafBytes(l, v) + suffix, d, max) == Ok(TLeaf(l, v), suffix)
  {
    LeafRoundTrip(l, v, suffix);
  }

  lemma {:induction false} TupleExact(fs: Trees, d: nat, max: nat, suffix: Bytes)
    requires Sized(TTuple(fs)) && 1 <= d <= max
    ensures DecodeTree(KTuple, TreeBytes(TTuple(fs)) + suffix, d, max) ==
            AtDepth(TTuple(fs), suffix, 1 + TreesDepth(fs), d - 1, max)
    decreases fs, 1
  {
    SizeThenFields(fs, suffix);
    FieldsExact(fs, d, max, suffix);
  }

  lemma {:induction false} EnumExact(disc: Byte, fs: Trees, d: nat, max: nat, suffix: Bytes)
    requires Sized(TEnum(disc, fs)) && 1 <= d <= max
    ensures DecodeTree(KEnum, TreeBytes(TEnum(disc, fs)) + suffix, d, max) ==
            AtDepth(TEnum(disc, fs), suffix, 1 + TreesDepth(fs), d - 1, max)
    decreases fs, 1
  {
    var body := Leb(Count(fs)) + FieldBytes(fs);
    var b := TreeBytes(TEnum(disc, fs)) + suffix;
    assert b[0] == disc && b[1..] == body + suffix;
    SizeThenFields(fs, suffix);
    FieldsExact(fs, d, max, suffix);
  }

  lemma {:induction false} SizeThenFields(fs: Trees, suffix: Bytes)
    requires SizedAll(fs) && Count(fs) <= MAX_SIZE
    ensures ReadSize((Leb(Count(fs)) + FieldBytes(fs)) + suffix) == Ok(Count(fs), FieldBytes(fs) + suffix)
  {
    Regroup(Leb(Count(fs)), FieldBytes(fs), suffix);
    ExpectedSizeRoundTrip(Count(fs), FieldBytes(fs) + suffix);
  }

  lemma {:induction false} ArrayExact(k: ValueKind, items: Trees, d: nat, max: nat, suffix: Bytes)
    requires Sized(TArray(k, items)) && 1 <= d <= max
    ensures DecodeTree(KArray, TreeBytes(TArray(k, items)) + suffix, d, max) ==
            AtDepth(TArray(k, items), suffix, 1 + TreesDepth(items), d - 1, max)
    decreases items, 1
  {
    var body := Leb(Count(items)) + ItemBytes(items);
    Regroup([AsU8(k)], body, suffix);
    KindRoundTrip(k, body + suffix);
    Regroup(Leb(Count(items)), ItemBytes(items), suffix);
    ExpectedSizeRoundTrip(Count(items), ItemBytes(items) + suffix);
    ItemsExact(items, k, d, max, suffix);
  }

  lemma {:induction false} DeeperExact(t: Tree, d: nat, max: nat, suffix: Bytes)
    requires Sized(t) && 1 <= d <= max
    ensures DecodeTreeDeeper(TreeKind(t), TreeBytes(t) + suffix, d, max) == AtDepth(t, suffix, TreeDepth(t), d, max)
    decreases t, 1
  {
    TreeDepthPositive(t);
    if d + 1 <= max {
      TreeExact(t, d + 1, max, suffix);
    }
  }

  lemma {:induction false} MapHeader(k: ValueKind, v: ValueKind, es: Entries, suffix: Bytes)
    requires Sized(TMap(k, v, es))
    ensures var n, tail := EntryCount(es), EntryBytes(es, k, v);
            && ReadValueKind(TreeBytes(TMap(k, v, es)) + suffix) == Ok(k, [AsU8(v)] + (Leb(n) + (tail + suffix)))
            && ReadValueKind([AsU8(v)] + (Leb(n) + (tail + suffix))) == Ok(v, Leb(n) + (tail + suffix))
            && ReadSize(Leb(n) + (tail + suffix)) == Ok(n, tail + suffix)
  {
    var n, tail := EntryCount(es), EntryBytes(es, k, v);
    Regroup([AsU8(k)], [AsU8(v)] + (Leb(n) + tail), suffix);
    Regroup([AsU8(v)], Leb(n) + tail, suffix);
    Regroup(Leb(n), tail, suffix);
    KindRoundTrip(k, [AsU8(v)] + (Leb(n) + (tail + suffix)));
    KindRoundTrip(v, Leb(n) + (tail + suffix));
    ExpectedSizeRoundTrip(n, tail + suffix);
  }

  lemma {:induction false} MapStep(b: Bytes, k: ValueKind, v: ValueKind, n: nat, rest: Bytes, d: nat, max: nat)
    requires ReadValueKind(b) == Ok(k, [AsU8(v)] + (Leb(n) + rest))
    requires ReadValueKind([AsU8(v)] + (Leb(n) + rest)) == Ok(v, Leb(n) + rest)
    requires ReadSize(Leb(n) + rest) == Ok(n, rest)
    ensures DecodeTree(KMap, b, d, max) ==
            match DecodeTreeEntries(k, v, n, rest, d, max) {
              case Err(e) => Err(e)
              case Ok(es, end) => Ok(TMap(k, v, es), end)
            }
  {
  }

  lemma {:induction false} MapExact(k: ValueKind, v: ValueKind, es: Entries, d: nat, max: nat, suffix: Bytes)
    requires Sized(TMap(k, v, es)) && 1 <= d <= max
    ensures DecodeTree(KMap, TreeBytes(TMap(k, v, es)) + suffix, d, max) ==
            AtDepth(TMap(k, v, es), suffix, 1 + EntriesDepth(es), d - 1, max)
    decreases es, 2
  {
    var n, tail := EntryCount(es), EntryBytes(es, k, v);
    MapHeader(k, v, es, suffix);
    MapStep(TreeBytes(TMap(k, v, es)) + suffix, k, v, n, tail + suffix, d, max);
    EntriesExact(es, k, v, d, max, suffix);
  }

  lemma {:induction false} FieldsExact(ts: Trees, d: nat, max: nat, suffix: Bytes)
    requires SizedAll(ts) && 1 <= d <= max
    ensures DecodeTreeFields(Count(ts), FieldBytes(ts) + suffix, d, max) == AtDepth(ts, suffix, TreesDepth(ts), d, max)
    decreases ts, 0
  {
    match ts {
      case TNil => assert [] + suffix == suffix;
      case TCons(t, r) =>
        FieldHeader(t, FieldBytes(r), suffix);
        FieldsStep(Count(r), FieldBytes(ts) + suffix, TreeKind(t), TreeBytes(t) + (FieldBytes(r) + suffix), d, max);
        DeeperExact(t, d, max, FieldBytes(r) + suffix);
        FieldsExact(r, d, max, suffix);
    }
  }

  lemma {:induction false} FieldsStep(n: nat, b: Bytes, kind: ValueKind, rest: Bytes, d: nat, max: nat)
    requires ReadValueKind(b) == Ok(kind, rest)
    ensures DecodeTreeFields(n + 1, b, d, max) ==
            match DecodeTreeDeeper(kind, rest, d, max) {
              case Err(e) => Err(e)
              case Ok(t, mid) =>
                match DecodeTreeFields(n, mid, d, max) {
                  case Err(e) => Err(e)
                  case Ok(ts, end) => Ok(TCons(t, ts), end)
                }
            }
  {
  }

  lemma {:induction false} FieldHeader(t: Tree, tail: Bytes, suffix: Bytes)
    requires Sized(t)
    ensures ReadValueKind(([AsU8(TreeKind(t))] + TreeBytes(t) + tail) + suffix) ==
            Ok(TreeKind(t), TreeBytes(t) + (tail + suffix))
  {
    var kind, body := [AsU8(TreeKind(t))], TreeBytes(t);
    Regroup(kind + body, tail, suffix);
    Regroup(kind, body, tail + suffix);
    KindRoundTrip(TreeKind(t), body + (tail + suffix));
  }

  lemma {:induction false} ItemsExact(ts: Trees, k: ValueKind, d: nat, max: nat, suffix: Bytes)
    requires SizedAll(ts) && Uniform(ts, k) && 1 <= d <= max
    ensures DecodeTreeItems(k, Count(ts), ItemBytes(ts) + suffix, d, max) == AtDepth(ts, suffix, TreesDepth(ts), d, max)
    decreases ts, 0
  {
    match ts {
      case TNil => assert [] + suffix == suffix;
      case TCons(t, r) =>
        Regroup(TreeBytes(t), ItemBytes(r), suffix);
        DeeperExact(t, d, max, ItemBytes(r) + suffix);
        ItemsExact(r, k, d, max, suffix);
    }
  }

  lemma {:induction false} EntriesExact(es: Entries, k: ValueKind, v: ValueKind, d: nat, max: nat, suffix: Bytes)
    requires SizedEntries(es, k, v) && 1 <= d <= max
    ensures DecodeTreeEntries(k, v, EntryCount(es), EntryBytes(es, k, v) + suffix, d, max) ==
            AtDepth(es, suffix, EntriesDepth(es), d, max)
    decreases es, 1
  {
    match es {
      case ENil => assert [] + suffix == suffix;
      case ECons(x, y, r) =>
        var tail := EntryBytes(r, k, v);
        Regroup(TreeBytes(x), TreeBytes(y) + tail, suffix);
        Regroup(TreeBytes(y), tail, suffix);
        EntryExact(es, d, max, tail + suffix);
        EntriesExact(r, k, v, d, max, suffix);
    }
  }

  lemma {:induction false} EntryExact(es: Entries, d: nat, max: nat, suffix: Bytes)
    requires es.ECons? && Sized(es.key) && Sized(es.value) && 1 <= d <= max
    ensures DecodeTreeEntry(TreeKind(es.key), TreeKind(es.value),
                            TreeBytes(es.key) + (TreeBytes(es.value) + suffix), d, max) ==
            AtDepth((es.key, es.value), suffix, Max(TreeDepth(es.key), TreeDepth(es.value)), d, max)
    decreases es, 0
  {
    DeeperExact(es.key, d, max, TreeBytes(es.value) + suffix);
    DeeperExact(es.value, d, max, suffix);
  }

  lemma {:induction false} TreeDepthPositive(t: Tree)
    ensures TreeDepth(t) >= 1
  {
  }

  // ---------------------------------------------------------------------------------------
  // Whatever the Value codec accepts is the encoding of what it returns
  // ---------------------------------------------------------------------------------------

  lemma {:induction false} TreeCanonical(kind: ValueKind, b: Bytes, d: nat, max: nat)
    requires DecodeTree(kind, b, d, max).Ok? && 1 <= d <= max
    ensures var r := DecodeTree(kind, b, d, max);
            && Sized(r.value) && TreeKind(r.value) == kind && d + TreeDepth(r.value) <= max + 1
            && b == TreeBytes(r.value) + r.rest
    decreases max - d, 3
  {
    match kind {
      case KTuple => TupleCanonical(b, d, max);
      case KEnum => EnumCanonical(b, d, max);
      case KArray => ArrayCanonical(b, d, max);
      case KMap => MapCanonical(b, d, max);
      case _ => LeafCanonical(LeafOf(kind).value, b);
    }
  }

  lemma {:induction false} SizeThen(b: Bytes, rest: Bytes, items: Bytes, end: Bytes, n: nat)
    requires ReadSize(b) == Ok(n, rest) && rest == items + end
    ensures n <= MAX_SIZE && b == (Leb(n) + items) + end
  {
    ReadSizeExact(b, n, rest);
    Regroup(Leb(n), items, end);
  }

  lemma {:induction false} TupleCanonical(b: Bytes, d: nat, max: nat)
    requires DecodeTree(KTuple, b, d, max).Ok? && 1 <= d <= max
    ensures var r := DecodeTree(KTuple, b, d, max);
            && r.value.TTuple? && Sized(r.value) && d + TreeDepth(r.value) <= max + 1
            && b == TreeBytes(r.value) + r.rest
    decreases max - d, 2
  {
    var size, r := ReadSize(b), DecodeTree(KTuple, b, d, max);
    FieldsCanonical(size.value, size.rest, d, max);
    SizeThen(b, size.rest, FieldBytes(r.value.fields), r.rest, size.value);
  }

  lemma {:induction false} EnumCanonical(b: Bytes, d: nat, max: nat)
    requires DecodeTree(KEnum, b, d, max).Ok? && 1 <= d <= max
    ensures var r := DecodeTree(KEnum, b, d, max);
            && r.value.TEnum? && Sized(r.value) && d + TreeDepth(r.value) <= max + 1
            && b == TreeBytes(r.value) + r.rest
    decreases max - d, 2
  {
    var rest := b[1..];
    var size, r := ReadSize(rest), DecodeTree(KEnum, b, d, max);
    FieldsCanonical(size.value, size.rest, d, max);
    var fields := FieldBytes(r.value.fields);
    SizeThen(rest, size.rest, fields, r.rest, size.value);
    FirstByteJoins(b, Leb(size.value) + fields, r.rest);
  }

  lemma {:induction false} FirstByteJoins(b: Bytes, body: Bytes, rest: Bytes)
    requires b != [] && b[1..] == body + rest
    ensures b == ([b[0]] + body) + rest
  {
    assert b == [b[0]] + b[1..];
    Regroup([b[0]], body, rest);
  }

  lemma {:induction false} ArrayCanonical(b: Bytes, d: nat, max: nat)
    requires DecodeTree(KArray, b, d, max).Ok? && 1 <= d <= max
    ensures var r := DecodeTree(KArray, b, d, max);
            && r.value.TArray? && Sized(r.value) && d + TreeDepth(r.value) <= max + 1
            && b == TreeBytes(r.value) + r.rest
    decreases max - d, 2
  {
    KindCanonical(b);
    var kind := ReadValueKind(b);
    var size, r := ReadSize(kind.rest), DecodeTree(KArray, b, d, max);
    ItemsCanonical(kind.value, size.value, size.rest, d, max);
    var items := ItemBytes(r.value.items);
    SizeThen(kind.rest, size.rest, items, r.rest, size.value);
    Regroup([AsU8(kind.value)], Leb(size.value) + items, r.rest);
  }

  lemma {:induction false} MapCanonical(b: Bytes, d: nat, max: nat)
    requires DecodeTree(KMap, b, d, max).Ok? && 1 <= d <= max
    ensures var r := DecodeTree(KMap, b, d, max);
            && r.value.TMap? && Sized(r.value) && d + TreeDepth(r.value) <= max + 1
            && b == TreeBytes(r.value) + r.rest
    decreases max - d, 2
  {
    KindCanonical(b);
    var k := ReadValueKind(b);
    KindCanonical(k.rest);
    var v := ReadValueKind(k.rest);
    var size, r := ReadSize(v.rest), DecodeTree(KMap, b, d, max);
    EntriesCanonical(k.value, v.value, size.value, size.rest, d, max);
    var entries := EntryBytes(r.value.entries, k.value, v.value);
    SizeThen(v.rest, size.rest, entries, r.rest, size.value);
    Regroup([AsU8(v.value)], Leb(size.value) + entries, r.rest);
    Regroup([AsU8(k.value)], [AsU8(v.value)] + (Leb(size.value) + entries), r.rest);
  }

  lemma {:induction false} DeeperCanonical(kind: ValueKind, b: Bytes, d: nat, max: nat)
    requires DecodeTreeDeeper(kind, b, d, max).Ok? && d <= max
    ensures var r := DecodeTreeDeeper(kind, b, d, max);
            && Sized(r.value) && TreeKind(r.value) == kind && d + TreeDepth(r.value) <= max
            && b == TreeBytes(r.value) + r.rest
    decreases max - d, 0
  {
    TreeCanonical(kind, b, d + 1, max);
  }

  lemma {:induction false} FieldsCanonical(n: nat, b: Bytes, d: nat, max: nat)
    requires DecodeTreeFields(n, b, d, max).Ok? && 1 <= d <= max
    ensures var r := DecodeTreeFields(n, b, d, max);
            && SizedAll(r.value) && Count(r.value) == n && d + TreesDepth(r.value) <= max
            && b == FieldBytes(r.value) + r.rest
    decreases max - d, 1, n
  {
    if n == 0 {
      assert b == [] + b;
    } else {
      KindCanonical(b);
      var kind := ReadValueKind(b);
      var head, r := DecodeTreeDeeper(kind.value, kind.rest, d, max), DecodeTreeFields(n, b, d, max);
      FieldsStep(n - 1, b, kind.value, kind.rest, d, max);
      DeeperCanonical(kind.value, kind.rest, d, max);
      FieldsCanonical(n - 1, head.rest, d, max);
      var tail := FieldBytes(r.value.tail);
      Regroup(TreeBytes(head.value), tail, r.rest);
      Regroup([AsU8(kind.value)], TreeBytes(head.value), tail + r.rest);
      Regroup([AsU8(kind.value)] + TreeBytes(head.value), tail, r.rest);
    }
  }

  lemma {:induction false} ItemsCanonical(k: ValueKind, n: nat, b: Bytes, d: nat, max: nat)
    requires DecodeTreeItems(k, n, b, d, max).Ok? && 1 <= d <= max
    ensures var r := DecodeTreeItems(k, n, b, d, max);
            && SizedAll(r.value) && Uniform(r.value, k) && Count(r.value) == n && d + TreesDepth(r.value) <= max
            && b == ItemBytes(r.value) + r.rest
    decreases max - d, 1, n
  {
    if n == 0 {
      assert b == [] + b;
    } else {
      var head, r := DecodeTreeDeeper(k, b, d, max), DecodeTreeItems(k, n, b, d, max);
      DeeperCanonical(k, b, d, max);
      ItemsCanonical(k, n - 1, head.rest, d, max);
      Regroup(TreeBytes(head.value), ItemBytes(r.value.tail), r.rest);
    }
  }

  lemma {:induction false} EntriesCanonical(k: ValueKind, v: ValueKind, n: nat, b: Bytes, d: nat, max: nat)
    requires DecodeTreeEntries(k, v, n, b, d, max).Ok? && 1 <= d <= max
    ensures var r := DecodeTreeEntries(k, v, n, b, d, max);
            && SizedEntries(r.value, k, v) && EntryCount(r.value) == n && d + EntriesDepth(r.value) <= max
            && b == EntryBytes(r.value, k, v) + r.rest
    decreases max - d, 1, n + 1
  {
    if n == 0 {
      assert b == [] + b;
    } else {
      var entry := DecodeTreeEntry(k, v, b, d, max);
      EntriesStep(k, v, n - 1, b, d, max);
      EntryCanonical(k, v, b, d, max);
      EntriesCanonical(k, v, n - 1, entry.rest, d, max);
      var more := DecodeTreeEntries(k, v, n - 1, entry.rest, d, max);
      var x, y, tail := TreeBytes(entry.value.0), TreeBytes(entry.value.1), EntryBytes(more.value, k, v);
      Regroup(y, tail, more.rest);
      Regroup(x, y + tail, more.rest);
    }
  }

  lemma {:induction false} EntriesStep(k: ValueKind, v: ValueKind, n: nat, b: Bytes, d: nat, max: nat)
    ensures DecodeTreeEntries(k, v, n + 1, b, d, max) ==
            match DecodeTreeEntry(k, v, b, d, max) {
              case Err(e) => Err(e)
              case Ok(entry, mid) =>
                match DecodeTreeEntries(k, v, n, mid, d, max) {
                  case Err(e) => Err(e)
                  case Ok(es, end) => Ok(ECons(entry.0, entry.1, es), end)
                }
            }
  {
  }

  lemma {:induction false} EntryCanonical(k: ValueKind, v: ValueKind, b: Bytes, d: nat, max: nat)
    requires DecodeTreeEntry(k, v, b, d, max).Ok? && 1 <= d <= max
    ensures var r := DecodeTreeEntry(k, v, b, d, max);
            var (x, y) := r.value;
            && Sized(x) && Sized(y) && TreeKind(x) == k && TreeKind(y) == v
            && d + TreeDepth(x) <= max && d + TreeDepth(y) <= max
            && b == TreeBytes(x) + (TreeBytes(y) + r.rest)
    decreases max - d, 1, 0
  {
    DeeperCanonical(k, b, d, max);
    DeeperCanonical(v, DecodeTreeDeeper(k, b, d, max).rest, d, max);
  }

  /** The untyped decoder accepts, at each limit, exactly the encodings of the values that are no
      deeper, and returns the value and what follows it. */
  lemma {:induction false} DecodeValueIff(b: Bytes, max: nat, t: Tree, rest: Bytes)
    ensures DecodeValue(b, max) == Ok(t, rest) <==>
            Sized(t) && TreeDepth(t) <= max && b == ([AsU8(TreeKind(t))] + TreeBytes(t)) + rest
  {
    if DecodeValue(b, max) == Ok(t, rest) {
      KindCanonical(b);
      var kind := ReadValueKind(b);
      DeeperCanonical(kind.value, kind.rest, 0, max);
      Regroup([AsU8(kind.value)], TreeBytes(t), rest);
    }
    if Sized(t) && TreeDepth(t) <= max && b == ([AsU8(TreeKind(t))] + TreeBytes(t)) + rest {
      ValueExact(t, max, rest);
    }
  }

  /** Reading back the encoding of a value, at every limit. */
  lemma {:induction false} ValueExact(t: Tree, max: nat, suffix: Bytes)
    requires Sized(t)
    ensures DecodeValue(([AsU8(TreeKind(t))] + TreeBytes(t)) + suffix, max) ==
            AtDepth(t, suffix, TreeDepth(t), 0, max)
  {
    Regroup([AsU8(TreeKind(t))], TreeBytes(t), suffix);
    KindRoundTrip(TreeKind(t), TreeBytes(t) + suffix);
    TreeDepthPositive(t);
    if max >= 1 {
      TreeExact(t, 1, max, suffix);
    }
  }

  // ---------------------------------------------------------------------------------------
  // The tree of a typed value
  // ---------------------------------------------------------------------------------------

  function ToTree(s: Shape, v: Value): Tree
    requires HasShape(v, s)
    decreases s, 0
  {
    match s
    case Leaf(l) => TLeaf(l, v.leaf)
    case Struct(fs) => TTuple(ToTrees(fs, v.fields))
    case Transparent(fs) => UniqueTree(fs, v.fields)
    case Enum(xs) => VariantTree(xs, v.variant, v.fields)
    case Vec(e) => TArray(KindOf(e), ItemTrees(e, v.items))
    case Array(e, _) => TArray(KindOf(e), ItemTrees(e, v.items))
  }

  function ToTrees(fs: Fields, vs: Values): Trees
    requires HasFields(vs, fs)
  {
    match fs
    case FNil => TNil
    case FCons(f, t) =>
      if f.skipped then ToTrees(t, vs.tail) else TCons(ToTree(f.shape, vs.head), ToTrees(t, vs.tail))
  }

  /** A transparent layer is not a layer of the tree. */
  function UniqueTree(fs: Fields, vs: Values): Tree
    requires HasFields(vs, fs)
  {
    match fs
    case FNil => TTuple(TNil)
    case FCons(f, t) => if f.skipped then UniqueTree(t, vs.tail) else ToTree(f.shape, vs.head)
  }

  /** A flattened tuple lends its fields to the variant. */
  function VariantTree(xs: Variants, i: nat, vs: Values): Tree
    requires HasVariant(vs, xs, i)
  {
    if i > 0 then VariantTree(xs.tail, i - 1, vs)
    else if xs.head.handling.Flatten? then
      var inner := UniqueTree(xs.head.fields, vs);
      TEnum(xs.head.discriminator, if inner.TTuple? then inner.fields else TNil)
    else TEnum(xs.head.discriminator, ToTrees(xs.head.fields, vs))
  }

  function ItemTrees(e: Shape, vs: Values): Trees
    requires HasItems(vs, e)
    decreases e, 1, vs
  {
    match vs
    case VNil => TNil
    case VCons(v, t) => TCons(ToTree(e, v), ItemTrees(e, t))
  }

  /** No encoded part of the value is an unreachable variant. */
  predicate Reachable(s: Shape, v: Value)
    requires HasShape(v, s)
    decreases s, 0
  {
    match s
    case Leaf(_) => true
    case Struct(fs) => ReachableFields(fs, v.fields)
    case Transparent(fs) => ReachableFields(fs, v.fields)
    case Enum(xs) => ReachableVariant(xs, v.variant, v.fields)
    case Vec(e) => ReachableItems(e, v.items)
    case Array(e, _) => ReachableItems(e, v.items)
  }

  predicate ReachableFields(fs: Fields, vs: Values)
    requires HasFields(vs, fs)
  {
    match fs
    case FNil => true
    case FCons(f, t) => (!f.skipped ==> Reachable(f.shape, vs.head)) && ReachableFields(t, vs.tail)
  }

  predicate ReachableVariant(xs: Variants, i: nat, vs: Values)
    requires HasVariant(vs, xs, i)
  {
    if i > 0 then ReachableVariant(xs.tail, i - 1, vs)
    else !xs.head.handling.Unreachable? && ReachableFields(xs.head.fields, vs)
  }

  predicate ReachableItems(e: Shape, vs: Values)
    requires HasItems(vs, e)
    decreases e, 1, vs
  {
    match vs
    case VNil => true
    case VCons(v, t) => Reachable(e, v) && ReachableItems(e, t)
  }

  // ---------------------------------------------------------------------------------------
  // The bytes that typed decoding does not count
  // ---------------------------------------------------------------------------------------

  /** The depth at which the elements of the deepest non-empty byte vector sit, 0 without one. */
  function ByteDepth(s: Shape, v: Value): nat
    requires HasShape(v, s)
    decreases s, 0
  {
    match s
    case Leaf(_) => 0
    case Struct(fs) => Deeper(FieldsByteDepth(fs, v.fields))
    case Transparent(fs) => UniqueByteDepth(fs, v.fields)
    case Enum(xs) => VariantByteDepth(xs, v.variant, v.fields)
    case Vec(e) =>
      if IsByteKind(KindOf(e)) then (if v.items.VNil? then 0 else 2) else Deeper(ItemsByteDepth(e, v.items))
    case Array(e, _) => Deeper(ItemsByteDepth(e, v.items))
  }

  function Deeper(n: nat): nat {
    if n == 0 then 0 else 1 + n
  }

  function FieldsByteDepth(fs: Fields, vs: Values): nat
    requires HasFields(vs, fs)
  {
    match fs
    case FNil => 0
    case FCons(f, t) =>
      if f.skipped then FieldsByteDepth(t, vs.tail) else Max(ByteDepth(f.shape, vs.head), FieldsByteDepth(t, vs.tail))
  }

  function UniqueByteDepth(fs: Fields, vs: Values): nat
    requires HasFields(vs, fs)
  {
    match fs
    case FNil => 0
    case FCons(f, t) => if f.skipped then UniqueByteDepth(t, vs.tail) else ByteDepth(f.shape, vs.head)
  }

  function VariantByteDepth(xs: Variants, i: nat, vs: Values): nat
    requires HasVariant(vs, xs, i)
  {
    if i > 0 then VariantByteDepth(xs.tail, i - 1, vs)
    else if xs.head.handling.Flatten? then UniqueByteDepth(xs.head.fields, vs)
    else Deeper(FieldsByteDepth(xs.head.fields, vs))
  }

  function ItemsByteDepth(e: Shape, vs: Values): nat
    requires HasItems(vs, e)
    decreases e, 1, vs
  {
    match vs
    case VNil => 0
    case VCons(v, t) => Max(ByteDepth(e, v), ItemsByteDepth(e, t))
  }
}
