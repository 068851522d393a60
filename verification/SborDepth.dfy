/** The typed codec against the untyped one: same bytes, and exactly when the same depth;
    and what `SborTuple` and `SborEnum` report against what is written. */
module SborDepth {
  import opened Bytes
  import opened SborWire
  import opened SborDerive
  import opened SborRoundTrip
  import opened SborTree

  // ---------------------------------------------------------------------------------------
  // The shape of the tree
  // ---------------------------------------------------------------------------------------

  lemma {:induction false} TreeKindAgrees(s: Shape, v: Value)
    requires HasShape(v, s)
    ensures TreeKind(ToTree(s, v)) == KindOf(s)
  {
    match s {
      case Transparent(fs) => UniqueTreeKindAgrees(fs, v.fields);
      case Enum(xs) => VariantTreeIsEnum(xs, v.variant, v.fields);
      case _ =>
    }
  }

  lemma {:induction false} UniqueTreeKindAgrees(fs: Fields, vs: Values)
    requires HasFields(vs, fs)
    ensures TreeKind(UniqueTree(fs, vs)) == UniqueKind(fs)
  {
    if fs.FNil? {
    } else {
      if fs.head.skipped {
        UniqueTreeKindAgrees(fs.tail, vs.tail);
      } else {
        TreeKindAgrees(fs.head.shape, vs.head);
      }
    }
  }

  lemma {:induction false} VariantTreeIsEnum(xs: Variants, i: nat, vs: Values)
    requires HasVariant(vs, xs, i)
    ensures VariantTree(xs, i, vs).TEnum?
  {
    if i == 0 {
    } else {
      VariantTreeIsEnum(xs.tail, i - 1, vs);
    }
  }

  /** A flattened field is a tuple of the tree. */
  lemma {:induction false} UniqueTreeIsTuple(fs: Fields, vs: Values)
    requires HasFields(vs, fs) && UniqueIsTuple(fs)
    ensures UniqueTree(fs, vs).TTuple?
  {
    UniqueTreeKindAgrees(fs, vs);
    UniqueTupleKind(fs);
  }

  lemma {:induction false} TreesCount(fs: Fields, vs: Values)
    requires HasFields(vs, fs)
    ensures Count(ToTrees(fs, vs)) == Unskipped(fs)
  {
    if fs.FNil? {
    } else {
      TreesCount(fs.tail, vs.tail);
    }
  }

  lemma {:induction false} ItemsCount(e: Shape, vs: Values)
    requires HasItems(vs, e)
    ensures Count(ItemTrees(e, vs)) == Length(vs) && Uniform(ItemTrees(e, vs), KindOf(e))
    decreases vs
  {
    if vs.VNil? {
    } else {
      TreeKindAgrees(e, vs.head);
      ItemsCount(e, vs.tail);
    }
  }

  // ---------------------------------------------------------------------------------------
  // The typed encoder writes the tree, and fails exactly for size, depth or reachability
  // ---------------------------------------------------------------------------------------

  /** Written if and only if `ok`, and then as `bytes`. */
  ghost predicate Writes(e: Enc, ok: bool, t: Tree)
    requires ok ==> Sized(t)
  {
    (e.Wrote? <==> ok) && (e.Wrote? ==> e.bytes == TreeBytes(t))
  }

  predicate BodyFits(s: Shape, v: Value, d: nat, max: nat)
    requires HasShape(v, s)
  {
    Reachable(s, v) && Sized(ToTree(s, v)) && d + Depth(s, v, Encoding) <= max + 1
  }

  lemma {:induction false} EncodesTree(s: Shape, v: Value, d: nat, max: nat)
    requires Accepted(s) && HasShape(v, s) && 1 <= d <= max
    ensures Writes(EncodeBody(s, v, d, max), BodyFits(s, v, d, max), ToTree(s, v))
    decreases s, 0
  {
    match s {
      case Leaf(l) =>
      case Struct(fs) =>
        TreesCount(fs, v.fields);
        EncodesFields(fs, v.fields, d, max);
      case Transparent(fs) => EncodesUnique(fs, v.fields, d, max);
      case Enum(xs) => EncodesVariant(xs, v.variant, v.fields, d, max);
      case Vec(e) => EncodesSlice(e, v.items, d, max);
      case Array(e, _) => EncodesSlice(e, v.items, d, max);
    }
  }

  lemma {:induction false} EncodesSlice(e: Shape, vs: Values, d: nat, max: nat)
    requires Accepted(e) && Castable(e) && HasItems(vs, e) && 1 <= d <= max
    ensures var t := TArray(KindOf(e), ItemTrees(e, vs));
            var depth := if IsByteKind(KindOf(e)) then 0 else ItemsDepth(e, vs, Encoding);
            Writes(EncodeSlice(e, vs, d, max), ReachableItems(e, vs) && Sized(t) && d + depth <= max, t)
    decreases e, 3
  {
    ItemsCount(e, vs);
    if IsByteKind(KindOf(e)) {
      EncodesBytes(e, vs, d, max);
    } else {
      EncodesItems(e, vs, d, max);
    }
  }

  lemma {:induction false} EncodesDeeper(s: Shape, v: Value, d: nat, max: nat)
    requires Accepted(s) && HasShape(v, s) && 1 <= d <= max
    ensures Writes(EncodeDeeper(s, v, d, max), BodyFits(s, v, d + 1, max), ToTree(s, v))
    decreases s, 1
  {
    if d + 1 <= max {
      EncodesTree(s, v, d + 1, max);
    } else {
      DepthPositive(s, v, Encoding);
    }
  }

  lemma {:induction false} EncodesFields(fs: Fields, vs: Values, d: nat, max: nat)
    requires AcceptedFields(fs) && HasFields(vs, fs) && 1 <= d <= max
    ensures EncodeFields(fs, vs, d, max).Wrote? <==>
            ReachableFields(fs, vs) && SizedAll(ToTrees(fs, vs)) && d + FieldsDepth(fs, vs, Encoding) <= max
    ensures EncodeFields(fs, vs, d, max).Wrote? ==>
              EncodeFields(fs, vs, d, max).bytes == FieldBytes(ToTrees(fs, vs))
    decreases fs
  {
    if fs.FNil? {
    } else {
      EncodesFields(fs.tail, vs.tail, d, max);
      if !fs.head.skipped {
        EncodesDeeper(fs.head.shape, vs.head, d, max);
        TreeKindAgrees(fs.head.shape, vs.head);
      }
    }
  }

  lemma {:induction false} NothingUnskipped(fs: Fields, vs: Values)
    requires HasFields(vs, fs) && Unskipped(fs) == 0
    ensures ReachableFields(fs, vs)
  {
    if fs.FNil? {
    } else {
      NothingUnskipped(fs.tail, vs.tail);
    }
  }

  lemma {:induction false} EncodesUnique(fs: Fields, vs: Values, d: nat, max: nat)
    requires AcceptedFields(fs) && HasFields(vs, fs) && Unskipped(fs) == 1 && 1 <= d <= max
    ensures var fits := d + UniqueDepth(fs, vs, Encoding) <= max + 1;
            var ok := ReachableFields(fs, vs) && Sized(UniqueTree(fs, vs)) && fits;
            Writes(EncodeUnique(fs, vs, d, max), ok, UniqueTree(fs, vs))
    decreases fs
  {
    if fs.head.skipped {
      EncodesUnique(fs.tail, vs.tail, d, max);
    } else {
      EncodesTree(fs.head.shape, vs.head, d, max);
      NothingUnskipped(fs.tail, vs.tail);
    }
  }

  lemma {:induction false} EncodesVariant(xs: Variants, i: nat, vs: Values, d: nat, max: nat)
    requires AcceptedVariants(xs) && HasVariant(vs, xs, i) && 1 <= d <= max
    ensures var t := VariantTree(xs, i, vs);
            var ok := ReachableVariant(xs, i, vs) && Sized(t) && d + VariantDepth(xs, i, vs, Encoding) <= max + 1;
            Writes(EncodeVariant(xs, i, vs, d, max), ok, t)
    decreases xs
  {
    if i > 0 {
      EncodesVariant(xs.tail, i - 1, vs, d, max);
    } else if xs.head.handling.Standard? {
      TreesCount(xs.head.fields, vs);
      EncodesFields(xs.head.fields, vs, d, max);
    } else if xs.head.handling.Flatten? {
      UniqueTreeIsTuple(xs.head.fields, vs);
      EncodesUnique(xs.head.fields, vs, d, max);
    }
  }

  lemma {:induction false} EncodesItems(e: Shape, vs: Values, d: nat, max: nat)
    requires Accepted(e) && HasItems(vs, e) && !IsByteKind(KindOf(e)) && 1 <= d <= max
    ensures EncodeItems(e, vs, d, max).Wrote? <==>
            ReachableItems(e, vs) && SizedAll(ItemTrees(e, vs)) && d + ItemsDepth(e, vs, Encoding) <= max
    ensures EncodeItems(e, vs, d, max).Wrote? ==> EncodeItems(e, vs, d, max).bytes == ItemBytes(ItemTrees(e, vs))
    decreases e, 2, vs
  {
    if vs.VNil? {
    } else {
      EncodesDeeper(e, vs.head, d, max);
      EncodesItems(e, vs.tail, d, max);
    }
  }

  /** The tree of a one-byte value is a single leaf, of that byte. */
  lemma {:induction false} OneByteTree(e: Shape, v: Value)
    requires OneByte(e) && HasShape(v, e)
    ensures Reachable(e, v) && Sized(ToTree(e, v)) && TreeDepth(ToTree(e, v)) == 1
    ensures TreeBytes(ToTree(e, v)) == [ByteIn(e, v)]
  {
    match e {
      case Leaf(_) =>
      case Transparent(FCons(f, FNil)) =>
        assert HasFields(v.fields, e.fields) && HasFields(v.fields.tail, FNil);
        assert UniqueTree(e.fields, v.fields) == ToTree(f.shape, v.fields.head);
        assert ReachableFields(FNil, v.fields.tail);
        OneByteTree(f.shape, v.fields.head);
    }
  }

  lemma {:induction false} EncodesBytes(e: Shape, vs: Values, d: nat, max: nat)
    requires OneByte(e) && IsByteKind(KindOf(e)) && HasItems(vs, e)
    ensures ReachableItems(e, vs) && SizedAll(ItemTrees(e, vs))
    ensures EncodeItems(e, vs, d, max) == Wrote(ItemBytes(ItemTrees(e, vs)))
    decreases vs
  {
    match vs {
      case VNil =>
      case VCons(v, t) =>
        OneByteTree(e, v);
        OneByteWrites(e, v, d, max);
        EncodesBytes(e, t, d, max);
    }
  }

  // ---------------------------------------------------------------------------------------
  // Typed depth against tree depth
  // ---------------------------------------------------------------------------------------

  /** The tree is as deep as the typed decoder measures, or as deep as its deepest byte in a vector. */
  lemma {:induction false} TreeDepthIs(s: Shape, v: Value)
    requires Accepted(s) && HasShape(v, s) && Reachable(s, v)
    ensures TreeDepth(ToTree(s, v)) == Max(Depth(s, v, Decoding), ByteDepth(s, v))
    decreases s, 0
  {
    match s {
      case Leaf(_) =>
      case Struct(fs) => FieldsDepthIs(fs, v.fields);
      case Transparent(fs) => UniqueDepthIs(fs, v.fields);
      case Enum(xs) => VariantDepthIs(xs, v.variant, v.fields);
      case Vec(e) =>
        if IsByteKind(KindOf(e)) {
          BytesDepthIs(e, v.items);
        } else {
          ItemsDepthIs(e, v.items);
        }
      case Array(e, _) => ItemsDepthIs(e, v.items);
    }
  }

  lemma {:induction false} FieldsDepthIs(fs: Fields, vs: Values)
    requires AcceptedFields(fs) && HasFields(vs, fs) && ReachableFields(fs, vs)
    ensures TreesDepth(ToTrees(fs, vs)) == Max(FieldsDepth(fs, vs, Decoding), FieldsByteDepth(fs, vs))
    decreases fs
  {
    if fs.FNil? {
    } else {
      FieldsDepthIs(fs.tail, vs.tail);
      if !fs.head.skipped {
        TreeDepthIs(fs.head.shape, vs.head);
      }
    }
  }

  lemma {:induction false} UniqueDepthIs(fs: Fields, vs: Values)
    requires AcceptedFields(fs) && HasFields(vs, fs) && ReachableFields(fs, vs)
    ensures TreeDepth(UniqueTree(fs, vs)) == Max(UniqueDepth(fs, vs, Decoding), UniqueByteDepth(fs, vs))
    decreases fs
  {
    if fs.FNil? {
    } else {
      if fs.head.skipped {
        UniqueDepthIs(fs.tail, vs.tail);
      } else {
        TreeDepthIs(fs.head.shape, vs.head);
      }
    }
  }

  lemma {:induction false} VariantDepthIs(xs: Variants, i: nat, vs: Values)
    requires AcceptedVariants(xs) && HasVariant(vs, xs, i) && ReachableVariant(xs, i, vs)
    ensures TreeDepth(VariantTree(xs, i, vs)) == Max(VariantDepth(xs, i, vs, Decoding), VariantByteDepth(xs, i, vs))
    decreases xs
  {
    if i > 0 {
      VariantDepthIs(xs.tail, i - 1, vs);
    } else if xs.head.handling.Flatten? {
      UniqueTreeIsTuple(xs.head.fields, vs);
      UniqueDepthIs(xs.head.fields, vs);
    } else {
      FieldsDepthIs(xs.head.fields, vs);
    }
  }

  lemma {:induction false} ItemsDepthIs(e: Shape, vs: Values)
    requires Accepted(e) && HasItems(vs, e) && ReachableItems(e, vs)
    ensures TreesDepth(ItemTrees(e, vs)) == Max(ItemsDepth(e, vs, Decoding), ItemsByteDepth(e, vs))
    decreases e, 1, vs
  {
    if vs.VNil? {
    } else {
      TreeDepthIs(e, vs.head);
      ItemsDepthIs(e, vs.tail);
    }
  }

  lemma {:induction false} BytesDepthIs(e: Shape, vs: Values)
    requires OneByte(e) && HasItems(vs, e)
    ensures TreesDepth(ItemTrees(e, vs)) == if vs.VNil? then 0 else 1
    decreases vs
  {
    if vs.VNil? {
    } else {
      OneByteTree(e, vs.head);
      BytesDepthIs(e, vs.tail);
    }
  }

  // ---------------------------------------------------------------------------------------
  // Defaulting skipped fields changes nothing that is encoded
  // ---------------------------------------------------------------------------------------

  lemma {:induction false} DefaultedSame(s: Shape, v: Value, side: Side)
    requires HasShape(v, s)
    ensures var w := Defaulted(s, v);
            HasShape(w, s) && ToTree(s, w) == ToTree(s, v) && Depth(s, w, side) == Depth(s, v, side)
    decreases s, 0
  {
    match s {
      case Leaf(_) =>
      case Struct(fs) => DefaultedFieldsSame(fs, v.fields, side);
      case Transparent(fs) => DefaultedFieldsSame(fs, v.fields, side);
      case Enum(xs) => DefaultedVariantSame(xs, v.variant, v.fields, side);
      case Vec(e) => DefaultedItemsSame(e, v.items, side);
      case Array(e, _) => DefaultedItemsSame(e, v.items, side);
    }
  }

  lemma {:induction false} DefaultedFieldsSame(fs: Fields, vs: Values, side: Side)
    requires HasFields(vs, fs)
    ensures var ws := DefaultedFields(fs, vs);
            && HasFields(ws, fs)
            && ToTrees(fs, ws) == ToTrees(fs, vs) && FieldsDepth(fs, ws, side) == FieldsDepth(fs, vs, side)
            && UniqueTree(fs, ws) == UniqueTree(fs, vs) && UniqueDepth(fs, ws, side) == UniqueDepth(fs, vs, side)
    decreases fs
  {
    if fs.FNil? {
    } else {
      DefaultedFieldsSame(fs.tail, vs.tail, side);
      if !fs.head.skipped {
        DefaultedSame(fs.head.shape, vs.head, side);
      }
    }
  }

  lemma {:induction false} DefaultedVariantSame(xs: Variants, i: nat, vs: Values, side: Side)
    requires HasVariant(vs, xs, i)
    ensures var ws := DefaultedVariant(xs, i, vs);
            && HasVariant(ws, xs, i)
            && VariantTree(xs, i, ws) == VariantTree(xs, i, vs)
            && VariantDepth(xs, i, ws, side) == VariantDepth(xs, i, vs, side)
    decreases xs
  {
    if i > 0 {
      DefaultedVariantSame(xs.tail, i - 1, vs, side);
    } else {
      DefaultedFieldsSame(xs.head.fields, vs, side);
    }
  }

  lemma {:induction false} DefaultedItemsSame(e: Shape, vs: Values, side: Side)
    requires HasItems(vs, e)
    ensures var ws := DefaultedItems(e, vs);
            && HasItems(ws, e) && Length(ws) == Length(vs)
            && ItemTrees(e, ws) == ItemTrees(e, vs) && ItemsDepth(e, ws, side) == ItemsDepth(e, vs, side)
    decreases e, 1, vs
  {
    if vs.VNil? {
    } else {
      DefaultedSame(e, vs.head, side);
      DefaultedItemsSame(e, vs.tail, side);
    }
  }

  // ---------------------------------------------------------------------------------------
  // The typed decoder reads the tree, and fails exactly for depth
  // ---------------------------------------------------------------------------------------

  lemma {:induction false} DecodesTree(s: Shape, v: Value, d: nat, max: nat, suffix: Bytes)
    requires Accepted(s) && HasShape(v, s) && Reachable(s, v) && Sized(ToTree(s, v)) && 1 <= d <= max
    ensures DecodeBody(s, KindOf(s), TreeBytes(ToTree(s, v)) + suffix, d, max) ==
            AtDepth(Defaulted(s, v), suffix, Depth(s, v, Decoding), d - 1, max)
    decreases s, 0
  {
    match s {
      case Leaf(l) => LeafRoundTrip(l, v.leaf, suffix);
      case Struct(fs) =>
        TreesCount(fs, v.fields);
        CountedFields(ToTrees(fs, v.fields), suffix);
        DecodesFields(fs, v.fields, d, max, suffix);
      case Transparent(fs) => DecodesUnique(fs, v.fields, d, max, suffix);
      case Enum(xs) =>
        DecodesVariant(xs, 0, v.variant, v.fields, d, max, suffix);
        VariantTreeIsEnum(xs, v.variant, v.fields);
      case Vec(e) => DecodesVec(e, v.items, d, max, suffix);
      case Array(e, n) => DecodesArray(e, n, v.items, d, max, suffix);
    }
  }

  lemma {:induction false} CountedFields(ts: Trees, suffix: Bytes)
    requires SizedAll(ts) && Count(ts) <= MAX_SIZE
    ensures ReadExpectedSize((Leb(Count(ts)) + FieldBytes(ts)) + suffix, Count(ts)) ==
            Ok(Count(ts), FieldBytes(ts) + suffix)
  {
    Regroup(Leb(Count(ts)), FieldBytes(ts), suffix);
    ExpectedSizeRoundTrip(Count(ts), FieldBytes(ts) + suffix);
  }

  lemma {:induction false} DecodesDeeper(s: Shape, v: Value, d: nat, max: nat, suffix: Bytes)
    requires Accepted(s) && HasShape(v, s) && Reachable(s, v) && Sized(ToTree(s, v)) && 1 <= d <= max
    ensures DecodeDeeper(s, KindOf(s), TreeBytes(ToTree(s, v)) + suffix, d, max) ==
            AtDepth(Defaulted(s, v), suffix, Depth(s, v, Decoding), d, max)
    decreases s, 1
  {
    DepthPositive(s, v, Decoding);
    var b := TreeBytes(ToTree(s, v)) + suffix;
    DeeperStep(s, KindOf(s), b, d, max);
    if d + 1 <= max {
      DecodesTree(s, v, d + 1, max, suffix);
      OneDeeper(DecodeBody(s, KindOf(s), b, d + 1, max), Defaulted(s, v), suffix, Depth(s, v, Decoding), d, max);
    }
  }

  lemma {:induction false} DeeperStep(s: Shape, kind: ValueKind, b: Bytes, d: nat, max: nat)
    ensures DecodeDeeper(s, kind, b, d, max) ==
            if d + 1 > max then Err(MaxDepthExceeded(max)) else DecodeBody(s, kind, b, d + 1, max)
  {
  }

  lemma {:induction false} OneDeeper<T>(body: Dec<T>, v: T, rest: Bytes, depth: nat, d: nat, max: nat)
    requires body == AtDepth(v, rest, depth, d + 1 - 1, max)
    ensures body == AtDepth(v, rest, depth, d, max)
  {
  }

  lemma {:induction false} DecodesFields(fs: Fields, vs: Values, d: nat, max: nat, suffix: Bytes)
    requires AcceptedFields(fs) && HasFields(vs, fs) && ReachableFields(fs, vs) && SizedAll(ToTrees(fs, vs))
    requires 1 <= d <= max
    ensures DecodeFields(fs, FieldBytes(ToTrees(fs, vs)) + suffix, d, max) ==
            AtDepth(DefaultedFields(fs, vs), suffix, FieldsDepth(fs, vs, Decoding), d, max)
    decreases fs
  {
    match fs {
      case FNil => assert [] + suffix == suffix;
      case FCons(f, t) =>
        if f.skipped {
          DecodesFields(t, vs.tail, d, max, suffix);
        } else {
          var tail := FieldBytes(ToTrees(t, vs.tail));
          TreeKindAgrees(f.shape, vs.head);
          FieldHeader(ToTree(f.shape, vs.head), tail, suffix);
          DecodesDeeper(f.shape, vs.head, d, max, tail + suffix);
          DecodesFields(t, vs.tail, d, max, suffix);
        }
    }
  }

  lemma {:induction false} DecodesUnique(fs: Fields, vs: Values, d: nat, max: nat, suffix: Bytes)
    requires AcceptedFields(fs) && HasFields(vs, fs) && Unskipped(fs) == 1 && ReachableFields(fs, vs)
    requires Sized(UniqueTree(fs, vs)) && 1 <= d <= max
    ensures DecodeUnique(fs, UniqueKind(fs), TreeBytes(UniqueTree(fs, vs)) + suffix, d, max) ==
            AtDepth(DefaultedFields(fs, vs), suffix, UniqueDepth(fs, vs, Decoding), d - 1, max)
    decreases fs
  {
    if fs.head.skipped {
      DecodesUnique(fs.tail, vs.tail, d, max, suffix);
    } else {
      DecodesTree(fs.head.shape, vs.head, d, max, suffix);
      AllSkipped(fs.tail, vs.tail);
    }
  }

  /** `at` is the number of source variants before `xs`. */
  lemma {:induction false} DecodesVariant(
    xs: Variants, at: nat, i: nat, vs: Values, d: nat, max: nat, suffix: Bytes)
    requires AcceptedVariants(xs) && Distinct(xs) && HasVariant(vs, xs, i) && ReachableVariant(xs, i, vs)
    requires Sized(VariantTree(xs, i, vs)) && 1 <= d <= max
    ensures var t := VariantTree(xs, i, vs);
            && t.TEnum? && t.discriminator in Discriminators(xs)
            && (TreeBytes(t) + suffix)[0] == t.discriminator
            && DecodeVariant(xs, at, t.discriminator, (TreeBytes(t) + suffix)[1..], d, max) ==
               AtDepth(VEnum(at + i, DefaultedVariant(xs, i, vs)), suffix,
                       VariantDepth(xs, i, vs, Decoding), d - 1, max)
    decreases xs
  {
    var t := VariantTree(xs, i, vs);
    VariantTreeIsEnum(xs, i, vs);
    if i > 0 {
      DecodesVariant(xs.tail, at + 1, i - 1, vs, d, max, suffix);
    } else {
      var x, body := xs.head, Leb(Count(t.fields)) + FieldBytes(t.fields);
      assert (TreeBytes(t) + suffix)[1..] == body + suffix;
      if x.handling.Standard? {
        TreesCount(x.fields, vs);
        CountedFields(t.fields, suffix);
        DecodesFields(x.fields, vs, d, max, suffix);
      } else {
        UniqueTreeIsTuple(x.fields, vs);
        UniqueTupleKind(x.fields);
        DecodesUnique(x.fields, vs, d, max, suffix);
      }
    }
  }

  /** What an array of the tree starts with. */
  lemma {:induction false} ArrayHeader(k: ValueKind, ts: Trees, suffix: Bytes)
    requires Sized(TArray(k, ts))
    ensures var rest := Leb(Count(ts)) + (ItemBytes(ts) + suffix);
            && ReadExpectedKind(TreeBytes(TArray(k, ts)) + suffix, k) == Ok(k, rest)
            && ReadSize(rest) == Ok(Count(ts), ItemBytes(ts) + suffix)
            && ReadExpectedSize(rest, Count(ts)) == Ok(Count(ts), ItemBytes(ts) + suffix)
  {
    Regroup([AsU8(k)], Leb(Count(ts)) + ItemBytes(ts), suffix);
    Regroup(Leb(Count(ts)), ItemBytes(ts), suffix);
    KindRoundTrip(k, Leb(Count(ts)) + (ItemBytes(ts) + suffix));
    ExpectedSizeRoundTrip(Count(ts), ItemBytes(ts) + suffix);
  }

  lemma {:induction false} DecodesVec(e: Shape, vs: Values, d: nat, max: nat, suffix: Bytes)
    requires Accepted(e) && Castable(e) && HasItems(vs, e) && ReachableItems(e, vs) && 1 <= d <= max
    requires Sized(TArray(KindOf(e), ItemTrees(e, vs)))
    ensures HasShape(VVec(vs), Vec(e))
    ensures DecodeBody(Vec(e), KArray, TreeBytes(TArray(KindOf(e), ItemTrees(e, vs))) + suffix, d, max) ==
            AtDepth(VVec(DefaultedItems(e, vs)), suffix, Depth(Vec(e), VVec(vs), Decoding), d - 1, max)
    decreases e, 3
  {
    ItemsCount(e, vs);
    ArrayHeader(KindOf(e), ItemTrees(e, vs), suffix);
    if IsByteKind(KindOf(e)) {
      EncodesBytes(e, vs, d, max);
      RoundTripBytes(e, vs, d, max, suffix);
    } else {
      DecodesItems(e, vs, d, max, suffix);
    }
  }

  lemma {:induction false} DecodesArray(e: Shape, n: nat, vs: Values, d: nat, max: nat, suffix: Bytes)
    requires Accepted(e) && HasItems(vs, e) && Length(vs) == n && ReachableItems(e, vs) && 1 <= d <= max
    requires Sized(TArray(KindOf(e), ItemTrees(e, vs)))
    ensures DecodeBody(Array(e, n), KArray, TreeBytes(TArray(KindOf(e), ItemTrees(e, vs))) + suffix, d, max) ==
            AtDepth(VVec(DefaultedItems(e, vs)), suffix, 1 + ItemsDepth(e, vs, Decoding), d - 1, max)
    decreases e, 3
  {
    var ts := ItemTrees(e, vs);
    ItemsCount(e, vs);
    ArrayHeader(KindOf(e), ts, suffix);
    ArrayStep(e, n, TreeBytes(TArray(KindOf(e), ts)) + suffix, Leb(n) + (ItemBytes(ts) + suffix),
              ItemBytes(ts) + suffix, d, max);
    DecodesItems(e, vs, d, max, suffix);
  }

  lemma {:induction false} ArrayStep(e: Shape, n: nat, b: Bytes, size: Bytes, items: Bytes, d: nat, max: nat)
    requires ReadExpectedKind(b, KindOf(e)) == Ok(KindOf(e), size) && ReadExpectedSize(size, n) == Ok(n, items)
    ensures DecodeBody(Array(e, n), KArray, b, d, max) ==
            match DecodeItems(e, KindOf(e), n, items, d, max) {
              case Err(error) => Err(error)
              case Ok(vs, rest) => Ok(VVec(vs), rest)
            }
  {
  }

  lemma {:induction false} DecodeItemsStep(e: Shape, n: nat, b: Bytes, d: nat, max: nat)
    ensures DecodeItems(e, KindOf(e), n + 1, b, d, max) ==
            match DecodeDeeper(e, KindOf(e), b, d, max) {
              case Err(error) => Err(error)
              case Ok(v, mid) =>
                match DecodeItems(e, KindOf(e), n, mid, d, max) {
                  case Err(error) => Err(error)
                  case Ok(vs, rest) => Ok(VCons(v, vs), rest)
                }
            }
  {
  }

  lemma {:induction false} DecodesItems(e: Shape, vs: Values, d: nat, max: nat, suffix: Bytes)
    requires Accepted(e) && HasItems(vs, e) && ReachableItems(e, vs) && SizedAll(ItemTrees(e, vs)) && 1 <= d <= max
    ensures DecodeItems(e, KindOf(e), Length(vs), ItemBytes(ItemTrees(e, vs)) + suffix, d, max) ==
            AtDepth(DefaultedItems(e, vs), suffix, ItemsDepth(e, vs, Decoding), d, max)
    decreases e, 2, vs
  {
    match vs {
      case VNil => assert [] + suffix == suffix;
      case VCons(v, t) =>
        var tail := ItemBytes(ItemTrees(e, t));
        Regroup(TreeBytes(ToTree(e, v)), tail, suffix);
        DecodeItemsStep(e, Length(t), ItemBytes(ItemTrees(e, vs)) + suffix, d, max);
        DecodesDeeper(e, v, d, max, tail + suffix);
        DecodesItems(e, t, d, max, suffix);
    }
  }

  // ---------------------------------------------------------------------------------------
  // Why an encoding fails
  // ---------------------------------------------------------------------------------------

  /** A failed write says why: the limit that was exceeded, the size that does not fit and the largest
      that does, or an unreachable variant. */
  predicate Explains(e: Enc, reachable: bool, tooDeep: bool, max: nat) {
    e.Failed? ==>
      match e.error
      case DepthExceeded(limit) => limit == max && tooDeep
      case SizeTooLarge(actual, allowed) => allowed == 0x0FFF_FFFF < actual
      case UnreachableVariant => !reachable
  }

  lemma {:induction false} EncodeExplains(s: Shape, v: Value, d: nat, max: nat)
    requires Accepted(s) && HasShape(v, s) && 1 <= d <= max
    ensures Explains(EncodeBody(s, v, d, max), Reachable(s, v), d + Depth(s, v, Encoding) > max + 1, max)
    decreases s, 0
  {
    match s {
      case Leaf(_) =>
      case Struct(fs) => FieldsExplain(fs, v.fields, d, max);
      case Transparent(fs) => UniqueExplains(fs, v.fields, d, max);
      case Enum(xs) => VariantExplains(xs, v.variant, v.fields, d, max);
      case Vec(e) => ItemsExplain(e, v.items, d, max);
      case Array(e, _) => ItemsExplain(e, v.items, d, max);
    }
  }

  lemma {:induction false} DeeperExplains(s: Shape, v: Value, d: nat, max: nat)
    requires Accepted(s) && HasShape(v, s) && 1 <= d <= max
    ensures Explains(EncodeDeeper(s, v, d, max), Reachable(s, v), d + Depth(s, v, Encoding) > max, max)
    decreases s, 1
  {
    DepthPositive(s, v, Encoding);
    if d + 1 <= max {
      EncodeExplains(s, v, d + 1, max);
    }
  }

  lemma {:induction false} FieldsExplain(fs: Fields, vs: Values, d: nat, max: nat)
    requires AcceptedFields(fs) && HasFields(vs, fs) && 1 <= d <= max
    ensures Explains(EncodeFields(fs, vs, d, max), ReachableFields(fs, vs),
                     d + FieldsDepth(fs, vs, Encoding) > max, max)
    decreases fs
  {
    match fs {
      case FNil =>
      case FCons(f, t) =>
        FieldsExplain(t, vs.tail, d, max);
        if !f.skipped {
          DeeperExplains(f.shape, vs.head, d, max);
        }
    }
  }

  lemma {:induction false} UniqueExplains(fs: Fields, vs: Values, d: nat, max: nat)
    requires AcceptedFields(fs) && HasFields(vs, fs) && 1 <= d <= max
    ensures Explains(EncodeUnique(fs, vs, d, max), ReachableFields(fs, vs),
                     d + UniqueDepth(fs, vs, Encoding) > max + 1, max)
    decreases fs
  {
    match fs {
      case FNil =>
      case FCons(f, t) =>
        if f.skipped {
          UniqueExplains(t, vs.tail, d, max);
        } else {
          EncodeExplains(f.shape, vs.head, d, max);
        }
    }
  }

  lemma {:induction false} VariantExplains(xs: Variants, i: nat, vs: Values, d: nat, max: nat)
    requires AcceptedVariants(xs) && HasVariant(vs, xs, i) && 1 <= d <= max
    ensures Explains(EncodeVariant(xs, i, vs, d, max), ReachableVariant(xs, i, vs),
                     d + VariantDepth(xs, i, vs, Encoding) > max + 1, max)
    decreases xs
  {
    if i > 0 {
      VariantExplains(xs.tail, i - 1, vs, d, max);
    } else if xs.head.handling.Standard? {
      FieldsExplain(xs.head.fields, vs, d, max);
    } else if xs.head.handling.Flatten? {
      UniqueExplains(xs.head.fields, vs, d, max);
    }
  }

  lemma {:induction false} ItemsExplain(e: Shape, vs: Values, d: nat, max: nat)
    requires Accepted(e) && Castable(e) && HasItems(vs, e) && 1 <= d <= max
    ensures Explains(EncodeItems(e, vs, d, max), ReachableItems(e, vs),
                     !IsByteKind(KindOf(e)) && d + ItemsDepth(e, vs, Encoding) > max, max)
    decreases e, 2, vs
  {
    match vs {
      case VNil =>
      case VCons(v, t) =>
        ItemsExplain(e, t, d, max);
        if IsByteKind(KindOf(e)) {
          OneByteWrites(e, v, d, max);
        } else {
          DeeperExplains(e, v, d, max);
        }
    }
  }

  // ---------------------------------------------------------------------------------------
  // Depth limits
  // ---------------------------------------------------------------------------------------

  predicate Encodable(s: Shape, v: Value) {
    Accepted(s) && HasShape(v, s) && Reachable(s, v) && Sized(ToTree(s, v))
  }

  /** The bytes of a value, whatever the limit. */
  function ValueBytes(s: Shape, v: Value): Bytes
    requires Encodable(s, v)
  {
    [AsU8(KindOf(s))] + TreeBytes(ToTree(s, v))
  }

  /** A value is written exactly if it names no unreachable variant, its sizes fit and the limit
      allows its depth. */
  lemma {:induction false} EncodesIff(s: Shape, v: Value, max: nat)
    requires Accepted(s) && HasShape(v, s)
    ensures Encode(s, v, max).Wrote? <==> Reachable(s, v) && Sized(ToTree(s, v)) && Depth(s, v, Encoding) <= max
  {
    DepthPositive(s, v, Encoding);
    if max >= 1 {
      EncodesTree(s, v, 1, max);
    }
  }

  /** Why a whole value is not written. */
  lemma {:induction false} EncodingFailsFor(s: Shape, v: Value, max: nat)
    requires Accepted(s) && HasShape(v, s)
    ensures Explains(Encode(s, v, max), Reachable(s, v), Depth(s, v, Encoding) > max, max)
  {
    DepthPositive(s, v, Encoding);
    if max >= 1 {
      EncodeExplains(s, v, 1, max);
    }
  }

  /** Typed encoding succeeds exactly at the limits the value's depth allows, always with the same bytes. */
  lemma {:induction false} EncodesAtLimit(s: Shape, v: Value, max: nat)
    requires Encodable(s, v)
    ensures Encode(s, v, max).Wrote? <==> Depth(s, v, Encoding) <= max
    ensures Encode(s, v, max).Wrote? ==> Encode(s, v, max).bytes == ValueBytes(s, v)
  {
    DepthPositive(s, v, Encoding);
    if max >= 1 {
      EncodesTree(s, v, 1, max);
    }
  }

  /** Typed decoding of a value's bytes succeeds exactly at the limits its depth allows, and otherwise
      fails with the depth error. */
  lemma {:induction false} DecodesAtLimit(s: Shape, v: Value, max: nat, suffix: Bytes)
    requires Encodable(s, v)
    ensures Decode(s, ValueBytes(s, v) + suffix, max) ==
            AtDepth(Defaulted(s, v), suffix, Depth(s, v, Decoding), 0, max)
  {
    Regroup([AsU8(KindOf(s))], TreeBytes(ToTree(s, v)), suffix);
    KindRoundTrip(KindOf(s), TreeBytes(ToTree(s, v)) + suffix);
    DepthPositive(s, v, Decoding);
    if max >= 1 {
      DecodesTree(s, v, 1, max, suffix);
    }
  }

  /** A value that is written at a limit is read back at that limit if and only if the decoder's own
      measure of its depth allows it. */
  lemma {:induction false} RoundTripsIff(s: Shape, v: Value, max: nat, suffix: Bytes)
    requires Accepted(s) && HasShape(v, s) && Encode(s, v, max).Wrote?
    ensures Decode(s, Encode(s, v, max).bytes + suffix, max) == Ok(Defaulted(s, v), suffix) <==>
            Depth(s, v, Decoding) <= max
  {
    EncodesIff(s, v, max);
    EncodesAtLimit(s, v, max);
    DecodesAtLimit(s, v, max, suffix);
  }

  /** Without arrays of bytes, whatever is written at a limit is read back at that limit. */
  lemma {:induction false} RoundTripsAtLimit(s: Shape, v: Value, max: nat, suffix: Bytes)
    requires Accepted(s) && HasShape(v, s) && Encode(s, v, max).Wrote? && NoByteArray(s)
    ensures Decode(s, Encode(s, v, max).bytes + suffix, max) == Ok(Defaulted(s, v), suffix)
  {
    EncodesIff(s, v, max);
    SidesAgree(s, v);
    RoundTripsIff(s, v, max, suffix);
  }

  /** The untyped decoder reads the tree of a typed value, exactly at the limits the tree's depth allows. */
  lemma {:induction false} ValueDecodesAtLimit(s: Shape, v: Value, max: nat, suffix: Bytes)
    requires Encodable(s, v)
    ensures DecodeValue(ValueBytes(s, v) + suffix, max) ==
            AtDepth(ToTree(s, v), suffix, TreeDepth(ToTree(s, v)), 0, max)
  {
    TreeKindAgrees(s, v);
    ValueExact(ToTree(s, v), max, suffix);
  }

  /** Typed and untyped decoding accept the encoding of a value at the same limits if and only
      if no byte of a vector sits deeper than everything else in it. */
  lemma {:induction false} LimitsAgreeIff(s: Shape, v: Value, suffix: Bytes)
    requires Encodable(s, v)
    ensures (forall max: nat :: Decode(s, ValueBytes(s, v) + suffix, max).Ok? <==>
                                DecodeValue(ValueBytes(s, v) + suffix, max).Ok?)
            <==> ByteDepth(s, v) <= Depth(s, v, Decoding)
  {
    var b := ValueBytes(s, v) + suffix;
    TreeDepthIs(s, v);
    forall max: nat
      ensures Decode(s, b, max).Ok? <==> Depth(s, v, Decoding) <= max
      ensures DecodeValue(b, max).Ok? <==> Max(Depth(s, v, Decoding), ByteDepth(s, v)) <= max
    {
      DecodesAtLimit(s, v, max, suffix);
      ValueDecodesAtLimit(s, v, max, suffix);
    }
    if Depth(s, v, Decoding) < ByteDepth(s, v) {
      var max := Depth(s, v, Decoding);
      assert Decode(s, b, max).Ok? && !DecodeValue(b, max).Ok?;
    }
  }

  // ---------------------------------------------------------------------------------------
  // Bytes in vectors and in arrays
  // ---------------------------------------------------------------------------------------

  /** One `u8` in a `Vec` or an array. */
  lemma {:induction false} OneByteSlice(s: Shape, byte: Byte)
    requires s == Vec(Leaf(LInt(false, W1))) || s == Array(Leaf(LInt(false, W1)), 1)
    ensures var v := VVec(VCons(VLeaf(Int(byte)), VNil));
            && Encodable(s, v) && TreeDepth(ToTree(s, v)) == 2 && Depth(s, v, Encoding) == 1
            && Depth(s, v, Decoding) == if s.Vec? then 1 else 2
  {
    var e := Leaf(LInt(false, W1));
    var v := VVec(VCons(VLeaf(Int(byte)), VNil));
    assert Pow256(1) == 256;
    assert HasShape(VLeaf(Int(byte)), e) && HasItems(VNil, e) && Length(VNil) == 0;
    assert HasItems(v.items, e);
    assert ItemTrees(e, v.items) == TCons(TLeaf(e.leaf, Int(byte)), TNil) by { assert ItemTrees(e, VNil) == TNil; }
    EncodesBytes(e, v.items, 1, 1);
    ItemsCount(e, v.items);
    BytesDepthIs(e, v.items);
    assert ItemsDepth(e, VNil, Decoding) == 0;
  }

  /** A `Vec<u8>` of one byte is decoded at limit 1 although its tree is two deep. */
  lemma {:induction false} ByteVectorUnderLimit(byte: Byte)
    ensures var s, v := Vec(Leaf(LInt(false, W1))), VVec(VCons(VLeaf(Int(byte)), VNil));
            && Encodable(s, v)
            && Decode(s, ValueBytes(s, v), 1).Ok? && DecodeValue(ValueBytes(s, v), 1) == Err(MaxDepthExceeded(1))
  {
    var s, v := Vec(Leaf(LInt(false, W1))), VVec(VCons(VLeaf(Int(byte)), VNil));
    OneByteSlice(s, byte);
    assert ValueBytes(s, v) + [] == ValueBytes(s, v);
    DecodesAtLimit(s, v, 1, []);
    ValueDecodesAtLimit(s, v, 1, []);
  }

  /** A `[u8; 1]` is written at limit 1 and cannot be read back at that limit. */
  lemma {:induction false} ByteArrayOverLimit(byte: Byte)
    ensures var s, v := Array(Leaf(LInt(false, W1)), 1), VVec(VCons(VLeaf(Int(byte)), VNil));
            HasShape(v, s) && Encode(s, v, 1).Wrote? && !Decode(s, Encode(s, v, 1).bytes, 1).Ok?
  {
    var s, v := Array(Leaf(LInt(false, W1)), 1), VVec(VCons(VLeaf(Int(byte)), VNil));
    OneByteSlice(s, byte);
    EncodesAtLimit(s, v, 1);
    assert ValueBytes(s, v) + [] == ValueBytes(s, v);
    DecodesAtLimit(s, v, 1, []);
  }

  /** No part that is encoded is an array of bytes. */
  predicate NoByteArray(s: Shape) {
    match s
    case Leaf(_) => true
    case Struct(fs) => NoByteArrayIn(fs)
    case Transparent(fs) => NoByteArrayIn(fs)
    case Enum(xs) => NoByteArrayAmong(xs)
    case Vec(e) => NoByteArray(e)
    case Array(e, _) => NoByteArray(e) && !IsByteKind(KindOf(e))
  }

  predicate NoByteArrayIn(fs: Fields) {
    match fs
    case FNil => true
    case FCons(f, t) => (!f.skipped ==> NoByteArray(f.shape)) && NoByteArrayIn(t)
  }

  predicate NoByteArrayAmong(xs: Variants) {
    match xs
    case XNil => true
    case XCons(x, t) => NoByteArrayIn(x.fields) && NoByteArrayAmong(t)
  }

  /** The decoder never measures less than the encoder, and the same without arrays of bytes. */
  lemma {:induction false} SidesAgree(s: Shape, v: Value)
    requires HasShape(v, s)
    ensures Depth(s, v, Encoding) <= Depth(s, v, Decoding)
    ensures NoByteArray(s) ==> Depth(s, v, Encoding) == Depth(s, v, Decoding)
    decreases s, 0
  {
    match s {
      case Leaf(_) =>
      case Struct(fs) => FieldSidesAgree(fs, v.fields);
      case Transparent(fs) => FieldSidesAgree(fs, v.fields);
      case Enum(xs) => VariantSidesAgree(xs, v.variant, v.fields);
      case Vec(e) => ItemSidesAgree(e, v.items);
      case Array(e, _) => ItemSidesAgree(e, v.items);
    }
  }

  lemma {:induction false} FieldSidesAgree(fs: Fields, vs: Values)
    requires HasFields(vs, fs)
    ensures FieldsDepth(fs, vs, Encoding) <= FieldsDepth(fs, vs, Decoding)
    ensures UniqueDepth(fs, vs, Encoding) <= UniqueDepth(fs, vs, Decoding)
    ensures NoByteArrayIn(fs) ==> FieldsDepth(fs, vs, Encoding) == FieldsDepth(fs, vs, Decoding)
    ensures NoByteArrayIn(fs) ==> UniqueDepth(fs, vs, Encoding) == UniqueDepth(fs, vs, Decoding)
    decreases fs
  {
    match fs {
      case FNil =>
      case FCons(f, t) =>
        FieldSidesAgree(t, vs.tail);
        if !f.skipped {
          SidesAgree(f.shape, vs.head);
        }
    }
  }

  lemma {:induction false} VariantSidesAgree(xs: Variants, i: nat, vs: Values)
    requires HasVariant(vs, xs, i)
    ensures VariantDepth(xs, i, vs, Encoding) <= VariantDepth(xs, i, vs, Decoding)
    ensures NoByteArrayAmong(xs) ==> VariantDepth(xs, i, vs, Encoding) == VariantDepth(xs, i, vs, Decoding)
    decreases xs
  {
    if i == 0 {
      FieldSidesAgree(xs.head.fields, vs);
    } else {
      VariantSidesAgree(xs.tail, i - 1, vs);
    }
  }

  lemma {:induction false} ItemSidesAgree(e: Shape, vs: Values)
    requires HasItems(vs, e)
    ensures ItemsDepth(e, vs, Encoding) <= ItemsDepth(e, vs, Decoding)
    ensures NoByteArray(e) ==> ItemsDepth(e, vs, Encoding) == ItemsDepth(e, vs, Decoding)
    decreases e, 1, vs
  {
    match vs {
      case VNil =>
      case VCons(v, t) =>
        SidesAgree(e, v);
        ItemSidesAgree(e, t);
    }
  }

  // ---------------------------------------------------------------------------------------
  // SborTuple and SborEnum
  // ---------------------------------------------------------------------------------------

  /** `SborTuple::get_length`. */
  function TupleLength(s: Shape): nat
    requires IsTuple(s)
  {
    match s
    case Struct(fs) => Unskipped(fs)
    case Transparent(fs) => UniqueTupleLength(fs)
  }

  function UniqueTupleLength(fs: Fields): nat
    requires UniqueIsTuple(fs)
  {
    if fs.head.skipped then UniqueTupleLength(fs.tail) else TupleLength(fs.head.shape)
  }

  /** The type implements `SborEnum`. */
  predicate IsEnum(s: Shape) {
    match s
    case Enum(_) => true
    case Transparent(fs) => UniqueIsEnum(fs)
    case _ => false
  }

  predicate UniqueIsEnum(fs: Fields) {
    match fs
    case FNil => false
    case FCons(f, t) => if f.skipped then UniqueIsEnum(t) else IsEnum(f.shape)
  }

  /** `SborEnum::get_discriminator` and `get_length`. Neither returns for an unreachable variant. */
  function EnumHeader(s: Shape, v: Value): (Byte, nat)
    requires IsEnum(s) && Accepted(s) && HasShape(v, s) && Reachable(s, v)
  {
    match s
    case Enum(xs) => VariantHeader(xs, v.variant, v.fields)
    case Transparent(fs) => UniqueHeader(fs, v.fields)
  }

  function UniqueHeader(fs: Fields, vs: Values): (Byte, nat)
    requires UniqueIsEnum(fs) && AcceptedFields(fs) && HasFields(vs, fs) && ReachableFields(fs, vs)
  {
    if fs.head.skipped then UniqueHeader(fs.tail, vs.tail) else EnumHeader(fs.head.shape, vs.head)
  }

  function VariantHeader(xs: Variants, i: nat, vs: Values): (Byte, nat)
    requires AcceptedVariants(xs) && HasVariant(vs, xs, i) && ReachableVariant(xs, i, vs)
  {
    if i > 0 then VariantHeader(xs.tail, i - 1, vs)
    else if xs.head.handling.Flatten? then (xs.head.discriminator, UniqueTupleLength(xs.head.fields))
    else (xs.head.discriminator, Unskipped(xs.head.fields))
  }

  lemma {:induction false} TupleLengthIsCount(s: Shape, v: Value)
    requires IsTuple(s) && HasShape(v, s)
    ensures ToTree(s, v).TTuple? && Count(ToTree(s, v).fields) == TupleLength(s)
  {
    match s {
      case Struct(fs) => TreesCount(fs, v.fields);
      case Transparent(fs) => UniqueTupleLengthIsCount(fs, v.fields);
    }
  }

  lemma {:induction false} UniqueTupleLengthIsCount(fs: Fields, vs: Values)
    requires UniqueIsTuple(fs) && HasFields(vs, fs)
    ensures UniqueTree(fs, vs).TTuple? && Count(UniqueTree(fs, vs).fields) == UniqueTupleLength(fs)
  {
    if fs.head.skipped {
      UniqueTupleLengthIsCount(fs.tail, vs.tail);
    } else {
      TupleLengthIsCount(fs.head.shape, vs.head);
    }
  }

  predicate HasHeader(t: Tree, h: (Byte, nat)) {
    t.TEnum? && t.discriminator == h.0 && Count(t.fields) == h.1
  }

  lemma {:induction false} EnumHeaderIsTree(s: Shape, v: Value)
    requires IsEnum(s) && Accepted(s) && HasShape(v, s) && Reachable(s, v)
    ensures HasHeader(ToTree(s, v), EnumHeader(s, v))
  {
    match s {
      case Enum(xs) => VariantHeaderIsTree(xs, v.variant, v.fields);
      case Transparent(fs) => UniqueHeaderIsTree(fs, v.fields);
    }
  }

  lemma {:induction false} UniqueHeaderIsTree(fs: Fields, vs: Values)
    requires UniqueIsEnum(fs) && AcceptedFields(fs) && HasFields(vs, fs) && ReachableFields(fs, vs)
    ensures HasHeader(UniqueTree(fs, vs), UniqueHeader(fs, vs))
  {
    if fs.head.skipped {
      UniqueHeaderIsTree(fs.tail, vs.tail);
    } else {
      EnumHeaderIsTree(fs.head.shape, vs.head);
    }
  }

  lemma {:induction false} VariantHeaderIsTree(xs: Variants, i: nat, vs: Values)
    requires AcceptedVariants(xs) && HasVariant(vs, xs, i) && ReachableVariant(xs, i, vs)
    ensures HasHeader(VariantTree(xs, i, vs), VariantHeader(xs, i, vs))
  {
    if i > 0 {
      VariantHeaderIsTree(xs.tail, i - 1, vs);
    } else if xs.head.handling.Flatten? {
      UniqueTupleLengthIsCount(xs.head.fields, vs);
    } else {
      TreesCount(xs.head.fields, vs);
    }
  }

  /** Any bytes that decode are the bytes of the decoded value and then the rest. */
  lemma {:induction false} DecodedBytes(s: Shape, b: Bytes, max: nat)
    requires Accepted(s) && Decode(s, b, max).Ok?
    ensures var r := Decode(s, b, max); Encodable(s, r.value) && b == ValueBytes(s, r.value) + r.rest
  {
    var v := Decode(s, b, max).value;
    Canonical(s, b, max);
    EncodesIff(s, v, max);
    EncodesAtLimit(s, v, max);
  }

  /** What `SborEnum` reports, through any nesting of flatten and transparent, is the header
      in the bytes of the value. */
  lemma {:induction false} EnumHeaderInBytes(s: Shape, v: Value)
    requires Encodable(s, v) && IsEnum(s)
    ensures var (disc, n) := EnumHeader(s, v); [AsU8(KEnum), disc] + Leb(n) <= ValueBytes(s, v)
  {
    TreeKindAgrees(s, v);
    EnumHeaderIsTree(s, v);
    var fs := ToTree(s, v).fields;
    var (disc, n) := EnumHeader(s, v);
    assert ValueBytes(s, v) == ([AsU8(KEnum), disc] + Leb(n)) + FieldBytes(fs);
  }

  /** The same for `SborTuple`. */
  lemma {:induction false} TupleHeaderInBytes(s: Shape, v: Value)
    requires Encodable(s, v) && IsTuple(s)
    ensures [AsU8(KTuple)] + Leb(TupleLength(s)) <= ValueBytes(s, v)
  {
    TreeKindAgrees(s, v);
    TupleLengthIsCount(s, v);
    var fs := ToTree(s, v).fields;
    assert ValueBytes(s, v) == ([AsU8(KTuple)] + Leb(TupleLength(s))) + FieldBytes(fs);
  }

  /** The header reported for a value is the one the encoder writes for it. */
  lemma {:induction false} HeaderIsEncoded(s: Shape, v: Value, max: nat)
    requires Accepted(s) && HasShape(v, s) && Encode(s, v, max).Wrote?
    ensures Encodable(s, v)
    ensures IsEnum(s) ==>
              var (disc, n) := EnumHeader(s, v); [AsU8(KEnum), disc] + Leb(n) <= Encode(s, v, max).bytes
    ensures IsTuple(s) ==> [AsU8(KTuple)] + Leb(TupleLength(s)) <= Encode(s, v, max).bytes
  {
    EncodesIff(s, v, max);
    EncodesAtLimit(s, v, max);
    if IsEnum(s) { EnumHeaderInBytes(s, v); }
    if IsTuple(s) { TupleHeaderInBytes(s, v); }
  }

  /** The header reported for a decoded value is the one the decoder accepted. */
  lemma {:induction false} HeaderIsDecoded(s: Shape, b: Bytes, max: nat)
    requires Accepted(s) && Decode(s, b, max).Ok?
    ensures Encodable(s, Decode(s, b, max).value)
    ensures IsEnum(s) ==>
              var (disc, n) := EnumHeader(s, Decode(s, b, max).value); [AsU8(KEnum), disc] + Leb(n) <= b
    ensures IsTuple(s) ==> [AsU8(KTuple)] + Leb(TupleLength(s)) <= b
  {
    var v := Decode(s, b, max).value;
    DecodedBytes(s, b, max);
    if IsEnum(s) { EnumHeaderInBytes(s, v); }
    if IsTuple(s) { TupleHeaderInBytes(s, v); }
  }
}
