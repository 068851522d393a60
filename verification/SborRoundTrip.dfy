/** Derived decoding inverts derived encoding, and accepts no other bytes. */
module SborRoundTrip {
  import opened Bytes
  import opened SborWire
  import opened SborDerive

  lemma {:induction false} ExpectedSizeRoundTrip(n: nat, rest: Bytes)
    requires n <= MAX_SIZE
    ensures ReadExpectedSize(Leb(n) + rest, n) == Ok(n, rest)
    ensures ReadSize(Leb(n) + rest) == Ok(n, rest)
  {
    ReadSizeExact(Leb(n) + rest, n, rest);
  }

  // ---------------------------------------------------------------------------------------
  // Decoding inverts encoding
  // ---------------------------------------------------------------------------------------

  /** With no unskipped field left, only defaults remain. */
  lemma {:induction false} AllSkipped(fs: Fields, vs: Values)
    requires HasFields(vs, fs) && Unskipped(fs) == 0
    ensures DefaultedFields(fs, vs) == Defaults(fs)
  {
    if fs.FNil? {
    } else {
      AllSkipped(fs.tail, vs.tail);
    }
  }

  lemma {:induction false} TupleKind(s: Shape)
    requires IsTuple(s)
    ensures KindOf(s) == KTuple
  {
    if s.Transparent? {
      UniqueTupleKind(s.fields);
    }
  }

  lemma {:induction false} UniqueTupleKind(fs: Fields)
    requires UniqueIsTuple(fs)
    ensures UniqueKind(fs) == KTuple
  {
    if fs.head.skipped {
      UniqueTupleKind(fs.tail);
    } else {
      TupleKind(fs.head.shape);
    }
  }

  lemma {:induction false} DepthPositive(s: Shape, v: Value, side: Side)
    requires HasShape(v, s)
    ensures Depth(s, v, side) >= 1
  {
    match s {
      case Transparent(fs) => UniqueDepthPositive(fs, v.fields, side);
      case Enum(xs) => VariantDepthPositive(xs, v.variant, v.fields, side);
      case _ =>
    }
  }

  lemma {:induction false} UniqueDepthPositive(fs: Fields, vs: Values, side: Side)
    requires HasFields(vs, fs)
    ensures UniqueDepth(fs, vs, side) >= 1
  {
    if fs.FNil? {
    } else {
      if fs.head.skipped {
        UniqueDepthPositive(fs.tail, vs.tail, side);
      } else {
        DepthPositive(fs.head.shape, vs.head, side);
      }
    }
  }

  lemma {:induction false} VariantDepthPositive(xs: Variants, i: nat, vs: Values, side: Side)
    requires HasVariant(vs, xs, i)
    ensures VariantDepth(xs, i, vs, side) >= 1
  {
    if i > 0 {
      VariantDepthPositive(xs.tail, i - 1, vs, side);
    } else {
      UniqueDepthPositive(xs.head.fields, vs, side);
    }
  }

  /** Bytes are one byte, and so is a transparent struct around nothing but a one-byte type. */
  lemma {:induction false} OneByteWrapped(e: Shape, signed: bool, default: Value)
    ensures OneByte(Leaf(LInt(signed, W1)))
    ensures OneByte(e) <==> OneByte(Transparent(FCons(Field(e, false, default), FNil)))
  {
  }

  /** The byte in memory of a value of a one-byte type. */
  function ByteIn(e: Shape, v: Value): Byte
    requires OneByte(e) && HasShape(v, e)
  {
    match e
    case Leaf(l) => LeafBytes(l, v.leaf)[0]
    case Transparent(FCons(f, FNil)) =>
      assert HasFields(v.fields, e.fields);
      ByteIn(f.shape, v.fields.head)
  }

  /** A one-byte value is written as that byte, at any depth, and is the value of that byte. */
  lemma {:induction false} OneByteWrites(e: Shape, v: Value, d: nat, max: nat)
    requires OneByte(e) && HasShape(v, e)
    ensures EncodeBody(e, v, d, max) == Wrote([ByteIn(e, v)])
    ensures ByteValue(e, ByteIn(e, v)) == v && Defaulted(e, v) == v
  {
    match e {
      case Leaf(l) =>
        var b := LeafBytes(l, v.leaf);
        LeafRoundTrip(l, v.leaf, []);
        assert b + [] == b && |b| == 1;
        assert FromLe(b) == b[0] by { assert FromLe(b[1..]) == 0; }
      case Transparent(FCons(f, FNil)) =>
        assert HasFields(v.fields, e.fields) && HasFields(v.fields.tail, FNil);
        assert v.fields == VCons(v.fields.head, VNil);
        assert EncodeUnique(e.fields, v.fields, d, max) == EncodeBody(f.shape, v.fields.head, d, max);
        assert DefaultedFields(e.fields, v.fields) == VCons(Defaulted(f.shape, v.fields.head), VNil) by {
          assert DefaultedFields(FNil, VNil) == VNil;
        }
        OneByteWrites(f.shape, v.fields.head, d, max);
    }
  }

  /** Every byte is the byte of a value of the type. */
  lemma {:induction false} OneByteReads(e: Shape, byte: Byte)
    requires OneByte(e)
    ensures HasShape(ByteValue(e, byte), e) && ByteIn(e, ByteValue(e, byte)) == byte
  {
    match e {
      case Leaf(l) =>
        assert FromLe([byte]) == byte by { assert FromLe([byte][1..]) == 0; }
        assert [byte][..1] == [byte] && [byte][1..] == [];
        assert DecodeLeaf(l, [byte]) == Ok(ByteValue(e, byte).leaf, []);
        LeafCanonical(l, [byte]);
      case Transparent(FCons(f, FNil)) => OneByteReads(f.shape, byte);
    }
  }

  lemma {:induction false} RoundTripBody(s: Shape, v: Value, d: nat, max: nat, suffix: Bytes)
    requires Accepted(s) && HasShape(v, s) && EncodeBody(s, v, d, max).Wrote?
    requires d + Depth(s, v, Decoding) <= max + 1
    ensures DecodeBody(s, KindOf(s), EncodeBody(s, v, d, max).bytes + suffix, d, max) == Ok(Defaulted(s, v), suffix)
    decreases s, 0
  {
    var bytes := EncodeBody(s, v, d, max).bytes;
    match s {
      case Leaf(l) => LeafRoundTrip(l, v.leaf, suffix);
      case Struct(fs) =>
        var tail := EncodeFields(fs, v.fields, d, max).bytes;
        Regroup(Leb(Unskipped(fs)), tail, suffix);
        ExpectedSizeRoundTrip(Unskipped(fs), tail + suffix);
        RoundTripFields(fs, v.fields, d, max, suffix);
      case Transparent(fs) => RoundTripUnique(fs, v.fields, d, max, suffix);
      case Enum(xs) =>
        DiscriminatorWritten(xs, v.variant, v.fields, d, max);
        RoundTripVariant(xs, 0, v.variant, v.fields, d, max, suffix);
        assert (bytes + suffix)[0] == bytes[0] && (bytes + suffix)[1..] == bytes[1..] + suffix;
      case Vec(e) =>
        SliceHeader(e, v.items, d, max, suffix);
        if IsByteKind(KindOf(e)) {
          RoundTripBytes(e, v.items, d, max, suffix);
        } else {
          RoundTripItems(e, v.items, d, max, suffix);
        }
      case Array(e, n) =>
        SliceHeader(e, v.items, d, max, suffix);
        RoundTripItems(e, v.items, d, max, suffix);
    }
  }

  /** What a slice starts with. */
  lemma {:induction false} SliceHeader(e: Shape, vs: Values, d: nat, max: nat, suffix: Bytes)
    requires HasItems(vs, e) && EncodeSlice(e, vs, d, max).Wrote?
    ensures EncodeItems(e, vs, d, max).Wrote?
    ensures var b, n := EncodeSlice(e, vs, d, max).bytes + suffix, Length(vs);
            var rest := EncodeItems(e, vs, d, max).bytes + suffix;
            && ReadExpectedKind(b, KindOf(e)) == Ok(KindOf(e), Leb(n) + rest)
            && ReadSize(Leb(n) + rest) == Ok(n, rest) && ReadExpectedSize(Leb(n) + rest, n) == Ok(n, rest)
  {
    var n, tail := Length(vs), EncodeItems(e, vs, d, max).bytes;
    Regroup([AsU8(KindOf(e))], Leb(n) + tail, suffix);
    Regroup(Leb(n), tail, suffix);
    KindRoundTrip(KindOf(e), Leb(n) + (tail + suffix));
    ExpectedSizeRoundTrip(n, tail + suffix);
  }

  lemma {:induction false} RoundTripFields(fs: Fields, vs: Values, d: nat, max: nat, suffix: Bytes)
    requires AcceptedFields(fs) && HasFields(vs, fs) && EncodeFields(fs, vs, d, max).Wrote?
    requires d + FieldsDepth(fs, vs, Decoding) <= max
    ensures DecodeFields(fs, EncodeFields(fs, vs, d, max).bytes + suffix, d, max) == Ok(DefaultedFields(fs, vs), suffix)
    decreases fs
  {
    match fs {
      case FNil => assert [] + suffix == suffix;
      case FCons(f, t) =>
        RoundTripFields(t, vs.tail, d, max, suffix);
        if !f.skipped {
          var kind := [AsU8(KindOf(f.shape))];
          var body := EncodeDeeper(f.shape, vs.head, d, max).bytes;
          var tail := EncodeFields(t, vs.tail, d, max).bytes;
          Regroup(kind + body, tail, suffix);
          Regroup(kind, body, tail + suffix);
          KindRoundTrip(KindOf(f.shape), body + (tail + suffix));
          RoundTripBody(f.shape, vs.head, d + 1, max, tail + suffix);
        }
    }
  }

  lemma {:induction false} RoundTripUnique(fs: Fields, vs: Values, d: nat, max: nat, suffix: Bytes)
    requires AcceptedFields(fs) && HasFields(vs, fs) && Unskipped(fs) == 1 && EncodeUnique(fs, vs, d, max).Wrote?
    requires d + UniqueDepth(fs, vs, Decoding) <= max + 1
    ensures DecodeUnique(fs, UniqueKind(fs), EncodeUnique(fs, vs, d, max).bytes + suffix, d, max) ==
            Ok(DefaultedFields(fs, vs), suffix)
    decreases fs
  {
    if fs.head.skipped {
      RoundTripUnique(fs.tail, vs.tail, d, max, suffix);
    } else {
      RoundTripBody(fs.head.shape, vs.head, d, max, suffix);
      AllSkipped(fs.tail, vs.tail);
    }
  }

  /** Some reachable variant before the `i`-th one takes the discriminator. */
  predicate Shadowed(xs: Variants, i: nat, disc: Byte) {
    xs.XCons? && i > 0 &&
    ((!xs.head.handling.Unreachable? && xs.head.discriminator == disc) || Shadowed(xs.tail, i - 1, disc))
  }

  lemma {:induction false} DiscriminatorWritten(xs: Variants, i: nat, vs: Values, d: nat, max: nat)
    requires HasVariant(vs, xs, i) && EncodeVariant(xs, i, vs, d, max).Wrote?
    ensures EncodeVariant(xs, i, vs, d, max).bytes != []
    ensures EncodeVariant(xs, i, vs, d, max).bytes[0] in Discriminators(xs)
    ensures Distinct(xs) ==> !Shadowed(xs, i, EncodeVariant(xs, i, vs, d, max).bytes[0])
    decreases xs
  {
    if i == 0 {
    } else {
      DiscriminatorWritten(xs.tail, i - 1, vs, d, max);
    }
  }

  /** `at` is the number of source variants before `xs`. */
  lemma {:induction false} RoundTripVariant(
    xs: Variants, at: nat, i: nat, vs: Values, d: nat, max: nat, suffix: Bytes)
    requires AcceptedVariants(xs) && HasVariant(vs, xs, i) && EncodeVariant(xs, i, vs, d, max).Wrote?
    requires var b := EncodeVariant(xs, i, vs, d, max).bytes; b != [] && !Shadowed(xs, i, b[0])
    requires d + VariantDepth(xs, i, vs, Decoding) <= max + 1
    ensures var b := EncodeVariant(xs, i, vs, d, max).bytes;
            DecodeVariant(xs, at, b[0], b[1..] + suffix, d, max) ==
            Ok(VEnum(at + i, DefaultedVariant(xs, i, vs)), suffix)
    decreases xs
  {
    var b := EncodeVariant(xs, i, vs, d, max).bytes;
    if i > 0 {
      RoundTripVariant(xs.tail, at + 1, i - 1, vs, d, max, suffix);
    } else {
      var x := xs.head;
      if x.handling.Standard? {
        var n, tail := Unskipped(x.fields), EncodeFields(x.fields, vs, d, max).bytes;
        assert b[1..] == Leb(n) + tail;
        Regroup(Leb(n), tail, suffix);
        ExpectedSizeRoundTrip(n, tail + suffix);
        RoundTripFields(x.fields, vs, d, max, suffix);
      } else {
        assert b[1..] == EncodeUnique(x.fields, vs, d, max).bytes;
        UniqueTupleKind(x.fields);
        RoundTripUnique(x.fields, vs, d, max, suffix);
      }
    }
  }

  /** A shadowed discriminator is decoded as an earlier variant or not at all. */
  lemma {:induction false} ShadowedIsEarlier(xs: Variants, at: nat, i: nat, disc: Byte, b: Bytes, d: nat, max: nat)
    requires Shadowed(xs, i, disc)
    ensures var r := DecodeVariant(xs, at, disc, b, d, max); r.Ok? ==> r.value.VEnum? && r.value.variant < at + i
  {
    if xs.head.handling.Unreachable? || xs.head.discriminator != disc {
      ShadowedIsEarlier(xs.tail, at + 1, i - 1, disc, b, d, max);
    }
  }

  /** The value of a variant round-trips if and only if no variant before it takes its discriminator:
      just what the emitted `deny(unreachable_patterns)` makes the compiler refuse. */
  lemma {:induction false} VariantRoundTripsIff(xs: Variants, i: nat, vs: Values, d: nat, max: nat, suffix: Bytes)
    requires AcceptedVariants(xs) && HasVariant(vs, xs, i) && EncodeVariant(xs, i, vs, d, max).Wrote?
    requires d + VariantDepth(xs, i, vs, Decoding) <= max + 1
    ensures var b := EncodeVariant(xs, i, vs, d, max).bytes;
            var decoded := DecodeBody(Enum(xs), KEnum, b + suffix, d, max);
            && b != []
            && (decoded == Ok(VEnum(i, DefaultedVariant(xs, i, vs)), suffix) <==> !Shadowed(xs, i, b[0]))
  {
    var b := EncodeVariant(xs, i, vs, d, max).bytes;
    DiscriminatorWritten(xs, i, vs, d, max);
    assert (b + suffix)[0] == b[0] && (b + suffix)[1..] == b[1..] + suffix;
    if Shadowed(xs, i, b[0]) {
      ShadowedIsEarlier(xs, 0, i, b[0], b[1..] + suffix, d, max);
    } else {
      RoundTripVariant(xs, 0, i, vs, d, max, suffix);
    }
  }

  /** The bytes of the first element are those it has one level deeper, for byte kinds too. */
  lemma {:induction false} FirstItem(e: Shape, vs: Values, d: nat, max: nat)
    requires Castable(e) && HasItems(vs, e) && vs.VCons? && EncodeItems(e, vs, d, max).Wrote? && d + 1 <= max
    ensures EncodeBody(e, vs.head, d + 1, max).Wrote? && EncodeItems(e, vs.tail, d, max).Wrote?
    ensures EncodeItems(e, vs, d, max).bytes ==
            EncodeBody(e, vs.head, d + 1, max).bytes + EncodeItems(e, vs.tail, d, max).bytes
  {
    if IsByteKind(KindOf(e)) {
      OneByteWrites(e, vs.head, d, max);
      OneByteWrites(e, vs.head, d + 1, max);
    }
  }

  lemma {:induction false} RoundTripItems(e: Shape, vs: Values, d: nat, max: nat, suffix: Bytes)
    requires Accepted(e) && Castable(e) && HasItems(vs, e) && EncodeItems(e, vs, d, max).Wrote?
    requires d + ItemsDepth(e, vs, Decoding) <= max
    ensures DecodeItems(e, KindOf(e), Length(vs), EncodeItems(e, vs, d, max).bytes + suffix, d, max) ==
            Ok(DefaultedItems(e, vs), suffix)
    decreases e, 1, vs
  {
    match vs {
      case VNil => assert [] + suffix == suffix;
      case VCons(v, t) =>
        DepthPositive(e, v, Decoding);
        FirstItem(e, vs, d, max);
        var body, tail := EncodeBody(e, v, d + 1, max).bytes, EncodeItems(e, t, d, max).bytes;
        Regroup(body, tail, suffix);
        RoundTripBody(e, v, d + 1, max, tail + suffix);
        RoundTripItems(e, t, d, max, suffix);
    }
  }

  lemma {:induction false} RoundTripBytes(e: Shape, vs: Values, d: nat, max: nat, suffix: Bytes)
    requires OneByte(e) && IsByteKind(KindOf(e)) && HasItems(vs, e) && EncodeItems(e, vs, d, max).Wrote?
    ensures |EncodeItems(e, vs, d, max).bytes| == Length(vs)
    ensures DecodeBytes(e, Length(vs), EncodeItems(e, vs, d, max).bytes + suffix) == Ok(DefaultedItems(e, vs), suffix)
    decreases vs
  {
    var b := EncodeItems(e, vs, d, max).bytes;
    match vs {
      case VNil =>
      case VCons(v, t) =>
        OneByteWrites(e, v, d, max);
        RoundTripBytes(e, t, d, max, suffix);
        var tail := EncodeItems(e, t, d, max).bytes;
        assert b[1..] == tail && (tail + suffix)[..|tail|] == tail;
    }
    assert (b + suffix)[..|b|] == b && (b + suffix)[|b|..] == suffix;
  }

  /** Decoding the encoding of a value followed by any suffix returns the value with its
      skipped fields defaulted and leaves exactly the suffix. */
  lemma {:induction false} RoundTrip(s: Shape, v: Value, max: nat, suffix: Bytes)
    requires Accepted(s) && HasShape(v, s) && Encode(s, v, max).Wrote? && Depth(s, v, Decoding) <= max
    ensures Decode(s, Encode(s, v, max).bytes + suffix, max) == Ok(Defaulted(s, v), suffix)
  {
    var body := EncodeBody(s, v, 1, max).bytes;
    Regroup([AsU8(KindOf(s))], body, suffix);
    KindRoundTrip(KindOf(s), body + suffix);
    RoundTripBody(s, v, 1, max, suffix);
  }

  lemma {:induction false} PayloadRoundTrip(prefix: Byte, s: Shape, v: Value, max: nat)
    requires Accepted(s) && HasShape(v, s) && EncodePayload(prefix, s, v, max).Wrote?
    requires Depth(s, v, Decoding) <= max
    ensures DecodePayload(prefix, s, EncodePayload(prefix, s, v, max).bytes, max) == Ok(Defaulted(s, v), [])
  {
    var b := Encode(s, v, max).bytes;
    assert ([prefix] + b)[1..] == b && b + [] == b;
    RoundTrip(s, v, max, []);
  }

  // ---------------------------------------------------------------------------------------
  // Encodings are unique
  // ---------------------------------------------------------------------------------------

  lemma {:induction false} DefaultsCanonical(fs: Fields)
    requires Unskipped(fs) == 0
    ensures HasFields(Defaults(fs), fs) && DefaultedFields(fs, Defaults(fs)) == Defaults(fs)
  {
    if fs.FNil? {
    } else {
      DefaultsCanonical(fs.tail);
    }
  }

  lemma {:induction false} ExpectedSizeCanonical(b: Bytes, n: nat)
    requires ReadExpectedSize(b, n).Ok?
    ensures n <= MAX_SIZE && b == Leb(n) + ReadExpectedSize(b, n).rest
  {
    ReadSizeExact(b, n, ReadExpectedSize(b, n).rest);
  }

  /** `v` is what `b` holds before `rest`: encoding `v` gives those bytes back. */
  predicate Holds(e: Enc, b: Bytes, rest: Bytes) {
    e.Wrote? && b == e.bytes + rest
  }

  lemma {:induction false} ThenHolds(x: Enc, y: Enc, b: Bytes, mid: Bytes, rest: Bytes)
    requires Holds(x, b, mid) && Holds(y, mid, rest)
    ensures Holds(Then(x, y), b, rest)
  {
  }

  lemma {:induction false} CanonicalBody(s: Shape, kind: ValueKind, b: Bytes, d: nat, max: nat)
    requires Accepted(s) && DecodeBody(s, kind, b, d, max).Ok? && d <= max
    ensures var r := DecodeBody(s, kind, b, d, max);
            && kind == KindOf(s) && HasShape(r.value, s) && Defaulted(s, r.value) == r.value
            && d + Depth(s, r.value, Decoding) <= max + 1
            && Holds(EncodeBody(s, r.value, d, max), b, r.rest)
    decreases s, 0
  {
    var r := DecodeBody(s, kind, b, d, max);
    match s {
      case Leaf(l) => LeafCanonical(l, b);
      case Struct(fs) =>
        ExpectedSizeCanonical(b, Unskipped(fs));
        var rest := ReadExpectedSize(b, Unskipped(fs)).rest;
        CanonicalFields(fs, rest, d, max);
        ThenHolds(WriteSize(Unskipped(fs)), EncodeFields(fs, r.value.fields, d, max), b, rest, r.rest);
      case Transparent(fs) => CanonicalUnique(fs, kind, b, d, max);
      case Enum(xs) =>
        CanonicalVariant(xs, 0, b[0], b[1..], d, max);
        assert b == [b[0]] + b[1..];
      case Vec(e) => CanonicalVec(e, b, d, max);
      case Array(e, n) => CanonicalArray(e, n, b, d, max);
    }
  }

  lemma {:induction false} CanonicalVec(e: Shape, b: Bytes, d: nat, max: nat)
    requires Accepted(Vec(e)) && DecodeBody(Vec(e), KArray, b, d, max).Ok? && d <= max
    ensures var r := DecodeBody(Vec(e), KArray, b, d, max);
            && HasShape(r.value, Vec(e)) && Defaulted(Vec(e), r.value) == r.value
            && d + Depth(Vec(e), r.value, Decoding) <= max + 1
            && Holds(EncodeBody(Vec(e), r.value, d, max), b, r.rest)
    decreases e, 2
  {
    var r := DecodeBody(Vec(e), KArray, b, d, max);
    var rest := ReadValueKind(b).rest;
    var size := ReadSize(rest);
    if IsByteKind(KindOf(e)) {
      CanonicalBytes(e, size.value, size.rest, d, max);
    } else {
      CanonicalItems(e, KindOf(e), size.value, size.rest, d, max);
    }
    SliceHolds(e, r.value.items, b, size.value, size.rest, r.rest, d, max);
  }

  lemma {:induction false} CanonicalArray(e: Shape, n: nat, b: Bytes, d: nat, max: nat)
    requires Accepted(Array(e, n)) && DecodeBody(Array(e, n), KArray, b, d, max).Ok? && d <= max
    ensures var s := Array(e, n);
            var r := DecodeBody(s, KArray, b, d, max);
            && HasShape(r.value, s) && Defaulted(s, r.value) == r.value
            && d + Depth(s, r.value, Decoding) <= max + 1
            && Holds(EncodeBody(s, r.value, d, max), b, r.rest)
    decreases e, 2
  {
    var r := DecodeBody(Array(e, n), KArray, b, d, max);
    var rest := ReadValueKind(b).rest;
    var size := ReadSize(rest);
    CanonicalItems(e, KindOf(e), n, size.rest, d, max);
    SliceHolds(e, r.value.items, b, n, size.rest, r.rest, d, max);
  }

  /** Kind and size were read, and the elements are held by what follows. */
  lemma {:induction false} SliceHolds(
    e: Shape, vs: Values, b: Bytes, n: nat, items: Bytes, rest: Bytes, d: nat, max: nat)
    requires HasItems(vs, e) && Length(vs) == n
    requires ReadExpectedKind(b, KindOf(e)).Ok? && ReadSize(ReadValueKind(b).rest) == Ok(n, items)
    requires Holds(EncodeItems(e, vs, d, max), items, rest)
    ensures Holds(EncodeSlice(e, vs, d, max), b, rest)
  {
    KindCanonical(b);
    var afterKind := ReadValueKind(b).rest;
    ReadSizeExact(afterKind, n, items);
    var sizeE, itemsE := WriteSize(n), EncodeItems(e, vs, d, max);
    ThenHolds(sizeE, itemsE, afterKind, items, rest);
    ThenHolds(Wrote([AsU8(KindOf(e))]), Then(sizeE, itemsE), b, afterKind, rest);
  }

  lemma {:induction false} CanonicalFields(fs: Fields, b: Bytes, d: nat, max: nat)
    requires AcceptedFields(fs) && DecodeFields(fs, b, d, max).Ok? && d <= max
    ensures var r := DecodeFields(fs, b, d, max);
            && HasFields(r.value, fs) && DefaultedFields(fs, r.value) == r.value
            && d + FieldsDepth(fs, r.value, Decoding) <= max
            && Holds(EncodeFields(fs, r.value, d, max), b, r.rest)
    decreases fs
  {
    var r := DecodeFields(fs, b, d, max);
    match fs {
      case FNil => assert b == [] + b;
      case FCons(f, t) =>
        if f.skipped {
          CanonicalFields(t, b, d, max);
        } else {
          KindCanonical(b);
          var kind := ReadValueKind(b);
          var head := DecodeBody(f.shape, kind.value, kind.rest, d + 1, max);
          CanonicalBody(f.shape, kind.value, kind.rest, d + 1, max);
          CanonicalFields(t, head.rest, d, max);
          var kindE, bodyE := Wrote([AsU8(KindOf(f.shape))]), EncodeDeeper(f.shape, head.value, d, max);
          ThenHolds(kindE, bodyE, b, kind.rest, head.rest);
          ThenHolds(Then(kindE, bodyE), EncodeFields(t, r.value.tail, d, max), b, head.rest, r.rest);
        }
    }
  }

  lemma {:induction false} CanonicalUnique(fs: Fields, kind: ValueKind, b: Bytes, d: nat, max: nat)
    requires AcceptedFields(fs) && Unskipped(fs) == 1 && DecodeUnique(fs, kind, b, d, max).Ok?
    requires d <= max
    ensures var r := DecodeUnique(fs, kind, b, d, max);
            && kind == UniqueKind(fs) && HasFields(r.value, fs) && DefaultedFields(fs, r.value) == r.value
            && d + UniqueDepth(fs, r.value, Decoding) <= max + 1
            && Holds(EncodeUnique(fs, r.value, d, max), b, r.rest)
    decreases fs
  {
    if fs.head.skipped {
      CanonicalUnique(fs.tail, kind, b, d, max);
    } else {
      CanonicalBody(fs.head.shape, kind, b, d, max);
      DefaultsCanonical(fs.tail);
    }
  }

  lemma {:induction false} CanonicalVariant(xs: Variants, at: nat, disc: Byte, b: Bytes, d: nat, max: nat)
    requires AcceptedVariants(xs) && DecodeVariant(xs, at, disc, b, d, max).Ok? && d <= max
    ensures var r := DecodeVariant(xs, at, disc, b, d, max);
            && r.value.VEnum? && r.value.variant >= at && HasVariant(r.value.fields, xs, r.value.variant - at)
            && d + VariantDepth(xs, r.value.variant - at, r.value.fields, Decoding) <= max + 1
            && DefaultedVariant(xs, r.value.variant - at, r.value.fields) == r.value.fields
            && Holds(EncodeVariant(xs, r.value.variant - at, r.value.fields, d, max), [disc] + b, r.rest)
    decreases xs
  {
    var x, r := xs.head, DecodeVariant(xs, at, disc, b, d, max);
    if x.handling.Unreachable? || x.discriminator != disc {
      CanonicalVariant(xs.tail, at + 1, disc, b, d, max);
    } else if x.handling.Standard? {
      ExpectedSizeCanonical(b, Unskipped(x.fields));
      var rest := ReadExpectedSize(b, Unskipped(x.fields)).rest;
      CanonicalFields(x.fields, rest, d, max);
      var sizeE, fieldsE := WriteSize(Unskipped(x.fields)), EncodeFields(x.fields, r.value.fields, d, max);
      ThenHolds(sizeE, fieldsE, b, rest, r.rest);
      ThenHolds(Wrote([disc]), Then(sizeE, fieldsE), [disc] + b, b, r.rest);
    } else {
      CanonicalUnique(x.fields, KTuple, b, d, max);
      ThenHolds(Wrote([disc]), EncodeUnique(x.fields, r.value.fields, d, max), [disc] + b, b, r.rest);
    }
  }

  lemma {:induction false} CanonicalItems(e: Shape, kind: ValueKind, n: nat, b: Bytes, d: nat, max: nat)
    requires Accepted(e) && Castable(e) && DecodeItems(e, kind, n, b, d, max).Ok? && d <= max
    ensures var r := DecodeItems(e, kind, n, b, d, max);
            && HasItems(r.value, e) && Length(r.value) == n && DefaultedItems(e, r.value) == r.value
            && d + ItemsDepth(e, r.value, Decoding) <= max
            && Holds(EncodeItems(e, r.value, d, max), b, r.rest)
    decreases e, 1, n
  {
    if n == 0 {
      assert b == [] + b;
    } else {
      var r := DecodeItems(e, kind, n, b, d, max);
      var head := DecodeBody(e, kind, b, d + 1, max);
      CanonicalBody(e, kind, b, d + 1, max);
      CanonicalItems(e, kind, n - 1, head.rest, d, max);
      ItemHolds(e, head.value, r.value.tail, b, head.rest, r.rest, d, max);
    }
  }

  /** An element held one level deeper, then the others, are held as elements. */
  lemma {:induction false} ItemHolds(
    e: Shape, v: Value, t: Values, b: Bytes, mid: Bytes, rest: Bytes, d: nat, max: nat)
    requires Castable(e) && HasShape(v, e) && HasItems(t, e) && d + 1 <= max
    requires Holds(EncodeBody(e, v, d + 1, max), b, mid) && Holds(EncodeItems(e, t, d, max), mid, rest)
    ensures Holds(EncodeItems(e, VCons(v, t), d, max), b, rest)
  {
    if IsByteKind(KindOf(e)) {
      OneByteWrites(e, v, d, max);
      OneByteWrites(e, v, d + 1, max);
    }
    ThenHolds(EncodeBody(e, v, d + 1, max), EncodeItems(e, t, d, max), b, mid, rest);
  }

  lemma {:induction false} CanonicalBytes(e: Shape, n: nat, b: Bytes, d: nat, max: nat)
    requires OneByte(e) && IsByteKind(KindOf(e)) && n <= |b|
    ensures var r := DecodeBytes(e, n, b);
            && HasItems(r.value, e) && Length(r.value) == n && DefaultedItems(e, r.value) == r.value
            && Holds(EncodeItems(e, r.value, d, max), b, r.rest)
    decreases n
  {
    if n == 0 {
      assert b == [] + b;
    } else {
      var more, head := DecodeBytes(e, n - 1, b[1..]), ByteValue(e, b[0]);
      CanonicalBytes(e, n - 1, b[1..], d, max);
      assert b[..n][1..] == b[1..][..n - 1] && b[n..] == b[1..][n - 1..];
      assert DecodeBytes(e, n, b) == Ok(VCons(head, more.value), more.rest);
      FirstByteHolds(e, b, more.value, more.rest, d, max);
    }
  }

  lemma {:induction false} FirstByteHolds(e: Shape, b: Bytes, t: Values, rest: Bytes, d: nat, max: nat)
    requires OneByte(e) && IsByteKind(KindOf(e)) && b != [] && HasItems(t, e)
    requires Holds(EncodeItems(e, t, d, max), b[1..], rest)
    ensures var head := ByteValue(e, b[0]);
            && HasShape(head, e) && Defaulted(e, head) == head
            && Holds(EncodeItems(e, VCons(head, t), d, max), b, rest)
  {
    var head := ByteValue(e, b[0]);
    OneByteReads(e, b[0]);
    OneByteWrites(e, head, d, max);
    assert b == [b[0]] + b[1..];
    ThenHolds(EncodeBody(e, head, d, max), EncodeItems(e, t, d, max), b, b[1..], rest);
  }

  /** Whenever derived decoding succeeds, re-encoding the result gives back exactly the bytes read. */
  lemma {:induction false} Canonical(s: Shape, b: Bytes, max: nat)
    requires Accepted(s) && Decode(s, b, max).Ok?
    ensures var r := Decode(s, b, max);
            && HasShape(r.value, s) && Defaulted(s, r.value) == r.value && Depth(s, r.value, Decoding) <= max
            && Holds(Encode(s, r.value, max), b, r.rest)
  {
    KindCanonical(b);
    var kind, r := ReadValueKind(b), Decode(s, b, max);
    CanonicalBody(s, kind.value, kind.rest, 1, max);
    ThenHolds(Wrote([AsU8(kind.value)]), EncodeDeeper(s, r.value, 0, max), b, kind.rest, r.rest);
  }

  /** No two payloads decode to one value. */
  lemma {:induction false} PayloadsUnique(prefix: Byte, s: Shape, a: Bytes, b: Bytes, max: nat)
    requires Accepted(s)
    requires DecodePayload(prefix, s, a, max).Ok? && DecodePayload(prefix, s, b, max).Ok?
    requires DecodePayload(prefix, s, a, max).value == DecodePayload(prefix, s, b, max).value
    ensures a == b
  {
    Canonical(s, a[1..], max);
    Canonical(s, b[1..], max);
    assert a == [prefix] + a[1..] && b == [prefix] + b[1..];
  }

  // ---------------------------------------------------------------------------------------
  // What is refused
  // ---------------------------------------------------------------------------------------

  /** Bytes after what is decoded change nothing but the rest, so no encoding is the beginning of
      another one. */
  lemma {:induction false} MoreBytesAreRest(s: Shape, b: Bytes, more: Bytes, max: nat)
    requires Accepted(s) && Decode(s, b, max).Ok?
    ensures Decode(s, b + more, max) == Ok(Decode(s, b, max).value, Decode(s, b, max).rest + more)
  {
    var r := Decode(s, b, max);
    Canonical(s, b, max);
    Regroup(Encode(s, r.value, max).bytes, r.rest, more);
    RoundTrip(s, r.value, max, r.rest + more);
  }

  /** A payload followed by anything is refused with the number of bytes too many, and one with
      another prefix with both prefixes. */
  lemma {:induction false} PayloadRefused(prefix: Byte, other: Byte, s: Shape, b: Bytes, more: Bytes, max: nat)
    requires Accepted(s) && DecodePayload(prefix, s, b, max).Ok?
    ensures more != [] ==> DecodePayload(prefix, s, b + more, max) == Err(ExtraTrailingBytes(|more|))
    ensures other != prefix ==> DecodePayload(other, s, b, max) == Err(UnexpectedPayloadPrefix(other, prefix))
  {
    TrailingRefused(prefix, s, b, more, max);
  }

  lemma {:induction false} TrailingRefused(prefix: Byte, s: Shape, b: Bytes, more: Bytes, max: nat)
    requires Accepted(s) && DecodePayload(prefix, s, b, max).Ok?
    ensures more != [] ==> DecodePayload(prefix, s, b + more, max) == Err(ExtraTrailingBytes(|more|))
  {
    PayloadStep(prefix, s, b, max);
    MoreBytesAreRest(s, b[1..], more, max);
    MoreAfterFirst(b, more);
    PayloadStep(prefix, s, b + more, max);
  }

  lemma {:induction false} MoreAfterFirst(b: Bytes, more: Bytes)
    requires b != []
    ensures (b + more)[0] == b[0] && (b + more)[1..] == b[1..] + more && [] + more == more
  {
  }

  lemma {:induction false} PayloadStep(prefix: Byte, s: Shape, b: Bytes, max: nat)
    requires b != [] && b[0] == prefix
    ensures DecodePayload(prefix, s, b, max) ==
            match Decode(s, b[1..], max) {
              case Err(e) => Err(e)
              case Ok(v, rest) => if rest == [] then Ok(v, rest) else Err(ExtraTrailingBytes(|rest|))
            }
  {
  }

  /** Bytes of another kind than the type's are refused with both kinds, through any wrappers. */
  lemma {:induction false} OtherKindRefused(s: Shape, kind: ValueKind, b: Bytes, d: nat, max: nat)
    requires Accepted(s) && kind != KindOf(s)
    ensures DecodeBody(s, kind, b, d, max) == Err(UnexpectedValueKind(AsU8(KindOf(s)), AsU8(kind)))
  {
    match s {
      case Transparent(fs) => OtherUniqueKindRefused(fs, kind, b, d, max);
      case _ =>
    }
  }

  lemma {:induction false} OtherUniqueKindRefused(fs: Fields, kind: ValueKind, b: Bytes, d: nat, max: nat)
    requires AcceptedFields(fs) && Unskipped(fs) == 1 && kind != UniqueKind(fs)
    ensures DecodeUnique(fs, kind, b, d, max) == Err(UnexpectedValueKind(AsU8(UniqueKind(fs)), AsU8(kind)))
  {
    if fs.head.skipped {
      OtherUniqueKindRefused(fs.tail, kind, b, d, max);
    } else {
      OtherKindRefused(fs.head.shape, kind, b, d, max);
    }
  }

  /** A discriminator that no reachable variant has is refused by itself. */
  lemma {:induction false} OtherDiscriminatorRefused(xs: Variants, disc: Byte, rest: Bytes, d: nat, max: nat)
    requires disc !in Discriminators(xs)
    ensures DecodeBody(Enum(xs), KEnum, [disc] + rest, d, max) == Err(UnknownDiscriminator(disc))
  {
    assert ([disc] + rest)[1..] == rest;
    NoVariantTakes(xs, 0, disc, rest, d, max);
  }

  lemma {:induction false} NoVariantTakes(xs: Variants, at: nat, disc: Byte, b: Bytes, d: nat, max: nat)
    requires disc !in Discriminators(xs)
    ensures DecodeVariant(xs, at, disc, b, d, max) == Err(UnknownDiscriminator(disc))
  {
    match xs {
      case XNil =>
      case XCons(_, t) => NoVariantTakes(t, at + 1, disc, b, d, max);
    }
  }

  /** Reading past the end is refused with more than there is and what there is. */
  lemma {:induction false} UnderflowRefused(b: Bytes, n: nat)
    ensures ReadSlice(b, n).Err? <==> n > |b|
    ensures ReadSlice(b, n).Err? ==> ReadSlice(b, n) == Err(BufferUnderflow(n, |b|))
    ensures b == [] ==> ReadByte(b) == Err(BufferUnderflow(1, 0))
  {
  }

  /** A struct is not read as one with another number of fields. */
  lemma {:induction false} OtherFieldCountRefused(fs: Fields, n: nat, rest: Bytes, d: nat, max: nat)
    requires n <= MAX_SIZE && n != Unskipped(fs)
    ensures DecodeBody(Struct(fs), KTuple, Leb(n) + rest, d, max) == Err(UnexpectedSize(Unskipped(fs), n))
  {
    ReadSizeExact(Leb(n) + rest, n, rest);
  }
}
