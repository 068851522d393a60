/** The code that the SBOR derive macros emit, as an interpreter over type shapes. */
module SborDerive {
  import opened Bytes
  import opened SborWire

  /** A Rust type: a primitive, a derived struct or enum, a transparent struct, a `Vec<T>` or a
      `[T; N]`. */
  datatype Shape =
    | Leaf(leaf: Leaf)
    | Struct(fields: Fields)
    | Transparent(fields: Fields)
    | Enum(variants: Variants)
    | Vec(element: Shape)
    | Array(element: Shape, length: nat)

  /** `default` is what `Default::default()` gives for a skipped field. */
  datatype Field = Field(shape: Shape, skipped: bool, default: Value)
  datatype Fields = FNil | FCons(head: Field, tail: Fields)

  datatype Handling = Standard | Flatten | Unreachable
  datatype Variant = Variant(handling: Handling, discriminator: Byte, fields: Fields)
  datatype Variants = XNil | XCons(head: Variant, tail: Variants)

  /** A value of such a type. An enum value names its variant by position in the source. */
  datatype Value =
    | VLeaf(leaf: LeafValue)
    | VStruct(fields: Values)
    | VEnum(variant: nat, fields: Values)
    | VVec(items: Values)
  datatype Values = VNil | VCons(head: Value, tail: Values)

  // ---------------------------------------------------------------------------------------
  // Typing and accepted shapes
  // ---------------------------------------------------------------------------------------

  predicate HasShape(v: Value, s: Shape)
    decreases s, 0
  {
    match s
    case Leaf(l) => v.VLeaf? && HasLeaf(v.leaf, l)
    case Struct(fs) => v.VStruct? && HasFields(v.fields, fs)
    case Transparent(fs) => v.VStruct? && HasFields(v.fields, fs)
    case Enum(xs) => v.VEnum? && HasVariant(v.fields, xs, v.variant)
    case Vec(e) => v.VVec? && HasItems(v.items, e)
    case Array(e, n) => v.VVec? && Length(v.items) == n && HasItems(v.items, e)
  }

  /** Skipped fields may have any type. */
  predicate HasFields(vs: Values, fs: Fields)
    decreases fs
  {
    match fs
    case FNil => vs.VNil?
    case FCons(f, t) => vs.VCons? && (!f.skipped ==> HasShape(vs.head, f.shape)) && HasFields(vs.tail, t)
  }

  predicate HasVariant(vs: Values, xs: Variants, i: nat)
    decreases xs
  {
    match xs
    case XNil => false
    case XCons(x, t) => if i == 0 then HasFields(vs, x.fields) else HasVariant(vs, t, i - 1)
  }

  predicate HasItems(vs: Values, e: Shape)
    decreases e, 1, vs
  {
    match vs
    case VNil => true
    case VCons(v, t) => HasShape(v, e) && HasItems(t, e)
  }

  function Unskipped(fs: Fields): nat {
    match fs
    case FNil => 0
    case FCons(f, t) => (if f.skipped then 0 else 1) + Unskipped(t)
  }

  function Length(vs: Values): nat {
    match vs
    case VNil => 0
    case VCons(_, t) => 1 + Length(t)
  }

  /** `Categorize::value_kind`; a transparent struct has the kind of its unique unskipped field. */
  function KindOf(s: Shape): ValueKind {
    match s
    case Leaf(l) => LeafKind(l)
    case Struct(_) => KTuple
    case Transparent(fs) => UniqueKind(fs)
    case Enum(_) => KEnum
    case Vec(_) => KArray
    case Array(_, _) => KArray
  }

  function UniqueKind(fs: Fields): ValueKind {
    match fs
    case FNil => KTuple
    case FCons(f, t) => if f.skipped then UniqueKind(t) else KindOf(f.shape)
  }

  /** The type implements `SborTuple`, which flattening demands. */
  predicate IsTuple(s: Shape) {
    match s
    case Struct(_) => true
    case Transparent(fs) => UniqueIsTuple(fs)
    case _ => false
  }

  predicate UniqueIsTuple(fs: Fields) {
    match fs
    case FNil => false
    case FCons(f, t) => if f.skipped then UniqueIsTuple(t) else IsTuple(f.shape)
  }

  /** Slices of bytes are written, and vectors of bytes read, as one slice. */
  predicate IsByteKind(k: ValueKind) {
    k == KU8 || k == KI8
  }

  /** A byte, or transparent structs around one with no other field: one byte in memory too. */
  predicate OneByte(s: Shape) {
    match s
    case Leaf(l) => IsByteKind(LeafKind(l))
    case Transparent(FCons(f, FNil)) => !f.skipped && OneByte(f.shape)
    case _ => false
  }

  /** Elements of a byte kind are cast to bytes, so they must be one byte each. */
  predicate Castable(e: Shape) {
    IsByteKind(KindOf(e)) ==> OneByte(e)
  }

  /** The shapes the macros and the compiler accept. */
  predicate Accepted(s: Shape) {
    match s
    case Leaf(_) => true
    case Struct(fs) => AcceptedFields(fs)
    case Transparent(fs) => AcceptedFields(fs) && Unskipped(fs) == 1
    case Enum(xs) => AcceptedVariants(xs) && Distinct(xs)
    case Vec(e) => Accepted(e) && Castable(e)
    case Array(e, _) => Accepted(e) && Castable(e)
  }

  predicate AcceptedFields(fs: Fields) {
    match fs
    case FNil => true
    case FCons(f, t) => (!f.skipped ==> Accepted(f.shape)) && AcceptedFields(t)
  }

  predicate AcceptedVariants(xs: Variants) {
    match xs
    case XNil => true
    case XCons(x, t) =>
      && (!x.handling.Unreachable? ==> AcceptedFields(x.fields))
      && (x.handling.Flatten? ==> Unskipped(x.fields) == 1 && UniqueIsTuple(x.fields))
      && AcceptedVariants(t)
  }

  function Discriminators(xs: Variants): set<Byte> {
    match xs
    case XNil => {}
    case XCons(x, t) => (if x.handling.Unreachable? then {} else {x.discriminator}) + Discriminators(t)
  }

  /** No two reachable variants share a discriminator. */
  predicate Distinct(xs: Variants) {
    match xs
    case XNil => true
    case XCons(x, t) => (!x.handling.Unreachable? ==> x.discriminator !in Discriminators(t)) && Distinct(t)
  }

  // ---------------------------------------------------------------------------------------
  // Encoding. `d` is the encoder's stack depth while it writes the body.
  // ---------------------------------------------------------------------------------------

  function EncodeBody(s: Shape, v: Value, d: nat, max: nat): Enc
    requires HasShape(v, s)
    decreases s, 0
  {
    match s
    case Leaf(l) => if LeafSized(v.leaf) then Wrote(LeafBytes(l, v.leaf)) else WriteSize(|v.leaf.utf8|)
    case Struct(fs) => Then(WriteSize(Unskipped(fs)), EncodeFields(fs, v.fields, d, max))
    case Transparent(fs) => EncodeUnique(fs, v.fields, d, max)
    case Enum(xs) => EncodeVariant(xs, v.variant, v.fields, d, max)
    case Vec(e) => EncodeSlice(e, v.items, d, max)
    case Array(e, _) => EncodeSlice(e, v.items, d, max)
  }

  /** `encode_body` of a slice: the kind of the elements, their number, the elements. */
  function EncodeSlice(e: Shape, vs: Values, d: nat, max: nat): Enc
    requires HasItems(vs, e)
    decreases e, 3, vs
  {
    Then(Wrote([AsU8(KindOf(e))]), Then(WriteSize(Length(vs)), EncodeItems(e, vs, d, max)))
  }

  /** `encode_deeper_body`. */
  function EncodeDeeper(s: Shape, v: Value, d: nat, max: nat): Enc
    requires HasShape(v, s)
    decreases s, 1, VNil
  {
    if d + 1 > max then Failed(DepthExceeded(max)) else EncodeBody(s, v, d + 1, max)
  }

  function EncodeFields(fs: Fields, vs: Values, d: nat, max: nat): Enc
    requires HasFields(vs, fs)
  {
    match fs
    case FNil => Wrote([])
    case FCons(f, t) =>
      if f.skipped then EncodeFields(t, vs.tail, d, max)
      else
        Then(Then(Wrote([AsU8(KindOf(f.shape))]), EncodeDeeper(f.shape, vs.head, d, max)),
             EncodeFields(t, vs.tail, d, max))
  }

  /** `encode_body` of the unique unskipped field, at the depth of its wrapper. */
  function EncodeUnique(fs: Fields, vs: Values, d: nat, max: nat): Enc
    requires HasFields(vs, fs)
  {
    match fs
    case FNil => Wrote([])
    case FCons(f, t) => if f.skipped then EncodeUnique(t, vs.tail, d, max) else EncodeBody(f.shape, vs.head, d, max)
  }

  function EncodeVariant(xs: Variants, i: nat, vs: Values, d: nat, max: nat): Enc
    requires HasVariant(vs, xs, i)
  {
    if i > 0 then EncodeVariant(xs.tail, i - 1, vs, d, max)
    else
      var x := xs.head;
      match x.handling
      case Standard =>
        Then(Wrote([x.discriminator]), Then(WriteSize(Unskipped(x.fields)), EncodeFields(x.fields, vs, d, max)))
      case Flatten => Then(Wrote([x.discriminator]), EncodeUnique(x.fields, vs, d, max))
      case Unreachable => Failed(UnreachableVariant)
  }

  /** The elements of a slice: bytes as they are, anything else one level deeper. */
  function EncodeItems(e: Shape, vs: Values, d: nat, max: nat): Enc
    requires HasItems(vs, e)
    decreases e, 2, vs
  {
    match vs
    case VNil => Wrote([])
    case VCons(v, t) =>
      Then(if IsByteKind(KindOf(e)) then EncodeBody(e, v, d, max) else EncodeDeeper(e, v, d, max),
           EncodeItems(e, t, d, max))
  }

  /** `encoder.encode` of a whole value. */
  function Encode(s: Shape, v: Value, max: nat): Enc
    requires HasShape(v, s)
  {
    Then(Wrote([AsU8(KindOf(s))]), EncodeDeeper(s, v, 0, max))
  }

  // ---------------------------------------------------------------------------------------
  // Decoding
  // ---------------------------------------------------------------------------------------

  function DecodeBody(s: Shape, kind: ValueKind, b: Bytes, d: nat, max: nat): Dec<Value>
    decreases s, 0
  {
    match s
    case Leaf(l) =>
      if kind != LeafKind(l) then WrongKind(LeafKind(l), kind)
      else
        var (v, rest) :- DecodeLeaf(l, b);
        Ok(VLeaf(v), rest)
    case Struct(fs) =>
      if kind != KTuple then WrongKind(KTuple, kind)
      else
        var (_, rest) :- ReadExpectedSize(b, Unskipped(fs));
        var (vs, rest') :- DecodeFields(fs, rest, d, max);
        Ok(VStruct(vs), rest')
    case Transparent(fs) =>
      var (vs, rest) :- DecodeUnique(fs, kind, b, d, max);
      Ok(VStruct(vs), rest)
    case Enum(xs) =>
      if kind != KEnum then WrongKind(KEnum, kind)
      else
        var (disc, rest) :- ReadByte(b);
        DecodeVariant(xs, 0, disc, rest, d, max)
    case Vec(e) =>
      if kind != KArray then WrongKind(KArray, kind)
      else
        var (elementKind, rest) :- ReadExpectedKind(b, KindOf(e));
        var (n, rest') :- ReadSize(rest);
        var (vs, rest'') :-
          if IsByteKind(KindOf(e)) then DecodeBytes(e, n, rest') else DecodeItems(e, elementKind, n, rest', d, max);
        Ok(VVec(vs), rest'')
    case Array(e, n) =>
      if kind != KArray then WrongKind(KArray, kind)
      else
        var (elementKind, rest) :- ReadExpectedKind(b, KindOf(e));
        var (_, rest') :- ReadExpectedSize(rest, n);
        var (vs, rest'') :- DecodeItems(e, elementKind, n, rest', d, max);
        Ok(VVec(vs), rest'')
  }

  function WrongKind<T>(expected: ValueKind, actual: ValueKind): Dec<T> {
    Err(UnexpectedValueKind(AsU8(expected), AsU8(actual)))
  }

  /** `decode_deeper_body_with_value_kind`. */
  function DecodeDeeper(s: Shape, kind: ValueKind, b: Bytes, d: nat, max: nat): Dec<Value>
    decreases s, 1
  {
    if d + 1 > max then Err(MaxDepthExceeded(max)) else DecodeBody(s, kind, b, d + 1, max)
  }

  function DecodeFields(fs: Fields, b: Bytes, d: nat, max: nat): Dec<Values> {
    match fs
    case FNil => Ok(VNil, b)
    case FCons(f, t) =>
      if f.skipped then
        var (vs, rest) :- DecodeFields(t, b, d, max);
        Ok(VCons(f.default, vs), rest)
      else
        var (kind, rest) :- ReadValueKind(b);
        var (v, rest') :- DecodeDeeper(f.shape, kind, rest, d, max);
        var (vs, rest'') :- DecodeFields(t, rest', d, max);
        Ok(VCons(v, vs), rest'')
  }

  function Defaults(fs: Fields): Values {
    match fs
    case FNil => VNil
    case FCons(f, t) => VCons(f.default, Defaults(t))
  }

  /** The unique unskipped field at the depth of its wrapper, defaults around it. */
  function DecodeUnique(fs: Fields, kind: ValueKind, b: Bytes, d: nat, max: nat): Dec<Values> {
    match fs
    case FNil => Ok(VNil, b)
    case FCons(f, t) =>
      if f.skipped then
        var (vs, rest) :- DecodeUnique(t, kind, b, d, max);
        Ok(VCons(f.default, vs), rest)
      else
        var (v, rest) :- DecodeBody(f.shape, kind, b, d, max);
        Ok(VCons(v, Defaults(t)), rest)
  }

  /** The match over discriminators; unreachable variants have no arm. `i` counts source variants. */
  function DecodeVariant(xs: Variants, i: nat, disc: Byte, b: Bytes, d: nat, max: nat): Dec<Value> {
    match xs
    case XNil => Err(UnknownDiscriminator(disc))
    case XCons(x, t) =>
      if x.handling.Unreachable? || x.discriminator != disc then DecodeVariant(t, i + 1, disc, b, d, max)
      else if x.handling.Standard? then
        var (_, rest) :- ReadExpectedSize(b, Unskipped(x.fields));
        var (vs, rest') :- DecodeFields(x.fields, rest, d, max);
        Ok(VEnum(i, vs), rest')
      else
        var (vs, rest) :- DecodeUnique(x.fields, KTuple, b, d, max);
        Ok(VEnum(i, vs), rest)
  }

  function DecodeItems(e: Shape, kind: ValueKind, n: nat, b: Bytes, d: nat, max: nat): Dec<Values>
    decreases e, 2, n
  {
    if n == 0 then Ok(VNil, b)
    else
      var (v, rest) :- DecodeDeeper(e, kind, b, d, max);
      var (vs, rest') :- DecodeItems(e, kind, n - 1, rest, d, max);
      Ok(VCons(v, vs), rest')
  }

  /** `read_slice` of `n` bytes, each of them an element. */
  function DecodeBytes(e: Shape, n: nat, b: Bytes): Dec<Values> {
    var (bytes, rest) :- ReadSlice(b, n);
    Ok(ByteValues(e, bytes), rest)
  }

  function ByteValues(e: Shape, bytes: Bytes): Values {
    if bytes == [] then VNil else VCons(ByteValue(e, bytes[0]), ByteValues(e, bytes[1..]))
  }

  /** The value of a one-byte type with this byte in memory. */
  function ByteValue(e: Shape, byte: Byte): Value {
    match e
    case Transparent(FCons(f, FNil)) => VStruct(VCons(ByteValue(f.shape, byte), VNil))
    case _ => VLeaf(Int(FromUnsigned(byte, KindOf(e) == KI8, 1)))
  }

  /** `decoder.decode` of a whole value. */
  function Decode(s: Shape, b: Bytes, max: nat): Dec<Value> {
    var (kind, rest) :- ReadValueKind(b);
    DecodeDeeper(s, kind, rest, 0, max)
  }

  function EncodePayload(prefix: Byte, s: Shape, v: Value, max: nat): Enc
    requires HasShape(v, s)
  {
    Then(Wrote([prefix]), Encode(s, v, max))
  }

  /** `decode_payload`: prefix byte, value, nothing after it. */
  function DecodePayload(prefix: Byte, s: Shape, b: Bytes, max: nat): Dec<Value> {
    var (actual, rest) :- ReadByte(b);
    if actual != prefix then Err(UnexpectedPayloadPrefix(prefix, actual))
    else
      var (v, rest') :- Decode(s, rest, max);
      if rest' != [] then Err(ExtraTrailingBytes(|rest'|)) else Ok(v, rest')
  }

  // ---------------------------------------------------------------------------------------
  // Skipped fields
  // ---------------------------------------------------------------------------------------

  /** The value with every skipped field replaced by its default. */
  function Defaulted(s: Shape, v: Value): Value
    requires HasShape(v, s)
    decreases s, 0
  {
    match s
    case Leaf(_) => v
    case Struct(fs) => VStruct(DefaultedFields(fs, v.fields))
    case Transparent(fs) => VStruct(DefaultedFields(fs, v.fields))
    case Enum(xs) => VEnum(v.variant, DefaultedVariant(xs, v.variant, v.fields))
    case Vec(e) => VVec(DefaultedItems(e, v.items))
    case Array(e, _) => VVec(DefaultedItems(e, v.items))
  }

  function DefaultedFields(fs: Fields, vs: Values): Values
    requires HasFields(vs, fs)
  {
    match fs
    case FNil => VNil
    case FCons(f, t) =>
      VCons(if f.skipped then f.default else Defaulted(f.shape, vs.head), DefaultedFields(t, vs.tail))
  }

  function DefaultedVariant(xs: Variants, i: nat, vs: Values): Values
    requires HasVariant(vs, xs, i)
  {
    if i == 0 then DefaultedFields(xs.head.fields, vs) else DefaultedVariant(xs.tail, i - 1, vs)
  }

  function DefaultedItems(e: Shape, vs: Values): Values
    requires HasItems(vs, e)
    decreases e, 1, vs
  {
    match vs
    case VNil => VNil
    case VCons(v, t) => VCons(Defaulted(e, v), DefaultedItems(e, t))
  }

  // ---------------------------------------------------------------------------------------
  // Typed depth: what the typed encoder and decoder measure
  // ---------------------------------------------------------------------------------------

  function Max(a: nat, b: nat): nat {
    if a < b then b else a
  }

  datatype Side = Encoding | Decoding

  /** Bytes in a `Vec` are not counted; bytes in an array are counted when it is read, as it is
      read element by element. */
  function Depth(s: Shape, v: Value, side: Side): nat
    requires HasShape(v, s)
    decreases s, 0
  {
    match s
    case Leaf(_) => 1
    case Struct(fs) => 1 + FieldsDepth(fs, v.fields, side)
    case Transparent(fs) => UniqueDepth(fs, v.fields, side)
    case Enum(xs) => VariantDepth(xs, v.variant, v.fields, side)
    case Vec(e) => if IsByteKind(KindOf(e)) then 1 else 1 + ItemsDepth(e, v.items, side)
    case Array(e, _) =>
      if IsByteKind(KindOf(e)) && side.Encoding? then 1 else 1 + ItemsDepth(e, v.items, side)
  }

  function FieldsDepth(fs: Fields, vs: Values, side: Side): nat
    requires HasFields(vs, fs)
  {
    match fs
    case FNil => 0
    case FCons(f, t) =>
      if f.skipped then FieldsDepth(t, vs.tail, side)
      else Max(Depth(f.shape, vs.head, side), FieldsDepth(t, vs.tail, side))
  }

  function UniqueDepth(fs: Fields, vs: Values, side: Side): nat
    requires HasFields(vs, fs)
  {
    match fs
    case FNil => 1
    case FCons(f, t) => if f.skipped then UniqueDepth(t, vs.tail, side) else Depth(f.shape, vs.head, side)
  }

  function VariantDepth(xs: Variants, i: nat, vs: Values, side: Side): nat
    requires HasVariant(vs, xs, i)
  {
    if i > 0 then VariantDepth(xs.tail, i - 1, vs, side)
    else if xs.head.handling.Flatten? then UniqueDepth(xs.head.fields, vs, side)
    else 1 + FieldsDepth(xs.head.fields, vs, side)
  }

  function ItemsDepth(e: Shape, vs: Values, side: Side): nat
    requires HasItems(vs, e)
    decreases e, 1, vs
  {
    match vs
    case VNil => 0
    case VCons(v, t) => Max(Depth(e, v, side), ItemsDepth(e, t, side))
  }
}
