/** The bytes of SBOR: value kinds, the bounded LEB128 size and the primitive values. */
module SborWire {
  import opened Bytes
  import opened Ordered
  import Utf8

  datatype ValueKind =
    | KBool | KI8 | KI16 | KI32 | KI64 | KI128 | KU8 | KU16 | KU32 | KU64 | KU128 | KString
    | KArray | KTuple | KEnum | KMap

  function AsU8(k: ValueKind): Byte {
    match k
    case KBool => 0x01
    case KI8 => 0x02
    case KI16 => 0x03
    case KI32 => 0x04
    case KI64 => 0x05
    case KI128 => 0x06
    case KU8 => 0x07
    case KU16 => 0x08
    case KU32 => 0x09
    case KU64 => 0x0a
    case KU128 => 0x0b
    case KString => 0x0c
    case KArray => 0x20
    case KTuple => 0x21
    case KEnum => 0x22
    case KMap => 0x23
  }

  /** `ValueKind::from_u8` without custom value kinds. */
  function FromU8(id: Byte): Option<ValueKind> {
    match id
    case 0x01 => Some(KBool)
    case 0x02 => Some(KI8)
    case 0x03 => Some(KI16)
    case 0x04 => Some(KI32)
    case 0x05 => Some(KI64)
    case 0x06 => Some(KI128)
    case 0x07 => Some(KU8)
    case 0x08 => Some(KU16)
    case 0x09 => Some(KU32)
    case 0x0a => Some(KU64)
    case 0x0b => Some(KU128)
    case 0x0c => Some(KString)
    case 0x20 => Some(KArray)
    case 0x21 => Some(KTuple)
    case 0x22 => Some(KEnum)
    case 0x23 => Some(KMap)
    case _ => None
  }

  datatype DecodeError =
    | ExtraTrailingBytes(extra: nat)
    | BufferUnderflow(required: nat, remaining: nat)
    | UnexpectedPayloadPrefix(expectedPrefix: Byte, actualPrefix: Byte)
    | UnexpectedValueKind(expectedKind: Byte, actualKind: Byte)
    | UnexpectedSize(expectedSize: nat, actualSize: nat)
    | UnknownValueKind(id: Byte)
    | UnknownDiscriminator(discriminator: Byte)
    | InvalidBool(byte: Byte)
    | InvalidUtf8
    | InvalidSize
    | MaxDepthExceeded(limit: nat)

  /** A decoded value and the bytes that follow it, or an error. */
  datatype Dec<+T> = Ok(value: T, rest: Bytes) | Err(error: DecodeError) {
    predicate IsFailure() {
      Err?
    }

    function PropagateFailure<U>(): Dec<U>
      requires Err?
    {
      Err(error)
    }

    function Extract(): (T, Bytes)
      requires Ok?
    {
      (value, rest)
    }
  }

  // ---------------------------------------------------------------------------------------
  // Bytes, slices and value kinds
  // ---------------------------------------------------------------------------------------

  function ReadSlice(b: Bytes, n: nat): Dec<Bytes> {
    if |b| < n then Err(BufferUnderflow(n, |b|)) else Ok(b[..n], b[n..])
  }

  function ReadByte(b: Bytes): Dec<Byte> {
    if |b| < 1 then Err(BufferUnderflow(1, |b|)) else Ok(b[0], b[1..])
  }

  function ReadValueKind(b: Bytes): Dec<ValueKind> {
    var (id, rest) :- ReadByte(b);
    match FromU8(id)
    case Some(k) => Ok(k, rest)
    case None => Err(UnknownValueKind(id))
  }

  /** `read_and_check_value_kind`. */
  function ReadExpectedKind(b: Bytes, expected: ValueKind): Dec<ValueKind> {
    var (k, rest) :- ReadValueKind(b);
    if k == expected then Ok(k, rest) else Err(UnexpectedValueKind(AsU8(expected), AsU8(k)))
  }

  lemma {:induction false} KindRoundTrip(k: ValueKind, rest: Bytes)
    ensures ReadValueKind([AsU8(k)] + rest) == Ok(k, rest)
    ensures ReadExpectedKind([AsU8(k)] + rest, k) == Ok(k, rest)
  {
  }

  lemma {:induction false} KindCanonical(b: Bytes)
    requires ReadValueKind(b).Ok?
    ensures b == [AsU8(ReadValueKind(b).value)] + ReadValueKind(b).rest
  {
  }

  // ---------------------------------------------------------------------------------------
  // Sizes
  // ---------------------------------------------------------------------------------------

  const MAX_SIZE: nat := 0x0FFF_FFFF

  /** Unsigned LEB128, section 7.6 of DWARF Version 5. */
  function Leb(n: nat): (b: Bytes)
    ensures b != []
  {
    if n < 0x80 then [n] else [0x80 + n % 0x80] + Leb(n / 0x80)
  }

  /** The size reader once it has read `done` bytes: what it adds, in units of the next byte. */
  function ReadSizeFrom(b: Bytes, done: nat): Dec<nat>
    decreases |b|
  {
    var (byte, rest) :- ReadByte(b);
    if byte < 0x80 then
      if byte == 0 && done != 0 then Err(InvalidSize) else Ok(byte, rest)
    else if done >= 3 then Err(InvalidSize)
    else
      var (more, rest') :- ReadSizeFrom(rest, done + 1);
      Ok(byte - 0x80 + 0x80 * more, rest')
  }

  function ReadSize(b: Bytes): Dec<nat> {
    ReadSizeFrom(b, 0)
  }

  function ReadExpectedSize(b: Bytes, expected: nat): Dec<nat> {
    var (n, rest) :- ReadSize(b);
    if n == expected then Ok(n, rest) else Err(UnexpectedSize(expected, n))
  }

  /** What still fits in the bytes that are left. */
  function SizeLimit(done: nat): nat {
    if done == 0 then 0x1000_0000 else if done == 1 then 0x20_0000 else if done == 2 then 0x4000 else 0x80
  }

  lemma {:induction false} SizeFromRoundTrip(n: nat, done: nat, rest: Bytes)
    requires done <= 3 && n < SizeLimit(done) && (done > 0 ==> n > 0)
    ensures ReadSizeFrom(Leb(n) + rest, done) == Ok(n, rest)
    decreases n
  {
    if n < 0x80 {
      assert (Leb(n) + rest)[1..] == rest;
    } else {
      assert (Leb(n) + rest)[1..] == Leb(n / 0x80) + rest;
      SizeFromRoundTrip(n / 0x80, done + 1, rest);
    }
  }

  lemma {:induction false} SizeFromCanonical(b: Bytes, done: nat)
    requires done <= 3 && ReadSizeFrom(b, done).Ok?
    ensures var r := ReadSizeFrom(b, done);
            r.value < SizeLimit(done) && (done > 0 ==> r.value > 0) && b == Leb(r.value) + r.rest
    decreases |b|
  {
    assert b == [b[0]] + b[1..];
    if b[0] >= 0x80 {
      SizeFromCanonical(b[1..], done + 1);
      var more := ReadSizeFrom(b[1..], done + 1);
      LebStep(b[0], more.value, done, more.rest);
    }
  }

  lemma {:induction false} LebStep(byte: Byte, more: nat, done: nat, rest: Bytes)
    requires byte >= 0x80 && done < 3 && 0 < more < SizeLimit(done + 1)
    ensures var n := byte - 0x80 + 0x80 * more;
            n < SizeLimit(done) && [byte] + (Leb(more) + rest) == Leb(n) + rest
  {
  }

  /** The reader accepts exactly one byte string for each size below 2^28 and nothing else. */
  lemma {:induction false} ReadSizeExact(b: Bytes, n: nat, rest: Bytes)
    ensures ReadSize(b) == Ok(n, rest) <==> n <= MAX_SIZE && b == Leb(n) + rest
  {
    if ReadSize(b).Ok? {
      SizeFromCanonical(b, 0);
    }
    if n <= MAX_SIZE {
      SizeFromRoundTrip(n, 0, rest);
    }
  }

  /** A size takes one to four bytes. */
  lemma {:induction false} LebLength(n: nat, done: nat)
    requires done <= 3 && n < SizeLimit(done)
    ensures 1 <= |Leb(n)| <= 4 - done
    decreases n
  {
    if n < 0x80 {
    } else {
      LebLength(n / 0x80, done + 1);
    }
  }

  /** `n >> (7 * i)`. */
  function Shr7(n: nat, i: nat): nat {
    if i == 0 then n else Shr7(n / 128, i - 1)
  }

  /** Byte `i` of a size carries its `i`-th digit to the base 128, least significant first, and its
      top bit says that more follow. */
  lemma {:induction false} LebByteAt(n: nat, i: nat)
    requires i < |Leb(n)|
    ensures Leb(n)[i] == Shr7(n, i) % 128 + if i < |Leb(n)| - 1 then 128 else 0
    decreases n
  {
    if i == 0 {
    } else {
      LebByteAt(n / 128, i - 1);
    }
  }

  // ---------------------------------------------------------------------------------------
  // Primitive values
  // ---------------------------------------------------------------------------------------

  datatype Width = W1 | W2 | W4 | W8 | W16

  function WidthOf(w: Width): nat {
    match w
    case W1 => 1
    case W2 => 2
    case W4 => 4
    case W8 => 8
    case W16 => 16
  }

  datatype Leaf = LBool | LInt(signed: bool, width: Width) | LString

  function LeafKind(l: Leaf): ValueKind {
    match l
    case LBool => KBool
    case LInt(true, W1) => KI8
    case LInt(true, W2) => KI16
    case LInt(true, W4) => KI32
    case LInt(true, W8) => KI64
    case LInt(true, W16) => KI128
    case LInt(false, W1) => KU8
    case LInt(false, W2) => KU16
    case LInt(false, W4) => KU32
    case LInt(false, W8) => KU64
    case LInt(false, W16) => KU128
    case LString => KString
  }

  /** A `String` is held as its UTF-8 bytes. */
  datatype LeafValue = Bool(b: bool) | Int(n: int) | Str(utf8: Bytes)

  /** A kind code tells width and sign: from 0x02 on the signed integers and from 0x07 on the unsigned
      ones, each twice as wide as the one before; booleans below them and strings above. */
  lemma {:induction false} LeafCodes(signed: bool, w: Width)
    ensures var code := AsU8(LeafKind(LInt(signed, w)));
            (if signed then 0x02 <= code < 0x07 else 0x07 <= code < 0x0c) &&
            WidthOf(w) == Pow2(code - if signed then 0x02 else 0x07)
    ensures AsU8(LeafKind(LBool)) == 0x02 - 1 && AsU8(LeafKind(LString)) == 0x0b + 1
  {
    assert Pow2(0) == 1 && Pow2(1) == 2 && Pow2(2) == 4 && Pow2(3) == 8 && Pow2(4) == 16;
  }

  function Pow2(n: nat): nat {
    if n == 0 then 1 else 2 * Pow2(n - 1)
  }

  /** The codes of the containers follow one another from 0x20 on, apart from those of primitives,
      and no other byte is a kind. */
  lemma {:induction false} KindCodes(id: Byte)
    ensures [AsU8(KArray), AsU8(KTuple), AsU8(KEnum), AsU8(KMap)] == [0x20, 0x21, 0x22, 0x23]
    ensures FromU8(id).Some? <==> 0x01 <= id <= 0x0c || 0x20 <= id <= 0x23
    ensures FromU8(id).Some? ==> AsU8(FromU8(id).value) == id
  {
  }

  function Pow256(w: nat): (p: nat)
    ensures p > 0
  {
    if w == 0 then 1 else 256 * Pow256(w - 1)
  }

  predicate HasLeaf(v: LeafValue, l: Leaf) {
    match l
    case LBool => v.Bool?
    case LInt(false, w) => v.Int? && 0 <= v.n < Pow256(WidthOf(w))
    case LInt(true, w) => v.Int? && 0 <= 2 * v.n + Pow256(WidthOf(w)) && 2 * v.n < Pow256(WidthOf(w))
    case LString => v.Str? && Utf8.Valid(v.utf8)
  }

  /** `to_le_bytes` of an unsigned number. */
  function ToLe(n: nat, w: nat): (b: Bytes)
    ensures |b| == w
  {
    if w == 0 then [] else [n % 256] + ToLe(n / 256, w - 1)
  }

  function FromLe(b: Bytes): nat {
    if b == [] then 0 else b[0] + 256 * FromLe(b[1..])
  }

  lemma {:induction false} LeRoundTrip(n: nat, w: nat)
    requires n < Pow256(w)
    ensures FromLe(ToLe(n, w)) == n
  {
    if w == 0 {
    } else {
      assert ToLe(n, w)[1..] == ToLe(n / 256, w - 1);
      LeRoundTrip(n / 256, w - 1);
    }
  }

  lemma {:induction false} LeCanonical(b: Bytes)
    ensures FromLe(b) < Pow256(|b|) && ToLe(FromLe(b), |b|) == b
  {
    if b == [] {
    } else {
      LeCanonical(b[1..]);
      assert FromLe(b) / 256 == FromLe(b[1..]) && FromLe(b) % 256 == b[0];
      assert b == [b[0]] + b[1..];
    }
  }

  /** Two's complement. */
  function ToUnsigned(n: int, w: nat): int {
    if n < 0 then n + Pow256(w) else n
  }

  function FromUnsigned(n: nat, signed: bool, w: nat): int {
    if signed && 2 * n >= Pow256(w) then n - Pow256(w) else n
  }

  function LeafBytes(l: Leaf, v: LeafValue): Bytes
    requires HasLeaf(v, l)
  {
    match l
    case LBool => [if v.b then 1 else 0]
    case LInt(_, w) => ToLe(ToUnsigned(v.n, WidthOf(w)), WidthOf(w))
    case LString => Leb(|v.utf8|) + v.utf8
  }

  /** Only a string has a size, and it is limited. */
  predicate LeafSized(v: LeafValue) {
    v.Str? ==> |v.utf8| <= MAX_SIZE
  }

  function DecodeLeaf(l: Leaf, b: Bytes): Dec<LeafValue> {
    match l
    case LBool =>
      var (byte, rest) :- ReadByte(b);
      if byte == 0 then Ok(Bool(false), rest)
      else if byte == 1 then Ok(Bool(true), rest)
      else Err(InvalidBool(byte))
    case LInt(signed, w) =>
      var (bytes, rest) :- ReadSlice(b, WidthOf(w));
      Ok(Int(FromUnsigned(FromLe(bytes), signed, WidthOf(w))), rest)
    case LString =>
      var (n, rest) :- ReadSize(b);
      var (bytes, rest') :- ReadSlice(rest, n);
      if Utf8.Valid(bytes) then Ok(Str(bytes), rest') else Err(InvalidUtf8)
  }

  lemma {:induction false} LeafRoundTrip(l: Leaf, v: LeafValue, rest: Bytes)
    requires HasLeaf(v, l) && LeafSized(v)
    ensures DecodeLeaf(l, LeafBytes(l, v) + rest) == Ok(v, rest)
  {
    var b := LeafBytes(l, v);
    match l {
      case LBool =>
        assert (b + rest)[1..] == rest;
      case LInt(signed, w) =>
        var n := WidthOf(w);
        LeRoundTrip(ToUnsigned(v.n, n), n);
        assert (b + rest)[..n] == b && (b + rest)[n..] == rest;
      case LString =>
        assert b + rest == Leb(|v.utf8|) + (v.utf8 + rest);
        ReadSizeExact(b + rest, |v.utf8|, v.utf8 + rest);
        assert (v.utf8 + rest)[..|v.utf8|] == v.utf8 && (v.utf8 + rest)[|v.utf8|..] == rest;
    }
  }

  lemma {:induction false} LeafCanonical(l: Leaf, b: Bytes)
    requires DecodeLeaf(l, b).Ok?
    ensures var r := DecodeLeaf(l, b);
            HasLeaf(r.value, l) && LeafSized(r.value) && b == LeafBytes(l, r.value) + r.rest
  {
    match l {
      case LBool => assert b == [b[0]] + b[1..];
      case LInt(signed, w) => IntCanonical(signed, w, b);
      case LString => StringCanonical(b);
    }
  }

  lemma {:induction false} IntCanonical(signed: bool, w: Width, b: Bytes)
    requires DecodeLeaf(LInt(signed, w), b).Ok?
    ensures var l := LInt(signed, w);
            var r := DecodeLeaf(l, b);
            HasLeaf(r.value, l) && b == LeafBytes(l, r.value) + r.rest
  {
    var n := WidthOf(w);
    LeCanonical(b[..n]);
    UnsignedCanonical(FromLe(b[..n]), signed, n);
    assert b == b[..n] + b[n..];
  }

  lemma {:induction false} UnsignedCanonical(n: nat, signed: bool, w: nat)
    requires n < Pow256(w)
    ensures ToUnsigned(FromUnsigned(n, signed, w), w) == n
    ensures var i := FromUnsigned(n, signed, w);
            if signed then 0 <= 2 * i + Pow256(w) && 2 * i < Pow256(w) else 0 <= i < Pow256(w)
  {
  }

  lemma {:induction false} StringCanonical(b: Bytes)
    requires DecodeLeaf(LString, b).Ok?
    ensures var r := DecodeLeaf(LString, b);
            HasLeaf(r.value, LString) && LeafSized(r.value) && b == LeafBytes(LString, r.value) + r.rest
  {
    var r, size := DecodeLeaf(LString, b), ReadSize(b);
    ReadSizeExact(b, size.value, size.rest);
    assert size.rest == r.value.utf8 + r.rest;
    assert b == Leb(size.value) + (r.value.utf8 + r.rest);
  }

  /** `n >> (8 * i)`. */
  function Shr8(n: nat, i: nat): nat {
    if i == 0 then n else Shr8(n / 256, i - 1)
  }

  /** Byte `i` of a number is its `i`-th digit to the base 256, least significant first. */
  lemma {:induction false} LeByteAt(n: nat, w: nat, i: nat)
    requires i < w
    ensures ToLe(n, w)[i] == Shr8(n, i) % 256
  {
    if i == 0 {
    } else {
      LeByteAt(n / 256, w - 1, i - 1);
    }
  }

  /** Integers are written in two's complement: as themselves, or if negative as themselves and the
      number of values of their width. */
  lemma {:induction false} TwosComplement(signed: bool, w: Width, n: int)
    requires HasLeaf(Int(n), LInt(signed, w))
    ensures var bytes, p := LeafBytes(LInt(signed, w), Int(n)), Pow256(WidthOf(w));
            |bytes| == WidthOf(w) && FromLe(bytes) == if n < 0 then n + p else n
  {
    LeRoundTrip(ToUnsigned(n, WidthOf(w)), WidthOf(w));
  }

  /** `false` is the byte 0 and `true` the byte 1. */
  lemma {:induction false} BoolBytes(b: bool)
    ensures LeafBytes(LBool, Bool(b)) == ToLe(if b then 1 else 0, 1)
  {
    assert ToLe(0, 0) == [];
  }

  // ---------------------------------------------------------------------------------------
  // Writing
  // ---------------------------------------------------------------------------------------

  /** `UnreachableVariant` stands for the panic in the generated match arm. */
  datatype EncodeError = DepthExceeded(limit: nat) | SizeTooLarge(actual: nat, allowed: nat) | UnreachableVariant

  datatype Enc = Wrote(bytes: Bytes) | Failed(error: EncodeError)

  /** One write after another. */
  function Then(a: Enc, b: Enc): Enc {
    if a.Failed? then a else if b.Failed? then b else Wrote(a.bytes + b.bytes)
  }

  function WriteSize(n: nat): Enc {
    if n > MAX_SIZE then Failed(SizeTooLarge(n, MAX_SIZE)) else Wrote(Leb(n))
  }
}
