/** `VecDecoder` and `VecEncoder`: the mutable decoder and encoder that the derived code drives,
    with an offset or a buffer and a stack depth, against the codec functions. */
module SborMachine {
  import opened Bytes
  import opened Ordered
  import opened SborWire
  import opened SborDerive
  import SborRoundTrip

  datatype Res<+T> = Good(value: T) | Bad(error: DecodeError)

  /** The outcome of a step on the decoder, given what the codec function says. */
  predicate Agrees<T(==)>(spec: Dec<T>, r: Res<T>, rest: Bytes) {
    match spec
    case Ok(v, after) => r == Good(v) && rest == after
    case Err(e) => r == Bad(e)
  }

  /** A vector filled by `push`, followed by what is still to be decoded. */
  function Pushed(vs: seq<Value>, more: Values): Values {
    if vs == [] then more else VCons(vs[0], Pushed(vs[1..], more))
  }

  lemma {:induction false} PushedLast(vs: seq<Value>, v: Value, more: Values)
    ensures Pushed(vs + [v], more) == Pushed(vs, VCons(v, more))
  {
    if vs == [] {
      assert vs + [v] == [v];
    } else {
      assert (vs + [v])[1..] == vs[1..] + [v];
      PushedLast(vs[1..], v, more);
    }
  }

  /** `n << shift`, the shift being seven for each byte done. */
  function Shifted(n: nat, done: nat): nat {
    if done == 0 then n else if done == 1 then 0x80 * n else if done == 2 then 0x4000 * n else 0x20_0000 * n
  }

  /** The size so far, with what the reader still adds. Or-ing disjoint bits is adding them. */
  function Accumulated(size: nat, done: nat, more: Dec<nat>): Dec<nat> {
    if more.Ok? then Ok(size + Shifted(more.value, done), more.rest) else more
  }

  /** One more byte: the last one, a refused one, or seven more bits of the size. */
  lemma {:induction false} AccumulateStep(b: Bytes, done: nat, size: nat)
    requires b != [] && done <= 3
    ensures Accumulated(size, done, ReadSizeFrom(b, done)) ==
            if b[0] < 0x80 then
              if b[0] == 0 && done != 0 then Err(InvalidSize) else Ok(size + Shifted(b[0], done), b[1..])
            else if done == 3 then Err(InvalidSize)
            else Accumulated(size + Shifted(b[0] - 0x80, done), done + 1, ReadSizeFrom(b[1..], done + 1))
  {
  }

  /** Decoding and pushing one element leaves the same elements to be decoded after it. */
  lemma {:induction false} PushStep(e: Shape, kind: ValueKind, n: nat, b: Bytes, d: nat, max: nat, result: seq<Value>)
    requires n > 0
    ensures var head := DecodeDeeper(e, kind, b, d, max);
            PushedAll(result, DecodeItems(e, kind, n, b, d, max)) ==
            if head.Ok? then PushedAll(result + [head.value], DecodeItems(e, kind, n - 1, head.rest, d, max))
            else Err(head.error)
  {
    var head := DecodeDeeper(e, kind, b, d, max);
    if head.Ok? {
      var more := DecodeItems(e, kind, n - 1, head.rest, d, max);
      if more.Ok? {
        PushedLast(result, head.value, more.value);
      }
    }
  }

  function PushedAll(result: seq<Value>, more: Dec<Values>): Dec<Values> {
    if more.Ok? then Ok(Pushed(result, more.value), more.rest) else more
  }

  class VecDecoder {
    const input: Bytes
    const maxDepth: nat
    var offset: nat
    var stackDepth: nat

    constructor (input: Bytes, maxDepth: nat)
      ensures this.input == input && this.maxDepth == maxDepth && offset == 0 && stackDepth == 0
    {
      this.input := input;
      this.maxDepth := maxDepth;
      offset := 0;
      stackDepth := 0;
    }

    predicate Valid()
      reads this
    {
      offset <= |input|
    }

    function Rest(): Bytes
      requires Valid()
      reads this
    {
      input[offset..]
    }

    method ReadOneByte() returns (r: Res<Byte>)
      requires Valid()
      modifies this`offset
      ensures Valid() && offset >= old(offset)
      ensures Agrees(ReadByte(old(Rest())), r, Rest())
    {
      if |input| - offset < 1 {
        return Bad(BufferUnderflow(1, |input| - offset));
      }
      r := Good(input[offset]);
      offset := offset + 1;
    }

    method ReadBytes(n: nat) returns (r: Res<Bytes>)
      requires Valid()
      modifies this`offset
      ensures Valid() && offset >= old(offset)
      ensures Agrees(ReadSlice(old(Rest()), n), r, Rest())
    {
      if |input| - offset < n {
        return Bad(BufferUnderflow(n, |input| - offset));
      }
      assert Rest()[..n] == input[offset..offset + n];
      r := Good(input[offset..offset + n]);
      offset := offset + n;
    }

    method ReadKind() returns (r: Res<ValueKind>)
      requires Valid()
      modifies this`offset
      ensures Valid() && offset >= old(offset)
      ensures Agrees(ReadValueKind(old(Rest())), r, Rest())
    {
      var id := ReadOneByte();
      if id.Bad? { return Bad(id.error); }
      match FromU8(id.value) {
        case Some(k) => r := Good(k);
        case None => r := Bad(UnknownValueKind(id.value));
      }
    }

    /** Up to four bytes of seven bits, least significant first; a last zero byte is refused. */
    method ReadLength() returns (r: Res<nat>)
      requires Valid()
      modifies this`offset
      ensures Valid() && offset >= old(offset)
      ensures Agrees(ReadSize(old(Rest())), r, Rest())
    {
      var size: nat, done: nat := 0, 0;
      while true
        invariant Valid() && old(offset) <= offset && done <= 3
        invariant ReadSize(old(Rest())) == Accumulated(size, done, ReadSizeFrom(Rest(), done))
        decreases |input| - offset
      {
        ghost var before := Rest();
        var byte := ReadOneByte();
        if byte.Bad? { return Bad(byte.error); }
        AccumulateStep(before, done, size);
        if byte.value < 0x80 {
          size := size + Shifted(byte.value, done);
          if byte.value == 0 && done != 0 {
            return Bad(InvalidSize);
          }
          return Good(size);
        }
        if done >= 3 {
          return Bad(InvalidSize);
        }
        size := size + Shifted(byte.value - 0x80, done);
        done := done + 1;
      }
    }

    method CheckLength(expected: nat) returns (r: Res<nat>)
      requires Valid()
      modifies this`offset
      ensures Valid() && offset >= old(offset)
      ensures Agrees(ReadExpectedSize(old(Rest()), expected), r, Rest())
    {
      r := ReadLength();
      if r.Good? && r.value != expected {
        r := Bad(UnexpectedSize(expected, r.value));
      }
    }

    method DecodePrimitive(l: Leaf) returns (r: Res<LeafValue>)
      requires Valid()
      modifies this`offset
      ensures Valid() && offset >= old(offset)
      ensures Agrees(DecodeLeaf(l, old(Rest())), r, Rest())
    {
      match l {
        case LBool =>
          var byte := ReadOneByte();
          if byte.Bad? { return Bad(byte.error); }
          r := if byte.value == 0 then Good(Bool(false))
               else if byte.value == 1 then Good(Bool(true))
               else Bad(InvalidBool(byte.value));
        case LInt(signed, w) =>
          var bytes := ReadBytes(WidthOf(w));
          if bytes.Bad? { return Bad(bytes.error); }
          r := Good(Int(FromUnsigned(FromLe(bytes.value), signed, WidthOf(w))));
        case LString =>
          var n := ReadLength();
          if n.Bad? { return Bad(n.error); }
          var bytes := ReadBytes(n.value);
          if bytes.Bad? { return Bad(bytes.error); }
          r := if Utf8.Valid(bytes.value) then Good(Str(bytes.value)) else Bad(InvalidUtf8);
      }
    }

    /** `decode_body_with_value_kind` of a derived type. A success restores the stack depth. */
    method DecodeBodyOf(s: Shape, kind: ValueKind) returns (r: Res<Value>)
      requires Valid()
      modifies this`offset, this`stackDepth
      ensures Valid() && offset >= old(offset) && stackDepth >= old(stackDepth)
      ensures Agrees(DecodeBody(s, kind, old(Rest()), old(stackDepth), maxDepth), r, Rest())
      ensures r.Good? ==> stackDepth == old(stackDepth)
      decreases s, 0
    {
      match s {
        case Leaf(l) =>
          if kind != LeafKind(l) { return Bad(UnexpectedValueKind(AsU8(LeafKind(l)), AsU8(kind))); }
          var v := DecodePrimitive(l);
          r := if v.Good? then Good(VLeaf(v.value)) else Bad(v.error);
        case Struct(fs) =>
          if kind != KTuple { return Bad(UnexpectedValueKind(AsU8(KTuple), AsU8(kind))); }
          var n := CheckLength(Unskipped(fs));
          if n.Bad? { return Bad(n.error); }
          var vs := DecodeFieldsOf(fs);
          r := if vs.Good? then Good(VStruct(vs.value)) else Bad(vs.error);
        case Transparent(fs) =>
          var vs := DecodeUniqueOf(fs, kind);
          r := if vs.Good? then Good(VStruct(vs.value)) else Bad(vs.error);
        case Enum(xs) =>
          if kind != KEnum { return Bad(UnexpectedValueKind(AsU8(KEnum), AsU8(kind))); }
          var disc := ReadOneByte();
          if disc.Bad? { return Bad(disc.error); }
          r := DecodeVariantOf(xs, 0, disc.value);
        case Vec(e) =>
          if kind != KArray { return Bad(UnexpectedValueKind(AsU8(KArray), AsU8(kind))); }
          r := DecodeVecOf(e);
        case Array(e, n) =>
          if kind != KArray { return Bad(UnexpectedValueKind(AsU8(KArray), AsU8(kind))); }
          r := DecodeArrayOf(e, n);
      }
    }

    method DecodeDeeperOf(s: Shape, kind: ValueKind) returns (r: Res<Value>)
      requires Valid()
      modifies this`offset, this`stackDepth
      ensures Valid() && offset >= old(offset) && stackDepth >= old(stackDepth)
      ensures Agrees(DecodeDeeper(s, kind, old(Rest()), old(stackDepth), maxDepth), r, Rest())
      ensures r.Good? ==> stackDepth == old(stackDepth)
      decreases s, 1
    {
      stackDepth := stackDepth + 1;
      if stackDepth > maxDepth {
        return Bad(MaxDepthExceeded(maxDepth));
      }
      r := DecodeBodyOf(s, kind);
      if r.Good? {
        stackDepth := stackDepth - 1;
      }
    }

    method DecodeFieldsOf(fs: Fields) returns (r: Res<Values>)
      requires Valid()
      modifies this`offset, this`stackDepth
      ensures Valid() && offset >= old(offset) && stackDepth >= old(stackDepth)
      ensures Agrees(DecodeFields(fs, old(Rest()), old(stackDepth), maxDepth), r, Rest())
      ensures r.Good? ==> stackDepth == old(stackDepth)
      decreases fs
    {
      match fs {
        case FNil => r := Good(VNil);
        case FCons(f, t) =>
          var v := f.default;
          if !f.skipped {
            var kind := ReadKind();
            if kind.Bad? { return Bad(kind.error); }
            var decoded := DecodeDeeperOf(f.shape, kind.value);
            if decoded.Bad? { return Bad(decoded.error); }
            v := decoded.value;
          }
          var vs := DecodeFieldsOf(t);
          r := if vs.Good? then Good(VCons(v, vs.value)) else Bad(vs.error);
      }
    }

    method DecodeUniqueOf(fs: Fields, kind: ValueKind) returns (r: Res<Values>)
      requires Valid()
      modifies this`offset, this`stackDepth
      ensures Valid() && offset >= old(offset) && stackDepth >= old(stackDepth)
      ensures Agrees(DecodeUnique(fs, kind, old(Rest()), old(stackDepth), maxDepth), r, Rest())
      ensures r.Good? ==> stackDepth == old(stackDepth)
      decreases fs
    {
      match fs {
        case FNil => r := Good(VNil);
        case FCons(f, t) =>
          if f.skipped {
            var vs := DecodeUniqueOf(t, kind);
            r := if vs.Good? then Good(VCons(f.default, vs.value)) else Bad(vs.error);
          } else {
            var v := DecodeBodyOf(f.shape, kind);
            r := if v.Good? then Good(VCons(v.value, Defaults(t))) else Bad(v.error);
          }
      }
    }

    method DecodeVariantOf(xs: Variants, i: nat, disc: Byte) returns (r: Res<Value>)
      requires Valid()
      modifies this`offset, this`stackDepth
      ensures Valid() && offset >= old(offset) && stackDepth >= old(stackDepth)
      ensures Agrees(DecodeVariant(xs, i, disc, old(Rest()), old(stackDepth), maxDepth), r, Rest())
      ensures r.Good? ==> stackDepth == old(stackDepth)
      decreases xs
    {
      match xs {
        case XNil => r := Bad(UnknownDiscriminator(disc));
        case XCons(x, t) =>
          if x.handling.Unreachable? || x.discriminator != disc {
            r := DecodeVariantOf(t, i + 1, disc);
          } else {
            var vs: Res<Values>;
            if x.handling.Standard? {
              var n := CheckLength(Unskipped(x.fields));
              if n.Bad? { return Bad(n.error); }
              vs := DecodeFieldsOf(x.fields);
            } else {
              vs := DecodeUniqueOf(x.fields, KTuple);
            }
            r := if vs.Good? then Good(VEnum(i, vs.value)) else Bad(vs.error);
          }
      }
    }

    method DecodeVecOf(e: Shape) returns (r: Res<Value>)
      requires Valid()
      modifies this`offset, this`stackDepth
      ensures Valid() && offset >= old(offset) && stackDepth >= old(stackDepth)
      ensures Agrees(DecodeBody(Vec(e), KArray, old(Rest()), old(stackDepth), maxDepth), r, Rest())
      ensures r.Good? ==> stackDepth == old(stackDepth)
      decreases e, 3
    {
      var kind := ReadKind();
      if kind.Bad? { return Bad(kind.error); }
      if kind.value != KindOf(e) { return Bad(UnexpectedValueKind(AsU8(KindOf(e)), AsU8(kind.value))); }
      var n := ReadLength();
      if n.Bad? { return Bad(n.error); }
      if IsByteKind(KindOf(e)) {
        var bytes := ReadBytes(n.value);
        r := if bytes.Good? then Good(VVec(ByteValues(e, bytes.value))) else Bad(bytes.error);
      } else {
        var vs := DecodeItemsOf(e, kind.value, n.value);
        r := if vs.Good? then Good(VVec(vs.value)) else Bad(vs.error);
      }
    }

    /** `[T; N]`: always element by element. */
    method DecodeArrayOf(e: Shape, n: nat) returns (r: Res<Value>)
      requires Valid()
      modifies this`offset, this`stackDepth
      ensures Valid() && offset >= old(offset) && stackDepth >= old(stackDepth)
      ensures Agrees(DecodeBody(Array(e, n), KArray, old(Rest()), old(stackDepth), maxDepth), r, Rest())
      ensures r.Good? ==> stackDepth == old(stackDepth)
      decreases e, 3
    {
      var kind := ReadKind();
      if kind.Bad? { return Bad(kind.error); }
      if kind.value != KindOf(e) { return Bad(UnexpectedValueKind(AsU8(KindOf(e)), AsU8(kind.value))); }
      var size := CheckLength(n);
      if size.Bad? { return Bad(size.error); }
      var vs := DecodeItemsOf(e, kind.value, n);
      r := if vs.Good? then Good(VVec(vs.value)) else Bad(vs.error);
    }

    /** `for _ in 0..len { result.push(..) }`. */
    method DecodeItemsOf(e: Shape, kind: ValueKind, n: nat) returns (r: Res<Values>)
      requires Valid()
      modifies this`offset, this`stackDepth
      ensures Valid() && offset >= old(offset) && stackDepth >= old(stackDepth)
      ensures Agrees(DecodeItems(e, kind, n, old(Rest()), old(stackDepth), maxDepth), r, Rest())
      ensures r.Good? ==> stackDepth == old(stackDepth)
      decreases e, 2
    {
      var result: seq<Value> := [];
      for i := 0 to n
        invariant Valid() && offset >= old(offset) && stackDepth == old(stackDepth)
        invariant DecodeItems(e, kind, n, old(Rest()), stackDepth, maxDepth) ==
                  PushedAll(result, DecodeItems(e, kind, n - i, Rest(), stackDepth, maxDepth))
      {
        var pushed := PushItem(e, kind, n - i, result);
        if pushed.Bad? { return Bad(pushed.error); }
        result := pushed.value;
      }
      r := Good(Pushed(result, VNil));
    }

    /** `result.push(decoder.decode_deeper_body_with_value_kind(..)?)`, `n` elements being left. */
    method PushItem(e: Shape, kind: ValueKind, ghost n: nat, result: seq<Value>) returns (r: Res<seq<Value>>)
      requires Valid() && n > 0
      modifies this`offset, this`stackDepth
      ensures Valid() && offset >= old(offset) && stackDepth >= old(stackDepth)
      ensures r.Good? ==> stackDepth == old(stackDepth)
      ensures PushedAll(result, DecodeItems(e, kind, n, old(Rest()), old(stackDepth), maxDepth)) ==
              match r {
                case Good(pushed) => PushedAll(pushed, DecodeItems(e, kind, n - 1, Rest(), old(stackDepth), maxDepth))
                case Bad(error) => Err(error)
              }
      decreases e, 2, 0
    {
      PushStep(e, kind, n, Rest(), stackDepth, maxDepth, result);
      var v := DecodeDeeperOf(e, kind);
      r := if v.Good? then Good(result + [v.value]) else Bad(v.error);
    }

    /** `decode_payload`. On success the whole input is consumed and the depth is back at zero. */
    method DecodeWholePayload(prefix: Byte, s: Shape) returns (r: Res<Value>)
      requires offset == 0 && stackDepth == 0
      modifies this`offset, this`stackDepth
      ensures Valid()
      ensures Agrees(DecodePayload(prefix, s, input, maxDepth), r, Rest())
      ensures r.Good? ==> offset == |input| && stackDepth == 0
    {
      assert Rest() == input;
      var actual := ReadOneByte();
      if actual.Bad? { return Bad(actual.error); }
      if actual.value != prefix { return Bad(UnexpectedPayloadPrefix(prefix, actual.value)); }
      var kind := ReadKind();
      if kind.Bad? { return Bad(kind.error); }
      r := DecodeDeeperOf(s, kind.value);
      if r.Good? && offset != |input| {
        r := Bad(ExtraTrailingBytes(|input| - offset));
      }
    }
  }

  // ---------------------------------------------------------------------------------------
  // Encoder
  // ---------------------------------------------------------------------------------------

  /** The outcome of writing: the bytes appended, or the error. */
  predicate Appended(spec: Enc, error: Option<EncodeError>, before: Bytes, after: Bytes) {
    match spec
    case Wrote(bytes) => error == None && after == before + bytes
    case Failed(e) => error == Some(e)
  }

  /** One write after another appends both. */
  lemma {:induction false} ThenAppended(
    a: Enc, b: Enc, error: Option<EncodeError>, before: Bytes, mid: Bytes, after: Bytes)
    requires Appended(a, None, before, mid) && Appended(b, error, mid, after)
    ensures Appended(Then(a, b), error, before, after)
  {
  }

  /** The memory of a slice of one-byte elements. */
  function RawBytes(e: Shape, vs: Values): Bytes
    requires OneByte(e) && HasItems(vs, e)
  {
    match vs
    case VNil => []
    case VCons(v, t) => [SborRoundTrip.ByteIn(e, v)] + RawBytes(e, t)
  }

  lemma {:induction false} RawBytesAreItems(e: Shape, vs: Values, d: nat, max: nat)
    requires OneByte(e) && IsByteKind(KindOf(e)) && HasItems(vs, e)
    ensures EncodeItems(e, vs, d, max) == Wrote(RawBytes(e, vs))
    decreases vs
  {
    match vs {
      case VNil =>
      case VCons(v, t) =>
        SborRoundTrip.OneByteWrites(e, v, d, max);
        RawBytesAreItems(e, t, d, max);
    }
  }

  lemma {:induction false} ItemsStep(e: Shape, vs: Values, d: nat, max: nat, written: Bytes)
    requires HasItems(vs, e) && vs.VCons? && !IsByteKind(KindOf(e)) && EncodeDeeper(e, vs.head, d, max).Wrote?
    ensures Then(Wrote(written), EncodeItems(e, vs, d, max)) ==
            Then(Wrote(written + EncodeDeeper(e, vs.head, d, max).bytes), EncodeItems(e, vs.tail, d, max))
  {
    var head, tail := EncodeDeeper(e, vs.head, d, max), EncodeItems(e, vs.tail, d, max);
    assert EncodeItems(e, vs, d, max) == Then(head, tail);
    if tail.Wrote? {
      Regroup(written, head.bytes, tail.bytes);
    }
  }

  class VecEncoder {
    const maxDepth: nat
    var buf: Bytes
    var stackDepth: nat

    constructor (maxDepth: nat)
      ensures this.maxDepth == maxDepth && buf == [] && stackDepth == 0
    {
      this.maxDepth := maxDepth;
      buf := [];
      stackDepth := 0;
    }

    /** Seven bits at a time, least significant first. */
    method WriteLength(n: nat) returns (error: Option<EncodeError>)
      modifies this`buf
      ensures Appended(WriteSize(n), error, old(buf), buf)
    {
      if n > MAX_SIZE {
        return Some(SizeTooLarge(n, MAX_SIZE));
      }
      var size := n;
      while size >= 0x80
        invariant buf + Leb(size) == old(buf) + Leb(n)
      {
        assert buf + Leb(size) == (buf + [0x80 + size % 0x80]) + Leb(size / 0x80);
        buf := buf + [0x80 + size % 0x80];
        size := size / 0x80;
      }
      buf := buf + [size];
      error := None;
    }

    method EncodeBodyOf(s: Shape, v: Value) returns (error: Option<EncodeError>)
      requires Accepted(s) && HasShape(v, s)
      modifies this`buf, this`stackDepth
      ensures Appended(EncodeBody(s, v, old(stackDepth), maxDepth), error, old(buf), buf)
      ensures error.None? ==> stackDepth == old(stackDepth)
      decreases s, 0
    {
      match s {
        case Leaf(l) => error := EncodeLeafOf(l, v.leaf);
        case Struct(fs) =>
          error := WriteLength(Unskipped(fs));
          if error.None? { error := EncodeFieldsOf(fs, v.fields); }
        case Transparent(fs) => error := EncodeUniqueOf(fs, v.fields);
        case Enum(xs) => error := EncodeVariantOf(xs, v.variant, v.fields);
        case Vec(e) => error := EncodeSliceOf(e, v.items);
        case Array(e, _) => error := EncodeSliceOf(e, v.items);
      }
    }

    /** A slice, from a `Vec` or an array: the kind of its elements, their number, the elements. */
    method EncodeSliceOf(e: Shape, vs: Values) returns (error: Option<EncodeError>)
      requires Accepted(e) && HasItems(vs, e) && Castable(e)
      modifies this`buf, this`stackDepth
      ensures Appended(EncodeSlice(e, vs, old(stackDepth), maxDepth), error, old(buf), buf)
      ensures error.None? ==> stackDepth == old(stackDepth)
      decreases e, 4
    {
      ghost var before := buf;
      buf := buf + [AsU8(KindOf(e))];
      ghost var afterKind := buf;
      error := WriteLength(Length(vs));
      ghost var size, items := WriteSize(Length(vs)), EncodeItems(e, vs, stackDepth, maxDepth);
      if error.None? {
        ghost var afterSize := buf;
        error := EncodeItemsOf(e, vs);
        ThenAppended(size, items, error, afterKind, afterSize, buf);
      }
      ThenAppended(Wrote([AsU8(KindOf(e))]), Then(size, items), error, before, afterKind, buf);
    }

    /** A primitive value: its fixed bytes, or its size and its UTF-8 bytes. */
    method EncodeLeafOf(l: Leaf, v: LeafValue) returns (error: Option<EncodeError>)
      requires HasLeaf(v, l)
      modifies this`buf
      ensures Appended(if LeafSized(v) then Wrote(LeafBytes(l, v)) else WriteSize(|v.utf8|), error, old(buf), buf)
    {
      if v.Str? {
        error := WriteLength(|v.utf8|);
        if error.None? { buf := buf + v.utf8; }
      } else {
        buf := buf + LeafBytes(l, v);
        error := None;
      }
    }

    method EncodeDeeperOf(s: Shape, v: Value) returns (error: Option<EncodeError>)
      requires Accepted(s) && HasShape(v, s)
      modifies this`buf, this`stackDepth
      ensures Appended(EncodeDeeper(s, v, old(stackDepth), maxDepth), error, old(buf), buf)
      ensures error.None? ==> stackDepth == old(stackDepth)
      decreases s, 1
    {
      stackDepth := stackDepth + 1;
      if stackDepth > maxDepth {
        return Some(DepthExceeded(maxDepth));
      }
      error := EncodeBodyOf(s, v);
      if error.None? {
        stackDepth := stackDepth - 1;
      }
    }

    method EncodeFieldsOf(fs: Fields, vs: Values) returns (error: Option<EncodeError>)
      requires AcceptedFields(fs) && HasFields(vs, fs)
      modifies this`buf, this`stackDepth
      ensures Appended(EncodeFields(fs, vs, old(stackDepth), maxDepth), error, old(buf), buf)
      ensures error.None? ==> stackDepth == old(stackDepth)
      decreases fs
    {
      match fs {
        case FNil => error := None;
        case FCons(f, t) =>
          if !f.skipped {
            buf := buf + [AsU8(KindOf(f.shape))];
            error := EncodeDeeperOf(f.shape, vs.head);
            if error.Some? { return; }
          }
          error := EncodeFieldsOf(t, vs.tail);
      }
    }

    method EncodeUniqueOf(fs: Fields, vs: Values) returns (error: Option<EncodeError>)
      requires AcceptedFields(fs) && HasFields(vs, fs)
      modifies this`buf, this`stackDepth
      ensures Appended(EncodeUnique(fs, vs, old(stackDepth), maxDepth), error, old(buf), buf)
      ensures error.None? ==> stackDepth == old(stackDepth)
      decreases fs
    {
      match fs {
        case FNil => error := None;
        case FCons(f, t) =>
          if f.skipped {
            error := EncodeUniqueOf(t, vs.tail);
          } else {
            error := EncodeBodyOf(f.shape, vs.head);
          }
      }
    }

    method EncodeVariantOf(xs: Variants, i: nat, vs: Values) returns (error: Option<EncodeError>)
      requires AcceptedVariants(xs) && HasVariant(vs, xs, i)
      modifies this`buf, this`stackDepth
      ensures Appended(EncodeVariant(xs, i, vs, old(stackDepth), maxDepth), error, old(buf), buf)
      ensures error.None? ==> stackDepth == old(stackDepth)
      decreases xs
    {
      if i > 0 {
        error := EncodeVariantOf(xs.tail, i - 1, vs);
        return;
      }
      var x := xs.head;
      match x.handling {
        case Standard =>
          buf := buf + [x.discriminator];
          error := WriteLength(Unskipped(x.fields));
          if error.None? { error := EncodeFieldsOf(x.fields, vs); }
        case Flatten =>
          buf := buf + [x.discriminator];
          error := EncodeUniqueOf(x.fields, vs);
        case Unreachable => error := Some(UnreachableVariant);
      }
    }

    method EncodeItemsOf(e: Shape, vs: Values) returns (error: Option<EncodeError>)
      requires Accepted(e) && HasItems(vs, e) && Castable(e)
      modifies this`buf, this`stackDepth
      ensures Appended(EncodeItems(e, vs, old(stackDepth), maxDepth), error, old(buf), buf)
      ensures error.None? ==> stackDepth == old(stackDepth)
      decreases e, 3
    {
      if IsByteKind(KindOf(e)) {
        RawBytesAreItems(e, vs, stackDepth, maxDepth);
        buf := buf + RawBytes(e, vs);
        error := None;
      } else {
        error := EncodeEachOf(e, vs);
      }
    }

    /** `for v in self { encoder.encode_deeper_body(v)? }`. */
    method EncodeEachOf(e: Shape, vs: Values) returns (error: Option<EncodeError>)
      requires Accepted(e) && HasItems(vs, e) && !IsByteKind(KindOf(e))
      modifies this`buf, this`stackDepth
      ensures Appended(EncodeItems(e, vs, old(stackDepth), maxDepth), error, old(buf), buf)
      ensures error.None? ==> stackDepth == old(stackDepth)
      decreases e, 2
    {
      var left := vs;
      ghost var written: Bytes := [];
      while left.VCons?
        invariant HasItems(left, e) && stackDepth == old(stackDepth) && buf == old(buf) + written
        invariant EncodeItems(e, vs, stackDepth, maxDepth) ==
                  Then(Wrote(written), EncodeItems(e, left, stackDepth, maxDepth))
        decreases left
      {
        error, written := EncodeNextOf(e, left, written);
        if error.Some? { return; }
        left := left.tail;
      }
      error := None;
    }

    /** `encoder.encode_deeper_body(v)?` for the first of the elements left. */
    method EncodeNextOf(e: Shape, left: Values, ghost written: Bytes)
      returns (error: Option<EncodeError>, ghost written': Bytes)
      requires Accepted(e) && HasItems(left, e) && !IsByteKind(KindOf(e)) && left.VCons?
      modifies this`buf, this`stackDepth
      ensures match error {
                case Some(f) => Then(Wrote(written), EncodeItems(e, left, old(stackDepth), maxDepth)) == Failed(f)
                case None =>
                  && stackDepth == old(stackDepth) && |old(buf)| <= |buf| && buf == old(buf) + buf[|old(buf)|..]
                  && written' == written + buf[|old(buf)|..]
                  && Then(Wrote(written), EncodeItems(e, left, stackDepth, maxDepth)) ==
                     Then(Wrote(written'), EncodeItems(e, left.tail, stackDepth, maxDepth))
              }
      decreases e, 2, 0
    {
      ghost var d := stackDepth;
      ghost var head := EncodeDeeper(e, left.head, d, maxDepth);
      error := EncodeDeeperOf(e, left.head);
      written' := written;
      if error.None? {
        ItemsStep(e, left, d, maxDepth, written);
        written' := written + head.bytes;
      }
    }
  }
}
