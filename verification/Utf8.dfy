/** UTF-8 as section 3 of RFC 3629 defines it: Rust's `str` and `char`. */
module Utf8 {
  import opened Bytes
  import opened Ordered

  /** A Unicode scalar value, Rust's `char`. */
  type Scalar = c: nat | c < 0x11_0000 && !(0xD800 <= c < 0xE000) witness 0

  /** `len_utf8`. */
  function Width(c: Scalar): nat {
    if c < 0x80 then 1 else if c < 0x800 then 2 else if c < 0x1_0000 then 3 else 4
  }

  function EncodeChar(c: Scalar): (b: Bytes)
    ensures |b| == Width(c)
  {
    if c < 0x80 then [c]
    else if c < 0x800 then [0xC0 + c / 0x40, 0x80 + c % 0x40]
    else if c < 0x1_0000 then [0xE0 + c / 0x40 / 0x40, 0x80 + c / 0x40 % 0x40, 0x80 + c % 0x40]
    else [0xF0 + c / 0x40 / 0x40 / 0x40, 0x80 + c / 0x40 / 0x40 % 0x40, 0x80 + c / 0x40 % 0x40, 0x80 + c % 0x40]
  }

  function EncodeStr(cs: seq<Scalar>): Bytes {
    if cs == [] then [] else EncodeChar(cs[0]) + EncodeStr(cs[1..])
  }

  predicate Continuation(b: Byte) {
    0x80 <= b < 0xC0
  }

  /** Six more bits from a continuation byte. */
  function Append6(n: nat, b: Byte): (r: nat)
    requires Continuation(b)
    ensures r / 0x40 == n && r % 0x40 == b - 0x80
  {
    n * 0x40 + (b - 0x80)
  }

  /** The first character, or `None` for a malformed, overlong, surrogate or too large sequence. */
  function DecodeFirst(b: Bytes): Option<Scalar> {
    if b == [] then None
    else if b[0] < 0x80 then Some(b[0])
    else if 0xC0 <= b[0] < 0xE0 && |b| >= 2 && Continuation(b[1]) then
      Checked(Append6(b[0] - 0xC0, b[1]), 0x80)
    else if 0xE0 <= b[0] < 0xF0 && |b| >= 3 && Continuation(b[1]) && Continuation(b[2]) then
      Checked(Append6(Append6(b[0] - 0xE0, b[1]), b[2]), 0x800)
    else if 0xF0 <= b[0] < 0xF8 && |b| >= 4 && Continuation(b[1]) && Continuation(b[2]) && Continuation(b[3]) then
      Checked(Append6(Append6(Append6(b[0] - 0xF0, b[1]), b[2]), b[3]), 0x1_0000)
    else None
  }

  /** The shortest form of a scalar value is the only one accepted. */
  function Checked(c: nat, least: nat): Option<Scalar> {
    if least <= c < 0x11_0000 && !(0xD800 <= c < 0xE000) then Some(c) else None
  }

  /** Decoding the encoding of a character followed by anything gives the character. */
  lemma {:induction false} DecodeEncode(c: Scalar, rest: Bytes)
    ensures DecodeFirst(EncodeChar(c) + rest) == Some(c)
  {
  }

  /** A string that decodes starts with the encoding of what it decodes to. */
  lemma {:induction false} EncodeDecode(b: Bytes)
    requires DecodeFirst(b).Some?
    ensures EncodeChar(DecodeFirst(b).value) <= b
  {
  }

  /** `str::from_utf8` accepts. */
  predicate Valid(b: Bytes)
    decreases |b|
  {
    b == [] ||
    (DecodeFirst(b).Some? && Width(DecodeFirst(b).value) <= |b| && Valid(b[Width(DecodeFirst(b).value)..]))
  }

  /** The characters of a valid string: Rust's `chars()`. */
  function Chars(b: Bytes): seq<Scalar>
    requires Valid(b)
    decreases |b|
  {
    if b == [] then []
    else
      var c := DecodeFirst(b).value;
      [c] + Chars(b[Width(c)..])
  }

  /** Every encoded string is valid and has the characters that were encoded. */
  lemma {:induction false} CharsOfEncoded(cs: seq<Scalar>)
    ensures Valid(EncodeStr(cs)) && Chars(EncodeStr(cs)) == cs
  {
    if cs == [] {
    } else {
      DecodeEncode(cs[0], EncodeStr(cs[1..]));
      assert EncodeStr(cs)[Width(cs[0])..] == EncodeStr(cs[1..]);
      CharsOfEncoded(cs[1..]);
    }
  }

  lemma {:induction false} SplitAt(b: Bytes, front: Bytes)
    requires front <= b
    ensures b == front + b[|front|..]
  {
  }

  /** Every valid byte string is the encoding of its characters. */
  lemma {:induction false} EncodedChars(b: Bytes)
    requires Valid(b)
    ensures EncodeStr(Chars(b)) == b
    decreases |b|
  {
    if b == [] {
    } else {
      var c := DecodeFirst(b).value;
      EncodeDecode(b);
      EncodedChars(b[Width(c)..]);
      assert Chars(b)[1..] == Chars(b[Width(c)..]);
      SplitAt(b, EncodeChar(c));
    }
  }

  /** The first byte tells how many follow, the others are continuation bytes. */
  lemma {:induction false} EncodedBytes(c: Scalar)
    ensures var b := EncodeChar(c);
            && (match |b|
                case 1 => b[0] < 0x80
                case 2 => 0xC2 <= b[0] < 0xE0
                case 3 => 0xE0 <= b[0] < 0xF0
                case _ => 0xF0 <= b[0] <= 0xF4)
            && forall i :: 0 < i < |b| ==> 0x80 <= b[i] < 0xC0
  {
  }

  /** The number whose digits are the first byte and then six bits of each continuation byte. */
  function Digits(b: Bytes): int
    requires b != []
  {
    var last := b[|b| - 1] as int;
    if |b| == 1 then last else Digits(b[..|b| - 1]) * 0x40 + (last - 0x80)
  }

  lemma {:induction false} DigitsAppend(b: Bytes, last: Byte)
    requires b != []
    ensures Digits(b + [last]) == Digits(b) * 0x40 + (last as int - 0x80)
  {
    assert (b + [last])[..|b|] == b;
  }

  /** A character is written with its six-bit digits, most significant first, on the mark of its width. */
  lemma {:induction false} EncodedDigits(c: Scalar)
    ensures Digits(EncodeChar(c)) == c + match Width(c) {
                                           case 1 => 0
                                           case 2 => 0xC0 * 0x40
                                           case 3 => 0xE0 * 0x40 * 0x40
                                           case _ => 0xF0 * 0x40 * 0x40 * 0x40
                                         }
  {
    var b := EncodeChar(c);
    if Width(c) == 1 {
    } else if Width(c) == 2 {
      DigitsAppend([b[0]], b[1]);
      assert b == [b[0]] + [b[1]];
    } else if Width(c) == 3 {
      DigitsAppend([b[0]], b[1]);
      DigitsAppend([b[0]] + [b[1]], b[2]);
      assert b == [b[0]] + [b[1]] + [b[2]];
    } else {
      DigitsAppend([b[0]], b[1]);
      DigitsAppend([b[0]] + [b[1]], b[2]);
      DigitsAppend([b[0]] + [b[1]] + [b[2]], b[3]);
      assert b == [b[0]] + [b[1]] + [b[2]] + [b[3]];
    }
  }
}
