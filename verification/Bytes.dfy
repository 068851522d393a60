/** Byte strings and the lexicographic order that `Vec<u8>` derives from `Ord`. */
module Bytes {

  type Byte = b: nat | b < 256

  type Bytes = seq<Byte>

  /** `Vec<u8>`'s `<`: a proper prefix comes before its extensions. */
  predicate Lt(a: Bytes, b: Bytes) {
    b != [] && (a == [] || a[0] < b[0] || (a[0] == b[0] && Lt(a[1..], b[1..])))
  }

  lemma {:induction false} LtIrreflexive(a: Bytes)
    ensures !Lt(a, a)
  {
    if a == [] {
    } else {
      LtIrreflexive(a[1..]);
    }
  }

  lemma {:induction false} LtTransitive(a: Bytes, b: Bytes, c: Bytes)
    requires Lt(a, b) && Lt(b, c)
    ensures Lt(a, c)
  {
    if a != [] && a[0] == b[0] == c[0] {
      LtTransitive(a[1..], b[1..], c[1..]);
    }
  }

  lemma {:induction false} LtTotal(a: Bytes, b: Bytes)
    ensures a == b || Lt(a, b) || Lt(b, a)
  {
    if a != [] && b != [] && a[0] == b[0] {
      LtTotal(a[1..], b[1..]);
      assert a == [a[0]] + a[1..] && b == [b[0]] + b[1..];
    }
  }

  /** A common prefix does not affect the order. */
  lemma {:induction false} LtCommonPrefix(p: Bytes, a: Bytes, b: Bytes)
    ensures Lt(p + a, p + b) == Lt(a, b)
  {
    if p == [] {
      assert p + a == a && p + b == b;
    } else {
      LtCommonPrefix(p[1..], a, b);
      assert (p + a)[1..] == p[1..] + a && (p + b)[1..] == p[1..] + b;
    }
  }

  /** Two strings of one length are ordered by their heads whatever follows them. */
  lemma {:induction false} LtSameLengthHeads(p: Bytes, q: Bytes, a: Bytes, b: Bytes)
    requires |p| == |q| && p != q
    ensures Lt(p + a, q + b) == Lt(p, q)
  {
    if p[0] == q[0] {
      assert p == [p[0]] + p[1..] && q == [q[0]] + q[1..];
      LtSameLengthHeads(p[1..], q[1..], a, b);
    }
    assert (p + a)[1..] == p[1..] + a && (q + b)[1..] == q[1..] + b;
  }

  /** `Lt` holds between two strings exactly if it holds between their equally long heads,
      or the heads agree and it holds between what follows. */
  lemma {:induction false} LtConcat(p: Bytes, q: Bytes, a: Bytes, b: Bytes)
    requires |p| == |q|
    ensures Lt(p + a, q + b) == (Lt(p, q) || (p == q && Lt(a, b)))
  {
    if p == q {
      LtCommonPrefix(p, a, b);
      LtIrreflexive(p);
    } else {
      LtSameLengthHeads(p, q, a, b);
    }
  }

  lemma {:induction false} Regroup(a: Bytes, b: Bytes, c: Bytes)
    ensures (a + b) + c == a + (b + c)
  {
  }
}
