/** `format_custom_escaped`: a byte scan that copies runs of printable ASCII, against the plain
    character-by-character escape of the string. */
module Escaping {
  import opened Bytes
  import opened Ordered
  import opened Utf8

  datatype Behaviour = Copy | Replace(text: Bytes) | UnicodeEscape

  /** A `CustomCharEscaper`: what to do with a character, how to write one in Unicode form,
      and what surrounds the string. */
  datatype Escaper = Escaper(
    resolve: Scalar -> Behaviour, unicode: Scalar -> Bytes, start: Bytes, end: Bytes)

  /** The test of the byte scan. */
  predicate CouldNeedEscaping(b: Byte) {
    b > 0x7E || b < 0x20 || b == 0x5C || b == 0x22
  }

  /** What the trait promises of one character: printable ASCII except the quote and the backslash
      is written as it stands and not offered to the escaper, anything else as the escaper says. */
  predicate EscapedAs(e: Escaper, c: Scalar, text: Bytes) {
    if 0x20 <= c <= 0x7E && c != '\"' as int && c != '\\' as int then text == EncodeChar(c)
    else
      && (e.resolve(c).Copy? ==> text == EncodeChar(c))
      && (e.resolve(c).Replace? ==> text == e.resolve(c).text)
      && (e.resolve(c).UnicodeEscape? ==> text == e.unicode(c))
  }

  /** One piece for each character, in order. */
  ghost predicate EscapesEach(e: Escaper, cs: seq<Scalar>, pieces: seq<Bytes>) {
    |pieces| == |cs| && forall i :: 0 <= i < |cs| ==> EscapedAs(e, cs[i], pieces[i])
  }

  function Joined(pieces: seq<Bytes>): Bytes {
    if pieces == [] then [] else pieces[0] + Joined(pieces[1..])
  }

  /** The escape of one character, as the scan decides it. */
  function EscapeChar(e: Escaper, c: Scalar): Bytes {
    if c < 0x80 && !CouldNeedEscaping(c) then [c]
    else
      match e.resolve(c)
      case Copy => EncodeChar(c)
      case Replace(text) => text
      case UnicodeEscape => e.unicode(c)
  }

  function EscapeStr(e: Escaper, cs: seq<Scalar>): Bytes {
    if cs == [] then [] else EscapeChar(e, cs[0]) + EscapeStr(e, cs[1..])
  }

  /** The scan decides as the trait promises. */
  lemma {:induction false} EscapeCharAsPromised(e: Escaper, c: Scalar)
    ensures EscapedAs(e, c, EscapeChar(e, c))
  {
  }

  /** The escape of a string is the promised pieces, one after another. */
  lemma {:induction false} EscapeStrAsPromised(e: Escaper, cs: seq<Scalar>) returns (pieces: seq<Bytes>)
    ensures EscapesEach(e, cs, pieces) && EscapeStr(e, cs) == Joined(pieces)
  {
    if cs == [] {
      pieces := [];
    } else {
      EscapeCharAsPromised(e, cs[0]);
      var rest := EscapeStrAsPromised(e, cs[1..]);
      pieces := [EscapeChar(e, cs[0])] + rest;
      assert pieces[1..] == rest;
    }
  }

  /** `iter().position(could_need_escaping)`. */
  function Position(b: Bytes): (p: Option<nat>)
    ensures p.Some? ==> p.value < |b|
  {
    if b == [] then None
    else if CouldNeedEscaping(b[0]) then Some(0)
    else match Position(b[1..]) case Some(p) => Some(p + 1) case None => None
  }

  lemma {:induction false} EncodeConcat(a: seq<Scalar>, b: seq<Scalar>)
    ensures EncodeStr(a + b) == EncodeStr(a) + EncodeStr(b)
  {
    if a == [] {
      assert a + b == b;
    } else {
      assert (a + b)[1..] == a[1..] + b;
      EncodeConcat(a[1..], b);
    }
  }

  lemma {:induction false} EscapeConcat(e: Escaper, a: seq<Scalar>, b: seq<Scalar>)
    ensures EscapeStr(e, a + b) == EscapeStr(e, a) + EscapeStr(e, b)
  {
    if a == [] {
      assert a + b == b;
    } else {
      assert (a + b)[1..] == a[1..] + b;
      EscapeConcat(e, a[1..], b);
    }
  }

  /** A byte offset that lies between two characters of the string. */
  ghost predicate Boundary(cs: seq<Scalar>, offset: nat) {
    exists k :: 0 <= k <= |cs| && offset == |EncodeStr(cs[..k])|
  }

  /** The first byte that could need escaping is the first byte of a character: before it there are
      only printable ASCII characters, one byte each, which escape to themselves. */
  lemma {:induction false} RunEndsOnBoundary(e: Escaper, cs: seq<Scalar>)
    ensures Position(EncodeStr(cs)).None? ==> EncodeStr(cs) == EscapeStr(e, cs)
    ensures Position(EncodeStr(cs)).Some? ==> RunOf(e, cs, Position(EncodeStr(cs)).value)
  {
    if cs == [] {
    } else {
      var b := EncodeStr(cs);
      assert b[0] == EncodeChar(cs[0])[0];
      if cs[0] < 0x80 && !CouldNeedEscaping(cs[0]) {
        assert b[1..] == EncodeStr(cs[1..]);
        RunEndsOnBoundary(e, cs[1..]);
        if Position(b[1..]).Some? {
          RunExtends(e, cs, Position(b[1..]).value);
        }
      } else {
        assert CouldNeedEscaping(b[0]);
        assert b[..0] == [] && b[0..] == b && cs[..0] == [] && cs[0..] == cs;
      }
    }
  }

  /** The first `n` characters take one byte each and escape to themselves; the next one may not. */
  ghost predicate RunOf(e: Escaper, cs: seq<Scalar>, n: nat) {
    && n < |cs| && n <= |EncodeStr(cs)|
    && EncodeStr(cs)[..n] == EncodeStr(cs[..n]) == EscapeStr(e, cs[..n])
    && EncodeStr(cs)[n..] == EncodeStr(cs[n..])
    && (cs[n] < 0x80 ==> CouldNeedEscaping(cs[n]))
  }

  lemma {:induction false} RunExtends(e: Escaper, cs: seq<Scalar>, m: nat)
    requires cs != [] && cs[0] < 0x80 && !CouldNeedEscaping(cs[0]) && RunOf(e, cs[1..], m)
    ensures RunOf(e, cs, m + 1)
  {
    var n, b := m + 1, EncodeStr(cs);
    assert cs[..n][0] == cs[0] && cs[..n][1..] == cs[1..][..m] && cs[n..] == cs[1..][m..];
    assert b[1..] == EncodeStr(cs[1..]);
    assert b[..n] == [cs[0]] + b[1..][..m] && b[n..] == b[1..][m..];
  }

  /** What has been written and the range still to be copied make up the escape of the
      characters done. */
  ghost predicate Pending(e: Escaper, input: Bytes, done: seq<Scalar>, out: Bytes, start: nat, end: nat) {
    start <= end <= |input| && end == |EncodeStr(done)| && out + input[start..end] == e.start + EscapeStr(e, done)
  }

  /** Between two characters: those in `done` are done, and `rest` holds those in `ahead`. */
  ghost predicate Scanning(
    e: Escaper, input: Bytes, done: seq<Scalar>, ahead: seq<Scalar>, rest: Bytes, out: Bytes, start: nat, end: nat)
  {
    Pending(e, input, done, out, start, end) && rest == EncodeStr(ahead) && input == EncodeStr(done) + rest
  }

  /** Characters that escape to themselves extend the pending range; nothing is written. */
  lemma {:induction false} CopyRun(
    e: Escaper, input: Bytes, done: seq<Scalar>, run: seq<Scalar>, ahead: seq<Scalar>,
    rest: Bytes, out: Bytes, start: nat, end: nat)
    requires Scanning(e, input, done, run + ahead, rest, out, start, end) && EncodeStr(run) == EscapeStr(e, run)
    ensures Scanning(e, input, done + run, ahead, EncodeStr(ahead), out, start, end + |EncodeStr(run)|)
  {
    EncodeConcat(done, run);
    EncodeConcat(run, ahead);
    EscapeConcat(e, done, run);
    ExtendRange(EncodeStr(done), EncodeStr(run), EncodeStr(ahead), start);
    Regroup(out, input[start..end], EncodeStr(run));
    Regroup(e.start, EscapeStr(e, done), EscapeStr(e, run));
  }

  lemma {:induction false} ExtendRange(front: Bytes, run: Bytes, back: Bytes, start: nat)
    requires start <= |front|
    ensures var all := front + (run + back);
            all == (front + run) + back && all[start..|front + run|] == all[start..|front|] + run
  {
  }

  lemma {:induction false} CopyChar(
    e: Escaper, input: Bytes, done: seq<Scalar>, c: Scalar, ahead: seq<Scalar>,
    rest: Bytes, out: Bytes, start: nat, end: nat)
    requires Scanning(e, input, done, [c] + ahead, rest, out, start, end) && EscapeChar(e, c) == EncodeChar(c)
    ensures Scanning(e, input, done + [c], ahead, EncodeStr(ahead), out, start, end + Width(c))
  {
    OneChar(e, c);
    CopyRun(e, input, done, [c], ahead, rest, out, start, end);
  }

  /** A character that is written otherwise flushes the pending range and starts a new one after it. */
  lemma {:induction false} WriteChar(
    e: Escaper, input: Bytes, done: seq<Scalar>, c: Scalar, ahead: seq<Scalar>,
    rest: Bytes, out: Bytes, start: nat, end: nat)
    requires Scanning(e, input, done, [c] + ahead, rest, out, start, end)
    ensures var out', end' := out + input[start..end] + EscapeChar(e, c), end + Width(c);
            Scanning(e, input, done + [c], ahead, EncodeStr(ahead), out', end', end')
  {
    OneChar(e, c);
    EncodeConcat(done, [c]);
    EncodeConcat([c], ahead);
    EscapeConcat(e, done, [c]);
    var end' := end + Width(c);
    assert input == EncodeStr(done) + EncodeStr([c]) + EncodeStr(ahead) by {
      Regroup(EncodeStr(done), EncodeStr([c]), EncodeStr(ahead));
    }
    Regroup(e.start, EscapeStr(e, done), EscapeChar(e, c));
    NothingPending(out + input[start..end] + EscapeChar(e, c), input, end');
  }

  lemma {:induction false} NothingPending(out: Bytes, input: Bytes, end: nat)
    requires end <= |input|
    ensures out + input[end..end] == out
  {
  }

  lemma {:induction false} OneChar(e: Escaper, c: Scalar)
    ensures EncodeStr([c]) == EncodeChar(c) && EscapeStr(e, [c]) == EscapeChar(e, c)
  {
  }

  lemma {:induction false} ScanBoundary(cs: seq<Scalar>, done: seq<Scalar>, ahead: seq<Scalar>)
    requires cs == done + ahead
    ensures Boundary(cs, |EncodeStr(done)|)
  {
    assert cs[..|done|] == done;
  }

  /** Writes the start, the escape of each character in order, and the end. Every slice it takes
      without a check starts and ends between two characters. */
  method FormatCustomEscaped(e: Escaper, input: Bytes) returns (out: Bytes)
    requires Valid(input)
    ensures out == e.start + EscapeStr(e, Chars(input)) + e.end
    ensures exists pieces :: EscapesEach(e, Chars(input), pieces) && out == e.start + Joined(pieces) + e.end
  {
    ghost var cs := Chars(input);
    EncodedChars(input);
    out := e.start;
    var start: nat, end: nat := 0, 0;
    var rest := input;
    ghost var done: seq<Scalar>, ahead := [], cs;
    ScanBoundary(cs, done, ahead);
    while |rest| > 0
      invariant Scanning(e, input, done, ahead, rest, out, start, end)
      invariant cs == done + ahead && Boundary(cs, start) && Boundary(cs, end)
      decreases |rest|
    {
      var found;
      found, end, rest, done, ahead := SkipRun(e, input, done, ahead, rest, out, start, end);
      ScanBoundary(cs, done, ahead);
      if !found {
        break;
      }
      out, start, end, rest, done, ahead := TakeChar(e, input, done, ahead, rest, out, start, end);
      ScanBoundary(cs, done, ahead);
    }
    EncodeEmpty(ahead);
    assert done == cs;
    out := out + input[start..end];
    out := out + e.end;
    ghost var pieces := EscapeStrAsPromised(e, cs);
  }

  lemma {:induction false} EncodeEmpty(cs: seq<Scalar>)
    ensures EncodeStr(cs) == [] ==> cs == []
  {
  }

  /** Skips the run of printable ASCII at the front of `rest`; not found means `rest` is all such. */
  method SkipRun(
    e: Escaper, input: Bytes, ghost done: seq<Scalar>, ghost ahead: seq<Scalar>,
    rest: Bytes, out: Bytes, start: nat, end: nat)
    returns (found: bool, end': nat, rest': Bytes, ghost done': seq<Scalar>, ghost ahead': seq<Scalar>)
    requires Scanning(e, input, done, ahead, rest, out, start, end)
    ensures Scanning(e, input, done', ahead', rest', out, start, end') && done' + ahead' == done + ahead
    ensures if found then ahead' != [] && (ahead'[0] < 0x80 ==> CouldNeedEscaping(ahead'[0])) else rest' == []
    ensures |rest'| <= |rest|
  {
    var run := Position(rest);
    if run.None? {
      SkipAll(e, input, done, ahead, rest, out, start, end);
      found, end', rest', done', ahead' := false, end + |rest|, [], done + ahead, [];
    } else {
      done', ahead' := SkipSome(e, input, done, ahead, rest, out, start, end, run.value);
      found, end', rest' := true, end + run.value, rest[run.value..];
    }
  }

  lemma {:induction false} SkipAll(
    e: Escaper, input: Bytes, done: seq<Scalar>, ahead: seq<Scalar>, rest: Bytes, out: Bytes, start: nat, end: nat)
    requires Scanning(e, input, done, ahead, rest, out, start, end) && Position(rest).None?
    ensures Scanning(e, input, done + ahead, [], [], out, start, end + |rest|)
    ensures (done + ahead) + [] == done + ahead
  {
    RunEndsOnBoundary(e, ahead);
    assert ahead + [] == ahead;
    CopyRun(e, input, done, ahead, [], rest, out, start, end);
  }

  lemma {:induction false} SkipSome(
    e: Escaper, input: Bytes, done: seq<Scalar>, ahead: seq<Scalar>,
    rest: Bytes, out: Bytes, start: nat, end: nat, n: nat)
    returns (done': seq<Scalar>, ahead': seq<Scalar>)
    requires Scanning(e, input, done, ahead, rest, out, start, end) && Position(rest) == Some(n)
    ensures Scanning(e, input, done', ahead', rest[n..], out, start, end + n) && done' + ahead' == done + ahead
    ensures ahead' != [] && (ahead'[0] < 0x80 ==> CouldNeedEscaping(ahead'[0]))
  {
    RunEndsOnBoundary(e, ahead);
    var run := ahead[..n];
    ahead' := ahead[n..];
    assert run + ahead' == ahead;
    done' := done + run;
    CopyRun(e, input, done, run, ahead', rest, out, start, end);
    Rejoin(done, run, ahead');
  }

  lemma {:induction false} Rejoin(a: seq<Scalar>, b: seq<Scalar>, c: seq<Scalar>)
    ensures (a + b) + c == a + (b + c)
  {
  }

  /** One character that could need escaping. */
  method TakeChar(
    e: Escaper, input: Bytes, ghost done: seq<Scalar>, ghost ahead: seq<Scalar>,
    rest: Bytes, out: Bytes, start: nat, end: nat)
    returns (out': Bytes, start': nat, end': nat, rest': Bytes, ghost done': seq<Scalar>, ghost ahead': seq<Scalar>)
    requires Scanning(e, input, done, ahead, rest, out, start, end)
    requires ahead != [] && (ahead[0] < 0x80 ==> CouldNeedEscaping(ahead[0]))
    ensures Scanning(e, input, done', ahead', rest', out', start', end') && done' + ahead' == done + ahead
    ensures (start' == start || start' == end') && |rest'| < |rest|
  {
    FirstChar(ahead);
    var c := DecodeFirst(rest).value;
    end', rest' := end + Width(c), rest[Width(c)..];
    done', ahead' := done + [c], ahead[1..];
    Rejoin(done, [c], ahead');
    match e.resolve(c) {
      case Copy =>
        CopyChar(e, input, done, c, ahead', rest, out, start, end);
        out', start' := out, start;
      case Replace(text) =>
        WriteChar(e, input, done, c, ahead', rest, out, start, end);
        out', start' := out + input[start..end] + text, end';
      case UnicodeEscape =>
        WriteChar(e, input, done, c, ahead', rest, out, start, end);
        out', start' := out + input[start..end] + e.unicode(c), end';
    }
  }

  /** The next character, decoded from the bytes ahead. */
  lemma {:induction false} FirstChar(ahead: seq<Scalar>)
    requires ahead != []
    ensures var rest, c := EncodeStr(ahead), ahead[0];
            && DecodeFirst(rest) == Some(c) && |rest| >= Width(c) && ahead == [c] + ahead[1..]
            && rest[Width(c)..] == EncodeStr(ahead[1..])
  {
    DecodeEncode(ahead[0], EncodeStr(ahead[1..]));
    DropFront(EncodeChar(ahead[0]), EncodeStr(ahead[1..]));
  }

  lemma {:induction false} DropFront(a: Bytes, b: Bytes)
    ensures (a + b)[|a|..] == b
  {
  }
}
