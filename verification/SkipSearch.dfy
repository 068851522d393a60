/** `skip_search`: a two-level compressed table of run boundaries, against a linear scan of the
    fully expanded table. A header packs, in 32 bits, the index of its first offset (upper 11 bits)
    and the position at which its run of offsets ends (lower 21 bits). */
module SkipSearch {
  import opened Bytes

  const HEADER_LIMIT: nat := 0x1_0000_0000
  const POSITION_LIMIT: nat := 0x20_0000

  function DecodeLength(header: nat): nat {
    header / POSITION_LIMIT
  }

  function DecodePrefixSum(header: nat): nat {
    header % POSITION_LIMIT
  }

  /** A header is the packing of the index of its first offset and of the position it ends at. */
  function Header(first: nat, position: nat): nat {
    first * 0x20_0000 + position
  }

  lemma {:induction false} HeaderUnpacks(first: nat, position: nat)
    requires position < 0x20_0000
    ensures DecodeLength(Header(first, position)) == first && DecodePrefixSum(Header(first, position)) == position
  {
  }

  lemma {:induction false} HeaderPacks(header: nat)
    requires header < 0x1_0000_0000
    ensures DecodeLength(header) < 0x800 && header == Header(DecodeLength(header), DecodePrefixSum(header))
  {
  }

  function Sum(offsets: seq<Byte>): nat {
    if offsets == [] then 0 else offsets[0] + Sum(offsets[1..])
  }

  datatype Table = Table(headers: seq<nat>, offsets: seq<Byte>)

  /** The first offset of run `j`; past the last run, the number of offsets. */
  function First(t: Table, j: nat): nat
    requires j <= |t.headers|
  {
    if j < |t.headers| then DecodeLength(t.headers[j]) else |t.offsets|
  }

  /** The position where run `j` starts: the end of the run before it. */
  function Base(t: Table, j: nat): nat
    requires j <= |t.headers|
  {
    if j == 0 then 0 else DecodePrefixSum(t.headers[j - 1])
  }

  predicate HasOffsets(t: Table, j: nat) {
    j < |t.headers| && First(t, j) < First(t, j + 1) <= |t.offsets|
  }

  /** The offsets of run `j` but the last, which is filler: the run ends where its header says. */
  function RunOffsets(t: Table, j: nat): seq<Byte>
    requires HasOffsets(t, j)
  {
    t.offsets[First(t, j)..First(t, j + 1) - 1]
  }

  /** Run `j` has offsets, they do not lead past its end, and its end is past the end of the run before. */
  predicate RunOk(t: Table, j: nat) {
    && HasOffsets(t, j)
    && t.headers[j] < HEADER_LIMIT
    && Base(t, j) + Sum(RunOffsets(t, j)) <= Base(t, j + 1)
    && (j > 0 ==> Base(t, j) < Base(t, j + 1))
  }

  ghost predicate WellFormed(t: Table) {
    t.headers != [] && First(t, 0) == 0 && forall j :: 0 <= j < |t.headers| ==> RunOk(t, j)
  }

  /** A run that ends at `position`, packed after the runs of a table. */
  function WithRun(t: Table, run: seq<Byte>, position: nat): Table {
    Table(t.headers + [Header(|t.offsets|, position)], t.offsets + run)
  }

  /** Any table packed run by run is well-formed: each run has offsets that do not lead past its end,
      and ends past the run before it. */
  lemma {:induction false} PackedIsWellFormed(t: Table, run: seq<Byte>, position: nat)
    requires t == Table([], []) || WellFormed(t)
    requires run != [] && |t.offsets| < 0x800 && position < POSITION_LIMIT
    requires Base(t, |t.headers|) + Sum(run[..|run| - 1]) <= position
    requires t.headers != [] ==> Base(t, |t.headers|) < position
    ensures WellFormed(WithRun(t, run, position)) && Base(WithRun(t, run, position), |t.headers| + 1) == position
  {
    var after, n := WithRun(t, run, position), |t.headers|;
    WithRunAt(t, run, position, n);
    LastRun(t, run, position);
    forall j | 0 <= j < |after.headers| ensures RunOk(after, j) {
      if j < n {
        assert RunOk(t, j);
        RunStays(t, run, position, j);
      }
    }
    if n > 0 {
      WithRunAt(t, run, position, 0);
    }
  }

  /** The runs before keep their place; the new one starts where the offsets ended. */
  lemma {:induction false} WithRunAt(t: Table, run: seq<Byte>, position: nat, j: nat)
    requires j <= |t.headers| && |t.offsets| < 0x800 && position < POSITION_LIMIT
    ensures First(WithRun(t, run, position), j) == First(t, j)
    ensures Base(WithRun(t, run, position), j) == Base(t, j)
  {
    var after := WithRun(t, run, position);
    if j == |t.headers| {
      assert after.headers[j] == Header(|t.offsets|, position);
      HeaderUnpacks(|t.offsets|, position);
    } else {
      assert after.headers[j] == t.headers[j];
    }
    assert j > 0 ==> after.headers[j - 1] == t.headers[j - 1];
  }

  lemma {:induction false} LastRun(t: Table, run: seq<Byte>, position: nat)
    requires run != [] && |t.offsets| < 0x800 && position < POSITION_LIMIT
    requires Base(t, |t.headers|) + Sum(run[..|run| - 1]) <= position
    requires t.headers != [] ==> Base(t, |t.headers|) < position
    ensures RunOk(WithRun(t, run, position), |t.headers|)
    ensures Base(WithRun(t, run, position), |t.headers| + 1) == position
  {
    var after, n := WithRun(t, run, position), |t.headers|;
    WithRunAt(t, run, position, n);
    assert after.headers[n] == Header(|t.offsets|, position);
    HeaderUnpacks(|t.offsets|, position);
    assert Base(after, n + 1) == position && First(after, n + 1) == |t.offsets| + |run|;
    SliceOfEnd(t.offsets, run);
    HeaderFits(|t.offsets|, position);
  }

  lemma {:induction false} HeaderFits(first: nat, position: nat)
    requires first < 0x800 && position < 0x20_0000
    ensures Header(first, position) < 0x1_0000_0000
  {
  }

  lemma {:induction false} SliceOfEnd(a: seq<Byte>, b: seq<Byte>)
    requires b != []
    ensures (a + b)[|a|..|a| + |b| - 1] == b[..|b| - 1]
  {
  }

  lemma {:induction false} RunStays(t: Table, run: seq<Byte>, position: nat, j: nat)
    requires RunOk(t, j) && |t.offsets| < 0x800 && position < POSITION_LIMIT
    ensures RunOk(WithRun(t, run, position), j)
  {
    WithRunAt(t, run, position, j);
    WithRunAt(t, run, position, j + 1);
    SliceOfFront(t.offsets, run, First(t, j), First(t, j + 1) - 1);
  }

  lemma {:induction false} SliceOfFront(a: seq<Byte>, b: seq<Byte>, i: nat, j: nat)
    requires i <= j <= |a|
    ensures (a + b)[i..j] == a[i..j]
  {
  }

  // ---------------------------------------------------------------------------------------
  // The expanded table
  // ---------------------------------------------------------------------------------------

  /** The positions reached from `base` by adding the offsets one after another. */
  function Positions(base: nat, offsets: seq<Byte>): seq<nat>
    decreases offsets
  {
    if offsets == [] then [] else [base + offsets[0]] + Positions(base + offsets[0], offsets[1..])
  }

  function RunBoundaries(t: Table, j: nat): seq<nat>
    requires HasOffsets(t, j)
  {
    Positions(Base(t, j), RunOffsets(t, j)) + [Base(t, j + 1)]
  }

  /** All run boundaries, from run `j` on. */
  ghost function Boundaries(t: Table, j: nat): seq<nat>
    requires WellFormed(t) && j <= |t.headers|
    decreases |t.headers| - j
  {
    if j == |t.headers| then []
    else
      assert RunOk(t, j);
      RunBoundaries(t, j) + Boundaries(t, j + 1)
  }

  /** How many boundaries lie at or below `n`. */
  function CountAtMost(s: seq<nat>, n: nat): nat {
    if s == [] then 0 else (if s[0] <= n then 1 else 0) + CountAtMost(s[1..], n)
  }

  lemma {:induction false} CountConcat(a: seq<nat>, b: seq<nat>, n: nat)
    ensures CountAtMost(a + b, n) == CountAtMost(a, n) + CountAtMost(b, n)
  {
    if a == [] {
      assert a + b == b;
    } else {
      assert (a + b)[1..] == a[1..] + b;
      CountConcat(a[1..], b, n);
    }
  }

  lemma {:induction false} CountAll(s: seq<nat>, n: nat)
    requires forall i :: 0 <= i < |s| ==> s[i] <= n
    ensures CountAtMost(s, n) == |s|
  {
    if s == [] {
    } else {
      CountAll(s[1..], n);
    }
  }

  lemma {:induction false} CountNone(s: seq<nat>, n: nat)
    requires forall i :: 0 <= i < |s| ==> s[i] > n
    ensures CountAtMost(s, n) == 0
  {
    if s == [] {
    } else {
      CountNone(s[1..], n);
    }
  }

  lemma {:induction false} PositionsWithin(base: nat, offsets: seq<Byte>)
    ensures |Positions(base, offsets)| == |offsets|
    ensures forall i :: 0 <= i < |offsets| ==> base <= Positions(base, offsets)[i] <= base + Sum(offsets)
    decreases offsets
  {
    if offsets == [] {
    } else {
      PositionsWithin(base + offsets[0], offsets[1..]);
    }
  }

  /** The boundaries of run `j` lie between where it starts and where it ends. */
  lemma {:induction false} RunWithin(t: Table, j: nat)
    requires RunOk(t, j)
    ensures |RunBoundaries(t, j)| == First(t, j + 1) - First(t, j)
    ensures forall i :: 0 <= i < |RunBoundaries(t, j)| ==> Base(t, j) <= RunBoundaries(t, j)[i] <= Base(t, j + 1)
  {
    PositionsWithin(Base(t, j), RunOffsets(t, j));
  }

  lemma {:induction false} BaseMonotone(t: Table, i: nat, j: nat)
    requires WellFormed(t) && i <= j <= |t.headers|
    ensures Base(t, i) <= Base(t, j)
    decreases j - i
  {
    if i == j {
    } else {
      BaseMonotone(t, i, j - 1);
      assert RunOk(t, j - 1);
      RunWithin(t, j - 1);
    }
  }

  /** From a later run on, every boundary is past the needle. */
  lemma {:induction false} LaterRuns(t: Table, j: nat, n: nat)
    requires WellFormed(t) && j <= |t.headers| && n < Base(t, j)
    ensures CountAtMost(Boundaries(t, j), n) == 0
    decreases |t.headers| - j
  {
    if j == |t.headers| {
    } else {
      assert RunOk(t, j);
      RunWithin(t, j);
      CountNone(RunBoundaries(t, j), n);
      LaterRuns(t, j + 1, n);
      CountConcat(RunBoundaries(t, j), Boundaries(t, j + 1), n);
    }
  }

  /** Before the needle's run, every boundary counts: one for each offset. */
  lemma {:induction false} EarlierRuns(t: Table, i: nat, j: nat, n: nat)
    requires WellFormed(t) && i <= j <= |t.headers| && Base(t, j) <= n
    ensures CountAtMost(Boundaries(t, i), n) == First(t, j) - First(t, i) + CountAtMost(Boundaries(t, j), n)
    decreases j - i
  {
    if i == j {
    } else {
      assert RunOk(t, i);
      RunWithin(t, i);
      BaseMonotone(t, i + 1, j);
      CountAll(RunBoundaries(t, i), n);
      EarlierRuns(t, i + 1, j, n);
      CountConcat(RunBoundaries(t, i), Boundaries(t, i + 1), n);
    }
  }

  /** The needle's run decides: all earlier offsets, and those of the run that stay at or below. */
  lemma {:induction false} CountInRun(t: Table, j: nat, n: nat)
    requires WellFormed(t) && RunOk(t, j) && Base(t, j) <= n < Base(t, j + 1)
    ensures CountAtMost(Boundaries(t, 0), n) ==
            First(t, j) + CountAtMost(Positions(Base(t, j), RunOffsets(t, j)), n)
  {
    EarlierRuns(t, 0, j, n);
    LaterRuns(t, j + 1, n);
    var ps := Positions(Base(t, j), RunOffsets(t, j));
    CountConcat(RunBoundaries(t, j), Boundaries(t, j + 1), n);
    CountConcat(ps, [Base(t, j + 1)], n);
    CountNone([Base(t, j + 1)], n);
  }

  /** One more offset counts and goes on, or is past the needle with all later ones. */
  lemma {:induction false} CountStep(base: nat, offsets: seq<Byte>, n: nat)
    requires offsets != []
    ensures var next := base + offsets[0];
            CountAtMost(Positions(base, offsets), n) ==
            if next <= n then 1 + CountAtMost(Positions(next, offsets[1..]), n) else 0
  {
    var next := base + offsets[0];
    assert Positions(base, offsets)[1..] == Positions(next, offsets[1..]);
    if next > n {
      PositionsWithin(next, offsets[1..]);
      CountNone(Positions(next, offsets[1..]), n);
    }
  }

  // ---------------------------------------------------------------------------------------
  // The search
  // ---------------------------------------------------------------------------------------

  /** `x << 11` on 32 bits drops exactly the length. */
  function Shl11(x: nat): nat {
    x * 0x800 % HEADER_LIMIT
  }

  lemma {:induction false} Shl11IsPrefixSum(x: nat)
    ensures Shl11(x) == DecodePrefixSum(x) * 0x800
  {
  }

  lemma {:induction false} HeadersAscend(t: Table, i: nat, j: nat)
    requires WellFormed(t) && i < j < |t.headers|
    ensures DecodePrefixSum(t.headers[i]) < DecodePrefixSum(t.headers[j])
    decreases j - i
  {
    assert RunOk(t, j);
    if j == i + 1 {
    } else {
      HeadersAscend(t, i, j - 1);
    }
  }

  /** `binary_search_by_key` on the shifted headers, `Ok(i)` and `Err(i)` folded into the number of
      headers whose prefix sum is at or below the needle. */
  method FindRun(t: Table, needle: nat) returns (j: nat)
    requires WellFormed(t) && needle < POSITION_LIMIT
    ensures j <= |t.headers|
    ensures forall i :: 0 <= i < j ==> DecodePrefixSum(t.headers[i]) <= needle
    ensures forall i :: j <= i < |t.headers| ==> DecodePrefixSum(t.headers[i]) > needle
  {
    var lo, hi := 0, |t.headers|;
    while lo < hi
      invariant 0 <= lo <= hi <= |t.headers|
      invariant forall i :: 0 <= i < lo ==> DecodePrefixSum(t.headers[i]) < needle
      invariant forall i :: hi <= i < |t.headers| ==> DecodePrefixSum(t.headers[i]) > needle
    {
      var mid := (lo + hi) / 2;
      Shl11IsPrefixSum(t.headers[mid]);
      Shl11IsPrefixSum(needle);
      forall i | 0 <= i < mid ensures DecodePrefixSum(t.headers[i]) < DecodePrefixSum(t.headers[mid]) {
        HeadersAscend(t, i, mid);
      }
      forall i | mid < i < |t.headers| ensures DecodePrefixSum(t.headers[mid]) < DecodePrefixSum(t.headers[i]) {
        HeadersAscend(t, mid, i);
      }
      if Shl11(t.headers[mid]) == Shl11(needle) {
        return mid + 1;
      } else if Shl11(t.headers[mid]) < Shl11(needle) {
        lo := mid + 1;
      } else {
        hi := mid;
      }
    }
    j := lo;
  }

  /** Adds up to `count` offsets from `first` on, and stops before the one that leads past the needle. */
  method ScanRun(offsets: seq<Byte>, first: nat, count: nat, prev: nat, needle: nat) returns (index: nat)
    requires first + count <= |offsets| && prev <= needle
    ensures index == first + CountAtMost(Positions(prev, offsets[first..first + count]), needle)
  {
    index := first;
    var total := needle - prev;
    var prefixSum := 0;
    ghost var run := offsets[first..first + count];
    var i := 0;
    while i < count
      invariant 0 <= i <= count && index == first + i && 0 <= prefixSum <= total
      invariant CountAtMost(Positions(prev, run), needle) ==
                i + CountAtMost(Positions(prev + prefixSum, run[i..]), needle)
    {
      CountStep(prev + prefixSum, run[i..], needle);
      assert run[i..][0] == offsets[index] && run[i..][1..] == run[i + 1..];
      prefixSum := prefixSum + offsets[index];
      if prefixSum > total {
        break;
      }
      index := index + 1;
      i := i + 1;
    }
  }

  /** True exactly if an odd number of boundaries of the expanded table lie at or below the needle. */
  method Search(t: Table, needle: nat) returns (r: bool)
    requires WellFormed(t) && needle < Base(t, |t.headers|)
    ensures r <==> CountAtMost(Boundaries(t, 0), needle) % 2 == 1
  {
    var j := FindRun(t, needle);
    assert DecodePrefixSum(t.headers[|t.headers| - 1]) > needle;
    assert RunOk(t, j) && Base(t, j) <= needle < Base(t, j + 1);
    CountInRun(t, j, needle);
    var first := DecodeLength(t.headers[j]);
    var length := if j + 1 < |t.headers| then DecodeLength(t.headers[j + 1]) - first else |t.offsets| - first;
    var prev := if j >= 1 then DecodePrefixSum(t.headers[j - 1]) else 0;
    var index := ScanRun(t.offsets, first, length - 1, prev, needle);
    r := index % 2 == 1;
  }
}
