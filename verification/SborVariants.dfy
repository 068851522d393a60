/** `process_enum_variants`: how the derive macros read the variants of an enum. */
module SborVariants {
  import opened Bytes
  import opened Ordered
  import opened SborDerive

  /** `#[sbor(discriminator(..))]`: absent, without a value, with a `u8` literal, a path or an
      expression of that value, or with something that is none of these. */
  datatype Attribute = Absent | Empty | Explicit(value: Byte) | Unparsable

  /** A discriminant `= ..` of the Rust enum, which counts only under `use_repr_discriminators`: a
      `u8` literal, a path to a constant of that value, or an expression that is neither. */
  datatype Discriminant = NoDiscriminant | Literal(byte: Byte) | Path(byte: Byte) | OtherExpression

  datatype SourceField = SourceField(field: Field, flattened: bool)

  datatype SourceVariant = SourceVariant(
    unreachable: bool, attribute: Attribute, discriminant: Discriminant, fields: seq<SourceField>)

  datatype DeriveError =
    | TooManyVariants
    | NoDiscriminatorProvided
    | DiscriminatorNotConvertible
    | DiscriminantNotConvertible
    | FlattenedFieldNotUnique
    | MixedDiscriminators

  datatype Derived<+T> = Fine(value: T) | Refused(error: DeriveError)

  function FieldsOf(fs: seq<SourceField>): Fields {
    if fs == [] then FNil else FCons(fs[0].field, FieldsOf(fs[1..]))
  }

  /** Some unskipped field asks to be flattened. */
  predicate AnyFlattened(fs: seq<SourceField>) {
    exists i :: 0 <= i < |fs| && !fs[i].field.skipped && fs[i].flattened
  }

  datatype Resolved = Resolved(value: Byte, implicit: bool)

  function ResolveDiscriminator(useRepr: bool, i: nat, v: SourceVariant): Derived<Resolved> {
    match v.attribute
    case Empty => Refused(NoDiscriminatorProvided)
    case Explicit(b) => Fine(Resolved(b, false))
    case Unparsable => Refused(DiscriminatorNotConvertible)
    case Absent =>
      if useRepr && (v.discriminant.Literal? || v.discriminant.Path?) then Fine(Resolved(v.discriminant.byte, false))
      else if useRepr && v.discriminant.OtherExpression? then Refused(DiscriminantNotConvertible)
      else if i < 256 then Fine(Resolved(i, true))
      else Refused(TooManyVariants)
  }

  datatype Processed = Processed(variant: Variant, implicit: Option<bool>)

  /** One variant: unreachable ones get no discriminator, the others their handling and theirs. */
  function ProcessVariant(useRepr: bool, i: nat, v: SourceVariant): Derived<Processed> {
    if v.unreachable then Fine(Processed(Variant(Unreachable, 0, FieldsOf(v.fields)), None))
    else if AnyFlattened(v.fields) && Unskipped(FieldsOf(v.fields)) != 1 then Refused(FlattenedFieldNotUnique)
    else
      match ResolveDiscriminator(useRepr, i, v)
      case Refused(e) => Refused(e)
      case Fine(d) =>
        var handling := if AnyFlattened(v.fields) then Flatten else Standard;
        Fine(Processed(Variant(handling, d.value, FieldsOf(v.fields)), Some(d.implicit)))
  }

  /** Some reachable variant among the first `n` has an implicit (or an explicit) discriminator. */
  predicate Uses(useRepr: bool, vs: seq<SourceVariant>, n: nat, implicit: bool)
    requires n <= |vs|
  {
    exists i :: 0 <= i < n && ProcessVariant(useRepr, i, vs[i]).Fine?
                && ProcessVariant(useRepr, i, vs[i]).value.implicit == Some(implicit)
  }

  function FieldList(fs: Fields): seq<Field> {
    match fs
    case FNil => []
    case FCons(f, t) => [f] + FieldList(t)
  }

  /** An explicit discriminator: from the attribute, or from the Rust discriminant where that counts. */
  predicate IsExplicit(useRepr: bool, v: SourceVariant) {
    v.attribute.Explicit? || (v.attribute.Absent? && useRepr && (v.discriminant.Literal? || v.discriminant.Path?))
  }

  /** Nothing in the variant by itself is refused. */
  predicate InOrder(useRepr: bool, v: SourceVariant) {
    !v.unreachable ==>
      && !v.attribute.Empty? && !v.attribute.Unparsable?
      && !(v.attribute.Absent? && useRepr && v.discriminant.OtherExpression?)
      && forall j :: 0 <= j < |v.fields| && Flagged(v, j) ==> OnlyUnskipped(v, j)
  }

  /** The field is encoded and asks to be flattened. */
  predicate Flagged(v: SourceVariant, j: nat)
    requires j < |v.fields|
  {
    v.fields[j].flattened && !v.fields[j].field.skipped
  }

  predicate OnlyUnskipped(v: SourceVariant, j: nat) {
    forall k :: 0 <= k < |v.fields| && k != j ==> v.fields[k].field.skipped
  }

  /** What is derived of a variant at position `i`, in terms of the variant alone. */
  predicate Reads(useRepr: bool, i: nat, v: SourceVariant, x: Variant) {
    && |FieldList(x.fields)| == |v.fields|
    && (forall k :: 0 <= k < |v.fields| ==> FieldList(x.fields)[k] == v.fields[k].field)
    && (x.handling.Unreachable? <==> v.unreachable)
    && (!v.unreachable ==>
          && (x.handling.Flatten? <==> exists j :: 0 <= j < |v.fields| && Flagged(v, j))
          && (v.attribute.Explicit? ==> x.discriminator == v.attribute.value)
          && (v.attribute.Absent? && useRepr && v.discriminant.Literal? ==> x.discriminator == v.discriminant.byte)
          && (v.attribute.Absent? && useRepr && v.discriminant.Path? ==> x.discriminator == v.discriminant.byte)
          && (!IsExplicit(useRepr, v) ==> x.discriminator == i))
  }

  /** What is wrong with a variant: a flattened field that is not alone comes first. */
  predicate Blames(useRepr: bool, v: SourceVariant, error: DeriveError) {
    if exists j :: 0 <= j < |v.fields| && Flagged(v, j) && !OnlyUnskipped(v, j) then error == FlattenedFieldNotUnique
    else if v.attribute.Empty? then error == NoDiscriminatorProvided
    else if v.attribute.Unparsable? then error == DiscriminatorNotConvertible
    else error == DiscriminantNotConvertible
  }

  /** The first variant that is not in order. */
  predicate FirstBad(useRepr: bool, vs: seq<SourceVariant>, i: nat)
    requires i < |vs|
  {
    !InOrder(useRepr, vs[i]) && forall j :: 0 <= j < i ==> InOrder(useRepr, vs[j])
  }

  /** Accepted exactly if there are at most 255 variants, each is in order by itself, and explicit and
      implicit discriminators are not mixed. Each result is read from the variant at its position. */
  method ProcessEnumVariants(useRepr: bool, vs: seq<SourceVariant>) returns (r: Derived<seq<Variant>>)
    ensures r.Fine? <==>
            && |vs| <= 255
            && (forall i :: 0 <= i < |vs| ==> InOrder(useRepr, vs[i]))
            && !exists i, j :: 0 <= i < |vs| && 0 <= j < |vs| && !vs[i].unreachable && !vs[j].unreachable
                               && IsExplicit(useRepr, vs[i]) && !IsExplicit(useRepr, vs[j])
    ensures r.Fine? ==> |r.value| == |vs| && forall i :: 0 <= i < |vs| ==> Reads(useRepr, i, vs[i], r.value[i])
    ensures |vs| > 255 ==> r == Refused(TooManyVariants)
    ensures |vs| <= 255 ==> forall i :: 0 <= i < |vs| && FirstBad(useRepr, vs, i) ==>
              r.Refused? && Blames(useRepr, vs[i], r.error)
    ensures |vs| <= 255 && r.Refused? && (forall i :: 0 <= i < |vs| ==> InOrder(useRepr, vs[i])) ==>
              r == Refused(MixedDiscriminators)
  {
    r := ProcessAll(useRepr, vs);
    if |vs| <= 255 {
      forall i | 0 <= i < |vs| ensures ProcessVariant(useRepr, i, vs[i]).Fine? <==> InOrder(useRepr, vs[i]) {
        ProcessedIff(useRepr, i, vs[i]);
      }
      forall i | 0 <= i < |vs| && FirstBad(useRepr, vs, i) ensures r.Refused? && Blames(useRepr, vs[i], r.error) {
        RefusedBlames(useRepr, i, vs[i]);
      }
      if forall i :: 0 <= i < |vs| ==> InOrder(useRepr, vs[i]) {
        UsesIff(useRepr, vs);
        forall i | 0 <= i < |vs| ensures Reads(useRepr, i, vs[i], ProcessVariant(useRepr, i, vs[i]).value.variant) {
          ProcessedReads(useRepr, i, vs[i]);
        }
      }
    }
  }

  /** Only one field is left unskipped exactly if all others are skipped. */
  lemma {:induction false} UnskippedNone(fs: seq<SourceField>)
    ensures Unskipped(FieldsOf(fs)) == 0 <==> forall k :: 0 <= k < |fs| ==> fs[k].field.skipped
  {
    if fs == [] {
    } else {
      UnskippedNone(fs[1..]);
      assert forall k :: 0 < k < |fs| ==> fs[k] == fs[1..][k - 1];
    }
  }

  lemma {:induction false} UnskippedOne(fs: seq<SourceField>, j: nat)
    requires j < |fs| && !fs[j].field.skipped
    ensures Unskipped(FieldsOf(fs)) == 1 <==> forall k :: 0 <= k < |fs| && k != j ==> fs[k].field.skipped
  {
    var rest := fs[1..];
    assert forall k :: 0 < k < |fs| ==> fs[k] == rest[k - 1];
    if j == 0 {
      UnskippedNone(rest);
      assert forall k :: 0 <= k < |rest| ==> rest[k] == fs[k + 1];
    } else {
      UnskippedOne(rest, j - 1);
      assert forall k :: 0 <= k < |rest| ==> rest[k] == fs[k + 1];
      if fs[0].field.skipped {
      } else {
        assert !rest[j - 1].field.skipped;
        UnskippedNone(rest);
      }
    }
  }

  lemma {:induction false} FlaggedIff(v: SourceVariant)
    ensures AnyFlattened(v.fields) <==> exists j :: 0 <= j < |v.fields| && Flagged(v, j)
  {
    if AnyFlattened(v.fields) {
      var j :| 0 <= j < |v.fields| && !v.fields[j].field.skipped && v.fields[j].flattened;
      assert Flagged(v, j);
    }
  }

  lemma {:induction false} ProcessedIff(useRepr: bool, i: nat, v: SourceVariant)
    requires i < 256
    ensures ProcessVariant(useRepr, i, v).Fine? <==> InOrder(useRepr, v)
  {
    FlaggedIff(v);
    if AnyFlattened(v.fields) {
      forall j | 0 <= j < |v.fields| && Flagged(v, j)
        ensures Unskipped(FieldsOf(v.fields)) == 1 <==> OnlyUnskipped(v, j)
      {
        UnskippedOne(v.fields, j);
      }
    }
  }

  lemma {:induction false} RefusedBlames(useRepr: bool, i: nat, v: SourceVariant)
    requires i < 256 && ProcessVariant(useRepr, i, v).Refused?
    ensures Blames(useRepr, v, ProcessVariant(useRepr, i, v).error)
  {
    FlaggedIff(v);
    forall j | 0 <= j < |v.fields| && Flagged(v, j)
      ensures Unskipped(FieldsOf(v.fields)) == 1 <==> OnlyUnskipped(v, j)
    {
      UnskippedOne(v.fields, j);
    }
  }

  lemma {:induction false} FieldListIs(fs: seq<SourceField>)
    ensures |FieldList(FieldsOf(fs))| == |fs|
    ensures forall k :: 0 <= k < |fs| ==> FieldList(FieldsOf(fs))[k] == fs[k].field
  {
    if fs == [] {
    } else {
      FieldListIs(fs[1..]);
    }
  }

  lemma {:induction false} ProcessedReads(useRepr: bool, i: nat, v: SourceVariant)
    requires ProcessVariant(useRepr, i, v).Fine?
    ensures Reads(useRepr, i, v, ProcessVariant(useRepr, i, v).value.variant)
  {
    FieldListIs(v.fields);
    FlaggedIff(v);
  }

  lemma {:induction false} UsesIff(useRepr: bool, vs: seq<SourceVariant>)
    requires forall i :: 0 <= i < |vs| ==> ProcessVariant(useRepr, i, vs[i]).Fine?
    ensures Uses(useRepr, vs, |vs|, false) <==>
            exists i :: 0 <= i < |vs| && !vs[i].unreachable && IsExplicit(useRepr, vs[i])
    ensures Uses(useRepr, vs, |vs|, true) <==>
            exists i :: 0 <= i < |vs| && !vs[i].unreachable && !IsExplicit(useRepr, vs[i])
  {
    forall i | 0 <= i < |vs|
      ensures ProcessVariant(useRepr, i, vs[i]).value.implicit ==
              if vs[i].unreachable then None else Some(!IsExplicit(useRepr, vs[i]))
    {
      assert ProcessVariant(useRepr, i, vs[i]).Fine?;
    }
  }

  /** The loop of `process_enum_variants`, variant by variant. */
  method ProcessAll(useRepr: bool, vs: seq<SourceVariant>) returns (r: Derived<seq<Variant>>)
    ensures r.Fine? <==>
            && |vs| <= 255
            && (forall i :: 0 <= i < |vs| ==> ProcessVariant(useRepr, i, vs[i]).Fine?)
            && !(Uses(useRepr, vs, |vs|, true) && Uses(useRepr, vs, |vs|, false))
    ensures r.Fine? ==> |r.value| == |vs| &&
                        forall i :: 0 <= i < |vs| ==> r.value[i] == ProcessVariant(useRepr, i, vs[i]).value.variant
    ensures |vs| > 255 ==> r == Refused(TooManyVariants)
    ensures |vs| <= 255 && r.Refused? ==>
              if forall i :: 0 <= i < |vs| ==> ProcessVariant(useRepr, i, vs[i]).Fine?
              then r.error == MixedDiscriminators
              else exists i :: 0 <= i < |vs| && ProcessVariant(useRepr, i, vs[i]) == Refused(r.error)
                               && forall j :: 0 <= j < i ==> ProcessVariant(useRepr, j, vs[j]).Fine?
  {
    if |vs| > 255 {
      return Refused(TooManyVariants);
    }
    var explicitCount, implicitCount := 0, 0;
    var variants: seq<Variant> := [];
    for i := 0 to |vs|
      invariant |variants| == i
      invariant forall j :: 0 <= j < i ==> ProcessVariant(useRepr, j, vs[j]).Fine?
                                           && variants[j] == ProcessVariant(useRepr, j, vs[j]).value.variant
      invariant 0 <= implicitCount && 0 <= explicitCount
      invariant implicitCount > 0 <==> Uses(useRepr, vs, i, true)
      invariant explicitCount > 0 <==> Uses(useRepr, vs, i, false)
    {
      var one := ProcessVariant(useRepr, i, vs[i]);
      if one.Refused? {
        return Refused(one.error);
      }
      UsesNext(useRepr, vs, i, true);
      UsesNext(useRepr, vs, i, false);
      variants := variants + [one.value.variant];
      if one.value.implicit.Some? {
        if one.value.implicit.value {
          implicitCount := implicitCount + 1;
        } else {
          explicitCount := explicitCount + 1;
        }
      }
    }
    if explicitCount > 0 && implicitCount > 0 {
      return Refused(MixedDiscriminators);
    }
    r := Fine(variants);
  }

  lemma {:induction false} UsesNext(useRepr: bool, vs: seq<SourceVariant>, n: nat, implicit: bool)
    requires n < |vs| && ProcessVariant(useRepr, n, vs[n]).Fine?
    ensures Uses(useRepr, vs, n + 1, implicit) <==>
            Uses(useRepr, vs, n, implicit) || ProcessVariant(useRepr, n, vs[n]).value.implicit == Some(implicit)
  {
  }

  // ---------------------------------------------------------------------------------------
  // Implicit discriminators are distinct
  // ---------------------------------------------------------------------------------------

  function ListOf(xs: seq<Variant>): Variants {
    if xs == [] then XNil else XCons(xs[0], ListOf(xs[1..]))
  }

  /** Every reachable variant carries its position, counted from `at`. */
  predicate Positional(xs: seq<Variant>, at: nat) {
    forall i :: 0 <= i < |xs| ==> xs[i].handling.Unreachable? || xs[i].discriminator == at + i
  }

  lemma {:induction false} PositionalIsDistinct(xs: seq<Variant>, at: nat)
    requires Positional(xs, at)
    ensures Distinct(ListOf(xs))
    ensures forall d :: d in Discriminators(ListOf(xs)) ==> d >= at
  {
    if xs == [] {
    } else {
      forall i | 0 <= i < |xs[1..]| ensures xs[1..][i].handling.Unreachable? || xs[1..][i].discriminator == at + 1 + i {
        assert xs[1..][i] == xs[i + 1];
      }
      PositionalIsDistinct(xs[1..], at + 1);
    }
  }

  /** Without explicit discriminators each reachable variant gets its source position, unreachable
      ones leaving their number unused, so the discriminators are distinct. */
  lemma {:induction false} ImplicitIsDistinct(useRepr: bool, vs: seq<SourceVariant>, xs: seq<Variant>)
    requires |xs| == |vs| && !Uses(useRepr, vs, |vs|, false)
    requires forall i :: 0 <= i < |vs| ==>
               ProcessVariant(useRepr, i, vs[i]).Fine? && xs[i] == ProcessVariant(useRepr, i, vs[i]).value.variant
    ensures Positional(xs, 0) && Distinct(ListOf(xs))
  {
    forall i | 0 <= i < |xs| ensures xs[i].handling.Unreachable? || xs[i].discriminator == i {
      assert ProcessVariant(useRepr, i, vs[i]).Fine?;
    }
    PositionalIsDistinct(xs, 0);
  }

  /** Discriminators are distinct in the list exactly if no two reachable variants share one. */
  lemma {:induction false} DistinctIff(xs: seq<Variant>)
    ensures Distinct(ListOf(xs)) <==>
            forall i, j :: 0 <= i < j < |xs| && !xs[i].handling.Unreachable? && !xs[j].handling.Unreachable? ==>
              xs[i].discriminator != xs[j].discriminator
    ensures forall d :: d in Discriminators(ListOf(xs)) <==>
              exists i :: 0 <= i < |xs| && !xs[i].handling.Unreachable? && xs[i].discriminator == d
  {
    if xs == [] {
    } else {
      var rest := xs[1..];
      DistinctIff(rest);
      assert forall i :: 0 < i < |xs| ==> xs[i] == rest[i - 1];
      assert forall i :: 0 <= i < |rest| ==> rest[i] == xs[i + 1];
    }
  }

  // ---------------------------------------------------------------------------------------
  // What the macros read is an accepted shape
  // ---------------------------------------------------------------------------------------

  lemma {:induction false} AcceptedFieldsIff(fs: Fields)
    ensures AcceptedFields(fs) <==>
            forall f :: f in FieldList(fs) && !f.skipped ==> Accepted(f.shape)
  {
    match fs {
      case FNil =>
      case FCons(_, t) => AcceptedFieldsIff(t);
    }
  }

  predicate AcceptedVariant(x: Variant) {
    && (!x.handling.Unreachable? ==> AcceptedFields(x.fields))
    && (x.handling.Flatten? ==> Unskipped(x.fields) == 1 && UniqueIsTuple(x.fields))
  }

  lemma {:induction false} AcceptedVariantsIff(xs: seq<Variant>)
    ensures AcceptedVariants(ListOf(xs)) <==> forall i :: 0 <= i < |xs| ==> AcceptedVariant(xs[i])
  {
    if xs == [] {
    } else {
      var rest := xs[1..];
      AcceptedVariantsIff(rest);
      assert forall i :: 0 < i < |xs| ==> xs[i] == rest[i - 1];
      assert forall i :: 0 <= i < |rest| ==> rest[i] == xs[i + 1];
    }
  }

  /** A field that alone is unskipped decides whether the fields stand for a tuple. */
  lemma {:induction false} UniqueAt(fs: Fields, j: nat)
    requires j < |FieldList(fs)| && !FieldList(fs)[j].skipped
    requires forall k :: 0 <= k < |FieldList(fs)| && k != j ==> FieldList(fs)[k].skipped
    ensures Unskipped(fs) == 1 && (UniqueIsTuple(fs) <==> IsTuple(FieldList(fs)[j].shape))
  {
    var rest := FieldList(fs.tail);
    assert FieldList(fs)[0] == fs.head;
    assert forall k :: 0 <= k < |rest| ==> rest[k] == FieldList(fs)[k + 1];
    if j == 0 {
      NoneAt(fs.tail);
    } else {
      UniqueAt(fs.tail, j - 1);
    }
  }

  lemma {:induction false} NoneAt(fs: Fields)
    requires forall k :: 0 <= k < |FieldList(fs)| ==> FieldList(fs)[k].skipped
    ensures Unskipped(fs) == 0
  {
    match fs {
      case FNil =>
      case FCons(f, t) =>
        assert FieldList(fs)[0] == f;
        assert forall k :: 0 <= k < |FieldList(t)| ==> FieldList(t)[k] == FieldList(fs)[k + 1];
        NoneAt(t);
    }
  }

  /** The encoded fields of a variant have accepted types, and a flattened one is a tuple: the trait
      bounds of the emitted code. */
  predicate Typed(v: SourceVariant) {
    !v.unreachable ==>
      forall k :: 0 <= k < |v.fields| && !v.fields[k].field.skipped ==>
        && Accepted(v.fields[k].field.shape)
        && (v.fields[k].flattened ==> IsTuple(v.fields[k].field.shape))
  }

  lemma {:induction false} AcceptedVariantIff(useRepr: bool, i: nat, v: SourceVariant, x: Variant)
    requires Reads(useRepr, i, v, x) && InOrder(useRepr, v)
    ensures AcceptedVariant(x) <==> Typed(v)
  {
    if !v.unreachable {
      AcceptedFieldsIff(x.fields);
      forall k | 0 <= k < |v.fields| ensures v.fields[k].field in FieldList(x.fields) {
        assert FieldList(x.fields)[k] == v.fields[k].field;
      }
      forall j | 0 <= j < |v.fields| && Flagged(v, j)
        ensures Unskipped(x.fields) == 1 && (UniqueIsTuple(x.fields) <==> IsTuple(v.fields[j].field.shape))
      {
        assert OnlyUnskipped(v, j);
        UniqueAt(x.fields, j);
      }
    }
  }

  /** A struct is accepted exactly if its encoded fields have accepted types, and a transparent one
      if moreover exactly one field is encoded. */
  lemma {:induction false} AcceptedStructIff(fs: seq<SourceField>)
    ensures Accepted(Struct(FieldsOf(fs))) <==>
            forall k :: 0 <= k < |fs| && !fs[k].field.skipped ==> Accepted(fs[k].field.shape)
    ensures Accepted(Transparent(FieldsOf(fs))) <==>
            Accepted(Struct(FieldsOf(fs))) &&
            exists j :: 0 <= j < |fs| && !fs[j].field.skipped &&
                        forall k :: 0 <= k < |fs| && k != j ==> fs[k].field.skipped
  {
    FieldListIs(fs);
    AcceptedFieldsIff(FieldsOf(fs));
    forall k | 0 <= k < |fs| ensures fs[k].field in FieldList(FieldsOf(fs)) {
      assert FieldList(FieldsOf(fs))[k] == fs[k].field;
    }
    UnskippedNone(fs);
    forall j | 0 <= j < |fs| && !fs[j].field.skipped
      ensures Unskipped(FieldsOf(fs)) == 1 <==> forall k :: 0 <= k < |fs| && k != j ==> fs[k].field.skipped
    {
      UnskippedOne(fs, j);
    }
  }

  /** An enum that the macros accept is one whose values round-trip, exactly if its encoded fields
      have types that do, flattened ones are tuples and no two reachable variants share a
      discriminator. */
  lemma {:induction false} AcceptedEnumIff(useRepr: bool, vs: seq<SourceVariant>, xs: seq<Variant>)
    requires |xs| == |vs|
    requires forall i :: 0 <= i < |vs| ==> InOrder(useRepr, vs[i]) && Reads(useRepr, i, vs[i], xs[i])
    ensures Accepted(Enum(ListOf(xs))) <==>
            && (forall i :: 0 <= i < |vs| ==> Typed(vs[i]))
            && (forall i, j :: 0 <= i < j < |vs| && !vs[i].unreachable && !vs[j].unreachable ==>
                  xs[i].discriminator != xs[j].discriminator)
  {
    AcceptedVariantsIff(xs);
    DistinctIff(xs);
    forall i | 0 <= i < |vs|
      ensures AcceptedVariant(xs[i]) <==> Typed(vs[i])
      ensures xs[i].handling.Unreachable? <==> vs[i].unreachable
    {
      AcceptedVariantIff(useRepr, i, vs[i], xs[i]);
    }
  }
}
