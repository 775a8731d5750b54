/**
 * The analysis front end of the `TaggedUnion` derive: the shape gate
 * (`expand`), generic detection, tag assignment and the type map that groups
 * variants by payload type.
 */
module Codegen {
  import opened Wrappers
  import opened Syntax
  import opened Ascii

  /** Number of values of `u32`: the tag numbers are `u32`. */
  const U32Count: int := 0x1_0000_0000

  newtype u32 = x: int | 0 <= x < 0x1_0000_0000

  /** Why the derive refuses an input. `Message` gives the text it reports. */
  datatype Error =
    | NotAnEnum
    | GenericType
    | StructVariant
    | MultiFieldTuple
  {
    /** Every refusal is reported as one full sentence. */
    function Message(): (m: string)
      ensures |m| > 0 && m[|m| - 1] == '.'
    {
      match this
      case NotAnEnum => "The TaggedUnion derive can only be used on enums."
      case GenericType => "You can't derive TaggedUnion on a generic type."
      case StructVariant => "Struct variants aren't supported."
      case MultiFieldTuple => "Tuple variants with more than one element aren't supported."
    }
  }

  /** The four refusals are told apart by their messages alone. */
  lemma MessageInjective(a: Error, b: Error)
    ensures a.Message() == b.Message() <==> a == b
  {
  }

  // ---------------------------------------------------------------------
  // Tags
  // ---------------------------------------------------------------------

  /** A tag constant: its name and its discriminant. */
  datatype Tag = Tag(name: string, number: u32)

  /** `Tag::new`: a tag holding exactly the name and number it is given. */
  function NewTag(name: string, number: u32): (t: Tag)
    ensures t.name == name && t.number == number
  {
    Tag(name, number)
  }

  /**
   * The constant name of a variant's tag: `UPPER(enum)_UPPER(variant)`, the
   * separator sitting right after the enum's part.
   */
  function TagName(enumName: string, variantName: string): (n: string)
    ensures |n| == |enumName| + 1 + |variantName|
    ensures n[|enumName|] == '_'
    ensures forall i :: 0 <= i < |enumName| ==> n[i] == UpperChar(enumName[i])
    ensures forall i :: 0 <= i < |variantName| ==> n[|enumName| + 1 + i] == UpperChar(variantName[i])
  {
    Upper(enumName) + "_" + Upper(variantName)
  }

  /**
   * `generate_tags`: one tag per variant, in declaration order, numbered from
   * zero. Only the variant names are read; the shape of a variant is not.
   */
  function GenerateTags(enumName: string, variants: seq<Variant>): (tags: seq<Tag>)
    requires |variants| <= U32Count
    ensures |tags| == |variants|
    ensures forall i :: 0 <= i < |tags| ==> tags[i].number as int == i
    ensures forall i :: 0 <= i < |tags| ==> tags[i].name == TagName(enumName, variants[i].ident)
  {
    Enumerate(Upper(enumName), variants, 0)
  }

  /** The `enumerate().map(..)` pipeline, from position `start` on. */
  function Enumerate(prefix: string, variants: seq<Variant>, start: nat): (tags: seq<Tag>)
    requires start + |variants| <= U32Count
    ensures |tags| == |variants|
    ensures forall i :: 0 <= i < |tags| ==> tags[i].number as int == start + i
    ensures forall i :: 0 <= i < |tags| ==> tags[i].name == prefix + "_" + Upper(variants[i].ident)
  {
    if variants == [] then []
    else [NewTag(prefix + "_" + Upper(variants[0].ident), start as u32)] + Enumerate(prefix, variants[1..], start + 1)
  }

  // ---------------------------------------------------------------------
  // Generics
  // ---------------------------------------------------------------------

  /** `is_generic`: the type declares a lifetime, a type parameter or a where-predicate. */
  function IsGeneric(g: Generics): (b: bool)
    ensures b <==> g != NoGenerics
    ensures b <==> (exists l :: l in g.lifetimes) || (exists p :: p in g.tyParams)
                   || (exists w :: w in g.whereClause.predicates)
  {
    if |g.lifetimes| != 0 then assert g.lifetimes[0] in g.lifetimes; true
    else if |g.tyParams| != 0 then assert g.tyParams[0] in g.tyParams; true
    else if |g.whereClause.predicates| != 0 then assert g.whereClause.predicates[0] in g.whereClause.predicates; true
    else false
  }

  // ---------------------------------------------------------------------
  // Type map
  // ---------------------------------------------------------------------

  /** Payload type to the names of the variants carrying it. Key order is not modelled. */
  type TypeMap = map<Ty, seq<string>>

  /** A struct variant, or a tuple variant with more than one field: `typemap_for` bails. */
  predicate Rejected(v: Variant) {
    v.data.Struct? || (v.data.Tuple? && |v.data.fields| > 1)
  }

  /** A unit variant or a one-field tuple variant: `typemap_for` files it. */
  predicate Accepted(v: Variant) {
    v.data.Unit? || (v.data.Tuple? && |v.data.fields| == 1)
  }

  /** Every variant is one `typemap_for` files. */
  predicate AllAccepted(variants: seq<Variant>) {
    forall i :: 0 <= i < |variants| ==> Accepted(variants[i])
  }

  /** Some variant is one `typemap_for` bails at. */
  predicate AnyRejected(variants: seq<Variant>) {
    exists i :: 0 <= i < |variants| && Rejected(variants[i])
  }

  /** The error `typemap_for` reports for a rejected variant. */
  function ShapeError(v: Variant): (e: Error)
    requires Rejected(v)
    ensures v.data.Struct? <==> e == StructVariant
    ensures v.data.Tuple? <==> e == MultiFieldTuple
  {
    if v.data.Struct? then StructVariant else MultiFieldTuple
  }

  /** The key a filed variant goes under: `()` for a unit variant, else its field's type. */
  function PayloadTy(v: Variant): (t: Ty)
    requires Accepted(v)
    ensures v.data.Unit? ==> t == UnitTy
    ensures v.data.Tuple? ==> t == v.data.fields[0].ty
  {
    if v.data.Unit? then UnitTy else v.data.fields[0].ty
  }

  /**
   * The source reads `fields[0]` of a tuple variant it reaches without having
   * bailed; a zero-field tuple variant there would panic. This is what the
   * caller must rule out: walking from the front, a rejected variant comes
   * before any zero-field tuple variant.
   */
  predicate NoEmptyTupleReached(variants: seq<Variant>)
    decreases |variants|
  {
    || variants == []
    || Rejected(variants[0])
    || (variants[0].data != Tuple([]) && NoEmptyTupleReached(variants[1..]))
  }

  /** `entry(key).or_insert_with(Default::default).push(name)`. */
  function Push(m: TypeMap, key: Ty, name: string): (m': TypeMap)
    ensures m'.Keys == m.Keys + {key}
    ensures m'[key] == (if key in m then m[key] else []) + [name]
    ensures forall k :: k in m && k != key ==> m'[k] == m[k]
  {
    m[key := (if key in m then m[key] else []) + [name]]
  }

  /** The index of the first rejected variant. */
  function FirstRejected(variants: seq<Variant>): (i: nat)
    requires AnyRejected(variants)
    ensures i < |variants| && Rejected(variants[i])
    ensures forall j :: 0 <= j < i ==> !Rejected(variants[j])
  {
    if Rejected(variants[0]) then 0
    else
      assert AnyRejected(variants[1..]) by {
        var j :| 0 <= j < |variants| && Rejected(variants[j]);
        assert variants[1..][j - 1] == variants[j];
      }
      1 + FirstRejected(variants[1..])
  }

  /** Some variant is rejected exactly when the first one is or one of the rest is. */
  lemma {:induction false} AnyRejectedCons(variants: seq<Variant>)
    requires variants != []
    ensures AnyRejected(variants) <==> Rejected(variants[0]) || AnyRejected(variants[1..])
  {
    if AnyRejected(variants) && !Rejected(variants[0]) {
      var j :| 0 <= j < |variants| && Rejected(variants[j]);
      assert variants[1..][j - 1] == variants[j];
    }
    if AnyRejected(variants[1..]) {
      var j :| 0 <= j < |variants[1..]| && Rejected(variants[1..][j]);
      assert variants[j + 1] == variants[1..][j];
    }
  }

  /**
   * What `NoEmptyTupleReached` means: every zero-field tuple variant has a
   * rejected variant somewhere before it, so the loop bails before it.
   */
  lemma {:induction false} NoEmptyTupleReachedIff(variants: seq<Variant>)
    ensures NoEmptyTupleReached(variants) <==>
              forall i :: 0 <= i < |variants| && variants[i].data == Tuple([]) ==>
                exists j :: 0 <= j < i && Rejected(variants[j])
    decreases |variants|
  {
    if variants != [] {
      var rest := variants[1..];
      NoEmptyTupleReachedIff(rest);
      assert forall i :: 0 < i < |variants| ==> variants[i] == rest[i - 1];
      if Rejected(variants[0]) {
        forall i | 0 <= i < |variants| && variants[i].data == Tuple([])
          ensures exists j :: 0 <= j < i && Rejected(variants[j])
        {
          assert i != 0;
          assert Rejected(variants[0]);
        }
      } else if NoEmptyTupleReached(variants) {
        forall i | 0 <= i < |variants| && variants[i].data == Tuple([])
          ensures exists j :: 0 <= j < i && Rejected(variants[j])
        {
          assert rest[i - 1].data == Tuple([]);
          var j :| 0 <= j < i - 1 && Rejected(rest[j]);
          assert Rejected(variants[j + 1]);
        }
      } else if variants[0].data != Tuple([]) {
        assert !NoEmptyTupleReached(rest);
        var i :| 0 <= i < |rest| && rest[i].data == Tuple([]) && !(exists j :: 0 <= j < i && Rejected(rest[j]));
        assert variants[i + 1].data == Tuple([]);
      }
    }
  }

  /** A declaration whose variants are all filed reaches no zero-field tuple variant. */
  lemma {:induction false} AcceptedReachesNoEmptyTuple(variants: seq<Variant>)
    requires AllAccepted(variants)
    ensures NoEmptyTupleReached(variants)
    decreases |variants|
  {
    if variants != [] {
      assert Accepted(variants[0]);
      assert forall j :: 0 <= j < |variants[1..]| ==> variants[1..][j] == variants[j + 1];
      AcceptedReachesNoEmptyTuple(variants[1..]);
    }
  }

  /** A prefix of an input that reaches no zero-field tuple reaches none either. */
  lemma {:induction false} PrefixReachesNoEmptyTuple(variants: seq<Variant>, k: nat)
    requires k <= |variants| && NoEmptyTupleReached(variants)
    ensures NoEmptyTupleReached(variants[..k])
    decreases |variants|
  {
    if k > 0 {
      assert variants[..k][0] == variants[0];
      if !Rejected(variants[0]) {
        assert variants[..k][1..] == variants[1..][..k - 1];
        PrefixReachesNoEmptyTuple(variants[1..], k - 1);
      }
    }
  }

  /** One more variant at the end is reached safely exactly when it is not a zero-field tuple or the walk has bailed before it. */
  lemma {:induction false} ReachesSnoc(variants: seq<Variant>, v: Variant)
    ensures NoEmptyTupleReached(variants + [v]) <==>
              NoEmptyTupleReached(variants) && (v.data == Tuple([]) ==> AnyRejected(variants))
    decreases |variants|
  {
    if variants != [] {
      assert (variants + [v])[0] == variants[0];
      assert (variants + [v])[1..] == variants[1..] + [v];
      ReachesSnoc(variants[1..], v);
      AnyRejectedCons(variants);
    }
  }

  /** How the shape predicates of a declaration change with one more variant at its end. */
  lemma {:induction false} ShapeSnoc(prefix: seq<Variant>, v: Variant)
    ensures Rejected(v) || Accepted(v) || v.data == Tuple([])
    ensures AnyRejected(prefix + [v]) <==> AnyRejected(prefix) || Rejected(v)
    ensures AllAccepted(prefix + [v]) <==> AllAccepted(prefix) && Accepted(v)
    ensures AnyRejected(prefix) ==> FirstRejected(prefix + [v]) == FirstRejected(prefix)
    ensures !AnyRejected(prefix) && Rejected(v) ==> FirstRejected(prefix + [v]) == |prefix|
  {
    var all := prefix + [v];
    assert forall i :: 0 <= i < |prefix| ==> all[i] == prefix[i];
    assert all[|prefix|] == v;
    if v.data.Tuple? && |v.data.fields| == 0 {
      assert v.data.fields == [];
    }
    if AnyRejected(prefix) {
      var k := FirstRejected(prefix);
      assert AnyRejected(all) by { assert Rejected(all[k]); }
      var f := FirstRejected(all);
      assert f < |prefix| ==> Rejected(prefix[f]);
    } else if Rejected(v) {
      assert AnyRejected(all) by { assert Rejected(all[|prefix|]); }
    }
  }

  /**
   * What `typemap_for` returns after its loop has gone through `variants`:
   * the error of the first rejected variant, or the map with every variant
   * filed under its payload type, in order.
   */
  function TypemapOutcome(variants: seq<Variant>): (r: Result<TypeMap, Error>)
    requires NoEmptyTupleReached(variants)
    ensures r.Err? <==> AnyRejected(variants)
    ensures r.Err? ==> r.error == ShapeError(variants[FirstRejected(variants)])
    ensures r.Ok? ==> AllAccepted(variants)
    decreases |variants|
  {
    if variants == [] then Ok(map[])
    else
      var n := |variants| - 1;
      var prefix, v := variants[..n], variants[n];
      assert variants == prefix + [v];
      ReachesSnoc(prefix, v);
      ShapeSnoc(prefix, v);
      match TypemapOutcome(prefix)
      case Err(e) => Err(e)
      case Ok(m) =>
        if Rejected(v) then Err(ShapeError(v))
        else Ok(Push(m, PayloadTy(v), v.ident))
  }

  /** Going through one more variant: it is either rejected or filed under its payload type. */
  lemma {:induction false} OutcomeSnoc(variants: seq<Variant>, v: Variant)
    requires NoEmptyTupleReached(variants + [v])
    ensures NoEmptyTupleReached(variants)
    ensures TypemapOutcome(variants).Err? ==> TypemapOutcome(variants + [v]) == TypemapOutcome(variants)
    ensures TypemapOutcome(variants).Ok? && Rejected(v) ==> TypemapOutcome(variants + [v]) == Err(ShapeError(v))
    ensures TypemapOutcome(variants).Ok? && !Rejected(v) ==>
              Accepted(v) && TypemapOutcome(variants + [v]) == Ok(Push(TypemapOutcome(variants).value, PayloadTy(v), v.ident))
  {
    var all := variants + [v];
    ReachesSnoc(variants, v);
    assert all[..|variants|] == variants;
    assert all[|variants|] == v;
  }

  /** Once a prefix is rejected, the variants after it are never looked at. */
  lemma {:induction false} ErrorIgnoresRest(variants: seq<Variant>, k: nat)
    requires k <= |variants| && NoEmptyTupleReached(variants) && NoEmptyTupleReached(variants[..k])
    requires TypemapOutcome(variants[..k]).Err?
    ensures TypemapOutcome(variants) == TypemapOutcome(variants[..k])
    decreases |variants|
  {
    if k == |variants| {
      assert variants[..k] == variants;
    } else {
      var n := |variants| - 1;
      assert variants == variants[..n] + [variants[n]];
      OutcomeSnoc(variants[..n], variants[n]);
      assert variants[..n][..k] == variants[..k];
      ErrorIgnoresRest(variants[..n], k);
    }
  }

  /** One pass of the loop of `typemap_for` that meets a variant it files. */
  lemma {:induction false} TypemapStep(variants: seq<Variant>, i: nat, m: TypeMap)
    requires i < |variants| && NoEmptyTupleReached(variants) && NoEmptyTupleReached(variants[..i])
    requires TypemapOutcome(variants[..i]) == Ok(m) && !Rejected(variants[i])
    ensures Accepted(variants[i])
    ensures NoEmptyTupleReached(variants[..i + 1])
    ensures TypemapOutcome(variants[..i + 1]) == Ok(Push(m, PayloadTy(variants[i]), variants[i].ident))
  {
    var prefix, v, next := variants[..i], variants[i], variants[..i + 1];
    PrefixReachesNoEmptyTuple(variants, i + 1);
    assert next == prefix + [v];
    OutcomeSnoc(prefix, v);
  }

  /** One pass of the loop of `typemap_for` that meets a variant it rejects: the walk ends with that variant's error. */
  lemma {:induction false} TypemapBail(variants: seq<Variant>, i: nat)
    requires i < |variants| && NoEmptyTupleReached(variants) && NoEmptyTupleReached(variants[..i])
    requires TypemapOutcome(variants[..i]).Ok? && Rejected(variants[i])
    ensures TypemapOutcome(variants) == Err(ShapeError(variants[i]))
  {
    var prefix, v, next := variants[..i], variants[i], variants[..i + 1];
    PrefixReachesNoEmptyTuple(variants, i + 1);
    assert next == prefix + [v];
    OutcomeSnoc(prefix, v);
    assert TypemapOutcome(next) == Err(ShapeError(v));
    ErrorIgnoresRest(variants, i + 1);
  }

  /**
   * `typemap_for`: walks the variants in order, filing each under its payload
   * type in a map it updates as it goes, and bails at the first struct
   * variant or multi-field tuple variant.
   */
  method TypemapFor(variants: seq<Variant>) returns (r: Result<TypeMap, Error>)
    requires NoEmptyTupleReached(variants)
    ensures r == TypemapOutcome(variants)
  {
    var m: TypeMap := map[];
    var unit := UnitTy;
    for i := 0 to |variants|
      invariant NoEmptyTupleReached(variants[..i])
      invariant TypemapOutcome(variants[..i]) == Ok(m)
    {
      var variant := variants[i];
      if Rejected(variant) {
        TypemapBail(variants, i);
      } else {
        TypemapStep(variants, i, m);
      }
      match variant.data {
        case Struct(_) =>
          return Err(StructVariant);
        case Tuple(fields) =>
          if |fields| > 1 {
            return Err(MultiFieldTuple);
          }
          m := Push(m, fields[0].ty, variant.ident);
        case Unit =>
          m := Push(m, unit, variant.ident);
      }
    }
    assert variants[..|variants|] == variants;
    return Ok(m);
  }

  // ---------------------------------------------------------------------
  // The shape gate
  // ---------------------------------------------------------------------

  /** What the analysis has built when every check has passed. */
  datatype Analysis = Analysis(tags: seq<Tag>, typemap: TypeMap)

  /**
   * What the caller of `expand` must rule out, for an input that reaches tag
   * assignment: the tag numbers fit in `u32`, and no zero-field tuple variant
   * is reached by `typemap_for`.
   */
  predicate Admissible(input: DeriveInput) {
    input.body.Enum? && !IsGeneric(input.generics) ==>
      |input.body.variants| <= U32Count && NoEmptyTupleReached(input.body.variants)
  }

  /**
   * What `Admissible` means: a struct or a generic type is always admitted
   * (the derive refuses it before anything can go wrong); an enum is admitted
   * when its tag numbers fit in `u32` and every zero-field tuple variant comes
   * after a rejected variant.
   */
  lemma AdmissibleIff(input: DeriveInput)
    ensures (input.body.StructBody? || IsGeneric(input.generics)) ==> Admissible(input)
    ensures input.body.Enum? && !IsGeneric(input.generics) ==>
              (Admissible(input) <==>
                 && |input.body.variants| <= U32Count
                 && forall i :: 0 <= i < |input.body.variants| && input.body.variants[i].data == Tuple([]) ==>
                      exists j :: 0 <= j < i && Rejected(input.body.variants[j]))
  {
    if input.body.Enum? {
      NoEmptyTupleReachedIff(input.body.variants);
    }
  }

  /**
   * `expand`, up to the point where the source stops (`unimplemented!()`):
   * refuse a struct, then a generic type, then build the tags and the type map.
   */
  function Expand(input: DeriveInput): (r: Result<Analysis, Error>)
    requires Admissible(input)
    ensures input.body.StructBody? ==> r == Err(NotAnEnum)
    ensures input.body.Enum? && IsGeneric(input.generics) ==> r == Err(GenericType)
    ensures r.Ok? <==> input.body.Enum? && !IsGeneric(input.generics) && AllAccepted(input.body.variants)
  {
    match input.body
    case StructBody(_) => Err(NotAnEnum)
    case Enum(variants) =>
      if IsGeneric(input.generics) then Err(GenericType)
      else
        var tags := GenerateTags(input.ident, variants);
        match TypemapOutcome(variants)
        case Err(e) => Err(e)
        case Ok(typemap) => Ok(Analysis(tags, typemap))
  }
}
