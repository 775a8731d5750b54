/** What the shape gate promises: the order of its checks, and what a successful analysis holds. */
module ExpandLemmas {
  import opened Wrappers
  import opened Syntax
  import opened Codegen
  import opened TypemapLemmas

  /** A non-generic enum fails exactly when the type map fails, and with the same error. */
  lemma {:induction false} ExpandPropagatesTypemapError(input: DeriveInput)
    requires Admissible(input)
    requires input.body.Enum? && !IsGeneric(input.generics)
    ensures Expand(input).Err? <==> TypemapOutcome(input.body.variants).Err?
    ensures Expand(input).Err? ==> Expand(input).error == TypemapOutcome(input.body.variants).error
  {
  }

  /**
   * On success the two halves of the analysis agree: one tag per variant,
   * numbered by position and named by the naming rule, and every variant
   * filed in the type map under its payload type, the entries together
   * holding exactly as many names as there are variants and tags.
   */
  lemma {:induction false} ExpandConsistent(input: DeriveInput)
    requires Admissible(input) && Expand(input).Ok?
    ensures input.body.Enum?
    ensures var vs, a := input.body.variants, Expand(input).value;
            && |a.tags| == |vs| == TotalLength(a.typemap)
            && forall i :: 0 <= i < |vs| ==>
                 && a.tags[i].number as int == i
                 && a.tags[i].name == TagName(input.ident, vs[i].ident)
                 && Accepted(vs[i])
                 && PayloadTy(vs[i]) in a.typemap
                 && vs[i].ident in a.typemap[PayloadTy(vs[i])]
  {
    var vs := input.body.variants;
    OutcomeTotalLength(vs);
    forall i | 0 <= i < |vs|
      ensures PayloadTy(vs[i]) in TypemapOutcome(vs).value
      ensures vs[i].ident in TypemapOutcome(vs).value[PayloadTy(vs[i])]
    {
      OutcomeKeys(vs);
      OutcomeEntries(vs);
      EntryMembership(vs, PayloadTy(vs[i]), vs[i].ident);
    }
  }

  /**
   * `struct Foo { x: u32 }` is refused as not an enum; `enum Foo<T> { A(T) }`
   * as generic, even when one of its variants would trip a later check.
   */
  lemma ExpandExamples()
    ensures Expand(DeriveInput("Foo", NoGenerics, StructBody(Struct([Field(Some("x"), Path(["u32"]))]))))
            == Err(NotAnEnum)
    ensures Expand(DeriveInput("Foo", Generics([], ["T"], WhereClause([])),
                               Enum([Variant("A", Tuple([Field(None, Path(["T"]))])),
                                     Variant("B", Tuple([]))])))
            == Err(GenericType)
  {
    assert IsGeneric(Generics([], ["T"], WhereClause([])));
  }
}
