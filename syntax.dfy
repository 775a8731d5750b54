/**
 * The parsed derive input that the front end inspects: the part of the
 * parser's syntax tree (`DeriveInput`, `Body`, `Variant`, `VariantData`,
 * `Field`, `Generics`, `Ty`) that the analysis reads. Attributes, visibility
 * and explicit discriminants are not read by the analysis and are not kept.
 */
module Syntax {
  import opened Wrappers

  /**
   * A payload type as written. Equality is syntactic, as for the parser's
   * `Ty`: `u32` and `(u32)` are different values even though they denote the
   * same type. Forms the analysis never looks inside are kept as their text.
   */
  datatype Ty =
    | Tup(elems: seq<Ty>)           // `()`, `(A, B)`
    | Path(segments: seq<string>)   // `u32`, `std::string::String`
    | Paren(inner: Ty)              // `(T)`
    | Other(text: string)           // references, arrays, pointers, ...

  /** The unit type `()`, the key under which payload-less variants are grouped. */
  const UnitTy: Ty := Tup([])

  /** A field of a variant: named in a struct variant, unnamed in a tuple variant. */
  datatype Field = Field(ident: Option<string>, ty: Ty)

  /** `Wait { secs: i64 }`, `Move(usize)` and `Halt` respectively. */
  datatype VariantData =
    | Struct(fields: seq<Field>)
    | Tuple(fields: seq<Field>)
    | Unit

  datatype Variant = Variant(ident: string, data: VariantData)

  datatype WhereClause = WhereClause(predicates: seq<string>)

  /** Lifetimes, type parameters and where-predicates, each kept by its text. */
  datatype Generics = Generics(lifetimes: seq<string>, tyParams: seq<string>, whereClause: WhereClause)

  /** The generics of a type declared without any: `Generics::default()`. */
  const NoGenerics: Generics := Generics([], [], WhereClause([]))

  datatype Body =
    | Enum(variants: seq<Variant>)
    | StructBody(data: VariantData)

  datatype DeriveInput = DeriveInput(ident: string, generics: Generics, body: Body)
}
