# tagged_unions: the analysis front end of the `TaggedUnion` derive

The `TaggedUnion` derive takes a Rust enum and is meant to produce a
C-compatible encoding of it: a numeric tag per variant, a raw union holding
any variant's payload, and conversions both ways. The repository contains
only the front of that pipeline, in `tagged_union_derive/src/codegen.rs`:

- `expand` checks the input's shape in a fixed order. A struct is refused.
  Then a generic type is refused. Then the tags are built, and then the
  type map is built, which can also fail. After that the source stops at
  `unimplemented!()`.
- `is_generic` says whether the type declares any lifetime, type parameter
  or where-predicate.
- `generate_tags` gives variant number `i` (in declaration order) the tag
  `Tag { name: UPPER(enum)_UPPER(variant), number: i }`.
- `typemap_for` walks the variants in order and files each one in a hash
  map keyed by payload type. A unit variant goes under `()`. A one-field
  tuple variant goes under its field's type. It bails at the first struct
  variant or tuple variant with more than one field.

The Dafny model has these modules:

- `Syntax` holds the parts of the parsed input that the code reads: `Ty`,
  `Field`, `VariantData`, `Variant`, `Generics` and `DeriveInput`.
- `Ascii` holds upper-casing.
- `Codegen` holds the four operations and the `Tag` datatype. The datatype
  constructor `Tag(name, number)` plays the part of `Tag::new`.
- `TagLemmas`, `TypemapLemmas` and `ExpandLemmas` hold the properties.

`typemap_for` mutates a local map in a loop, so it is the method
`Codegen.TypemapFor`. The method is proved equal to the function
`Codegen.TypemapOutcome`, which gives the loop's result after any prefix of
the variants. That function is then proved against a separate reference
definition, `TypemapLemmas.Entry`: the names of the variants carrying a
given type, filtered in declaration order. `generate_tags`, `is_generic`
and `expand` are pure, so they are functions.

## Model

| member | source | states |
|---|---|---|
| `Codegen.Expand` | tagged_union_derive/src/codegen.rs:17-31 | A struct body gives `NotAnEnum` whatever its generics. A generic enum gives `GenericType` whatever its variants. Otherwise the result is success exactly when every variant is a unit or one-field tuple variant. |
| `Codegen.Error.Message` | tagged_union_derive/src/codegen.rs:20-45 | Each refusal reports the exact text of its `bail!`, and every such text is a full sentence ending in a period. |
| `Codegen.MessageInjective` | tagged_union_derive/src/codegen.rs:20-45 | Two refusals have the same message exactly when they are the same refusal. |
| `Codegen.IsGeneric` | tagged_union_derive/src/codegen.rs:59-61 | True exactly when the generics differ from the empty default. Equivalently, when there is some lifetime, some type parameter or some where-predicate. |
| `Codegen.NewTag` | tagged_union_derive/src/codegen.rs:74-87 | `Tag::new` builds a tag that holds exactly the given name and number. |
| `Codegen.TagName` | tagged_union_derive/src/codegen.rs:64-68 | The name is as long as the enum name plus one plus the variant name. It holds the upper-cased enum name, then `_`, then the upper-cased variant name, character by character. |
| `Codegen.GenerateTags` | tagged_union_derive/src/codegen.rs:63-72 | One tag per variant. Tag `i` has number `i` and the name `UPPER(enum)_UPPER(variant i)`. |
| `Codegen.Enumerate` | tagged_union_derive/src/codegen.rs:66-71 | Numbering from a start position gives tag `i` the number `start + i` and the prefixed upper-cased name of variant `i`. |
| `Codegen.ShapeError` | tagged_union_derive/src/codegen.rs:42-46 | A struct variant gets the struct-variant error. A tuple variant with too many fields gets the multi-field error. |
| `Codegen.PayloadTy` | tagged_union_derive/src/codegen.rs:48-51 | The key a filed variant goes under: `()` for a unit variant, and the type of its one field for a tuple variant. |
| `Codegen.NoEmptyTupleReachedIff` | tagged_union_derive/src/codegen.rs:40-48 | The loop never indexes an empty field list exactly when every zero-field tuple variant has a rejected variant before it. |
| `Codegen.AdmissibleIff` | tagged_union_derive/src/codegen.rs:17-28 | A struct or a generic type is always admitted. A non-generic enum is admitted exactly when its tag numbers fit in `u32` (the `as u32` cast at line 70 does not truncate) and every zero-field tuple variant comes after a rejected variant (the `fields[0]` at line 48 is never reached on one). |
| `Codegen.Push` | tagged_union_derive/src/codegen.rs:48-51 | Filing a name under a key appends it to that key's entry, creating the entry if it is missing. Other entries stay the same. |
| `Codegen.FirstRejected` | tagged_union_derive/src/codegen.rs:40-46 | Returns the position of a rejected variant with no rejected variant before it. |
| `Codegen.PrefixReachesNoEmptyTuple` | tagged_union_derive/src/codegen.rs:48 | If the loop never indexes an empty field list over a declaration, it never does over any prefix of it. |
| `Codegen.TypemapOutcome` | tagged_union_derive/src/codegen.rs:36-57 | Fails exactly when some variant is a struct variant or a multi-field tuple variant, wherever it is. The error is the first such variant's. On success every variant is a unit or one-field tuple variant. |
| `Codegen.OutcomeSnoc` | tagged_union_derive/src/codegen.rs:40-54 | One more loop iteration keeps an earlier error. Otherwise it bails on a rejected variant, or files the variant's name under its payload type. |
| `Codegen.ReachesSnoc` | tagged_union_derive/src/codegen.rs:40-48 | One more variant at the end is reached without indexing an empty field list exactly when the earlier variants are, and the new one is not a zero-field tuple variant unless the loop has already bailed. |
| `Codegen.ErrorIgnoresRest` | tagged_union_derive/src/codegen.rs:42-46 | Once a prefix of the variants is rejected, the whole declaration fails with that prefix's error, whatever comes after. |
| `Codegen.TypemapStep` | tagged_union_derive/src/codegen.rs:43-52 | A loop pass over a variant that is not rejected files it under its payload type, and the result after that pass is the map with the name pushed. |
| `Codegen.TypemapBail` | tagged_union_derive/src/codegen.rs:42-46 | A loop pass that reaches a rejected variant fixes the result of the whole call: that variant's error. |
| `Codegen.TypemapFor` | tagged_union_derive/src/codegen.rs:36-57 | The loop that mutates the map returns exactly `TypemapOutcome` of its input. Its invariant: after `i` passes the map is `TypemapOutcome` of the first `i` variants. |
| `Ascii.UpperChar` | tagged_union_derive/src/codegen.rs:64 | The result is never a lower-case letter. Lower-case ASCII letters move to upper case and every other character is unchanged. |
| `Ascii.Upper` | tagged_union_derive/src/codegen.rs:64-68 | Keeps the length and upper-cases each character in place. |
| `Ascii.UpperAppend` | tagged_union_derive/src/codegen.rs:68 | Upper-casing a concatenation is concatenating the upper-cased parts. |
| `TagLemmas.TagNumbersDense` | tagged_union_derive/src/codegen.rs:66-71 | The set of tag numbers is exactly `0..N` for `N` variants. |
| `TagLemmas.TagNameParts` | tagged_union_derive/src/codegen.rs:64-68 | A tag name splits back into the upper-cased enum name, `_`, and the upper-cased variant name. |
| `TagLemmas.TagNamesUpperCase` | tagged_union_derive/src/codegen.rs:63-72 | No tag constant name contains a lower-case letter. |
| `TagLemmas.TagNameIsUpperJoined` | tagged_union_derive/src/codegen.rs:64-68 | A tag name is the upper-casing of `enum_variant`. |
| `TagLemmas.TagNameClashIff` | tagged_union_derive/src/codegen.rs:64-68 | Within one enum, two tag names are equal exactly when the upper-cased variant names are equal. |
| `TagLemmas.TagNamesDistinctIff` | tagged_union_derive/src/codegen.rs:63-72 | The tag names are pairwise distinct exactly when the upper-cased variant names are. |
| `TagLemmas.TagsIgnoreShape` | tagged_union_derive/src/codegen.rs:63-72 | Tags depend only on the variant names. A struct variant gets a tag like any other variant. |
| `TagLemmas.TagForVariantExample` | tagged_union_derive/src/codegen.rs:104-118 | `enum Foo { Halt, Move(usize), Wait { secs: i64 } }` gets `FOO_HALT = 0`, `FOO_MOVE = 1` and `FOO_WAIT = 2`. |
| `TagLemmas.TagNameClashExample` | tagged_union_derive/src/codegen.rs:63-72 | Variants `a` and `A` both get the name `FOO_A`, with different numbers. |
| `TypemapLemmas.EntryAppend` | tagged_union_derive/src/codegen.rs:40-56 | The reference entry of a split declaration is the prefix's entry followed by the suffix's entry. |
| `TypemapLemmas.EntryMembership` | tagged_union_derive/src/codegen.rs:40-56 | A name is in the reference entry for `t` exactly when some variant with that name carries `t`. |
| `TypemapLemmas.PayloadTypesSnoc` | tagged_union_derive/src/codegen.rs:48-52 | One more filed variant adds exactly its payload type to the payload types that occur. |
| `TypemapLemmas.OutcomeKeys` | tagged_union_derive/src/codegen.rs:40-56 | On success the keys are exactly the payload types that occur. |
| `TypemapLemmas.OutcomeEntries` | tagged_union_derive/src/codegen.rs:40-56 | On success, for every type, the entry found under it (empty when it is not a key) equals the reference entry: all variants with that payload type, in declaration order, and no others. |
| `TypemapLemmas.FiledUnderPayload` | tagged_union_derive/src/codegen.rs:38-52 | On success each unit variant's name is in the `()` entry. Each tuple variant has one field, and its name is in the entry for that field's type. |
| `TypemapLemmas.NameInOneEntry` | tagged_union_derive/src/codegen.rs:40-56 | On success, with distinct variant names, a name is in an entry exactly when that entry is its own payload type's. |
| `TypemapLemmas.EntryOrder` | tagged_union_derive/src/codegen.rs:40-56 | Of two variants carrying the same type, the one declared earlier comes earlier in the reference entry for that type. |
| `TypemapLemmas.DeclarationOrder` | tagged_union_derive/src/codegen.rs:40-56 | On success, of two variants with the same payload type, the one declared earlier comes earlier in the shared entry. |
| `TypemapLemmas.TotalLengthRemove` | tagged_union_derive/src/codegen.rs:7 | The summed entry length does not depend on the order keys are visited in. Removing a key subtracts exactly its entry's length. |
| `TypemapLemmas.TotalLengthPush` | tagged_union_derive/src/codegen.rs:48-51 | Filing one name raises the summed entry length by one. |
| `TypemapLemmas.OutcomeTotalLength` | tagged_union_derive/src/codegen.rs:40-56 | On success the entry lengths sum to the number of variants. |
| `TypemapLemmas.GenerateTypemapExample` | tagged_union_derive/src/codegen.rs:120-137 | `enum Foo { Halt, Move(usize), Wait(Bar) }` gives `{ () => [Halt], usize => [Move], Bar => [Wait] }`. |
| `TypemapLemmas.SharedPayloadExample` | tagged_union_derive/src/codegen.rs:48 | `enum Foo { A(u32), B(u32) }` gives the single entry `u32 => [A, B]`. |
| `TypemapLemmas.SpellingExample` | tagged_union_derive/src/codegen.rs:48 | `A(u32)` and `B((u32))` give two entries, because keys are compared as written. |
| `TypemapLemmas.RejectionExamples` | tagged_union_derive/src/codegen.rs:42-46 | `A(u32, u32)` is refused with the multi-field error. A struct variant after a unit variant is refused with the struct error. |
| `ExpandLemmas.ExpandPropagatesTypemapError` | tagged_union_derive/src/codegen.rs:27-28 | A non-generic enum fails exactly when the type map fails, and with the same error. |
| `ExpandLemmas.ExpandConsistent` | tagged_union_derive/src/codegen.rs:27-28 | On success there is one tag per variant. Tag `i` is numbered `i` and named by the naming rule. Variant `i` is filed under its payload type. The entry lengths sum to the tag count. |
| `ExpandLemmas.ExpandExamples` | tagged_union_derive/src/codegen.rs:18-25 | `struct Foo { x: u32 }` gives `NotAnEnum`. `enum Foo<T> { A(T), B() }` gives `GenericType`, because the generic check comes before the variants are inspected. |

## Behaviour the code has, and what it does not check

The model follows the code in each case below.

- Tag name clashes: two variants whose names upper-case alike, such as `a` and `A`, get the same tag name. The code reports no error for this (no duplicate-name check exists), so the emitted constants would collide. `TagLemmas.TagNameClashExample` shows `a` and `A` both getting `FOO_A`, and `TagLemmas.TagNamesDistinctIff` states exactly when names clash.
- Type identity: payloads are grouped by the syntax tree of their type, compared structurally as the hash-map key, not by the type they denote. Two spellings of one type, `u32` and `(u32)`, get two entries (`TypemapLemmas.SpellingExample`).
- Key order: the map is a `HashMap`, so the order of its keys is unspecified, and the model uses an unordered `map`. The order of names inside each entry is kept and proved.
- Payload types: a raw C-compatible union can only safely hold trivially copyable types, but the code does not check the payload types at all.
- Order of work: the tags are built for every variant, struct variants included, before `typemap_for` rejects any variant shape. Tag building cannot fail, so the outcome is the same as checking shapes first.

## Left out

- Everything after the analysis: the union and tagged-struct layout, the tag constants as emitted tokens, and `as_tagged` / `from_tagged` with their round-trip and invalid-tag laws. The source never implements these; `expand` reaches `unimplemented!()` at tagged_union_derive/src/codegen.rs:30.
- Codegen.Expand: returns the analysis (tags and type map) where the source then panics at `unimplemented!()`.
- The proc-macro entry point (tagged_union_derive/src/lib.rs). It converts tokens to and from strings, calls the external parser, and unwraps or panics. This is host plumbing over libraries that are not part of this model.
- The `TaggedUnion` trait and `InvalidTag` struct (src/lib.rs). They are declarations with no behaviour.
- The usage example (src/example.rs).
- Parsing and token emission by `syn` and `quote`. The model starts from an already parsed `DeriveInput`. It keeps only what the code reads: no attributes, visibility or explicit discriminants.
- Ascii.Upper: models ASCII upper-casing only. Unicode `to_uppercase` can change a string's length (`ß` becomes `SS`), and that is not modelled.
- Codegen.TypemapFor: requires that no zero-field tuple variant (`A()`) is reached before a rejection. The source would panic indexing `fields[0]` there, and the panic is not modelled.
- Codegen.GenerateTags: requires at most 2^32 variants, so the `i as u32` cast never truncates.
- Codegen.TypemapOutcome: the map is a Dafny `map`, so hashing and iteration order are not modelled.
- `Ty`: tuples, paths and parenthesised types are modelled structurally. Every other syntactic form is kept as its text, because the code only compares types for equality.
- Error messages: the source's `failure::Error` values are modelled as the `Codegen.Error` datatype. Its `Message` function returns the source's exact texts.
