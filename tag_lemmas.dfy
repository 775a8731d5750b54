/** What tag assignment promises: dense numbering, the naming rule, and when names clash. */
module TagLemmas {
  import opened Wrappers
  import opened Syntax
  import opened Ascii
  import opened Codegen

  /** The set of numbers of a tag list. */
  function Numbers(tags: seq<Tag>): set<int> {
    set t | t in tags :: t.number as int
  }

  /** The tag numbers are exactly `0..N`, one per variant. */
  lemma {:induction false} TagNumbersDense(enumName: string, variants: seq<Variant>)
    requires |variants| <= U32Count
    ensures forall k :: k in Numbers(GenerateTags(enumName, variants)) <==> 0 <= k < |variants|
  {
    var tags := GenerateTags(enumName, variants);
    forall k | 0 <= k < |variants| ensures k in Numbers(tags) {
      assert tags[k] in tags;
    }
  }

  /** A tag name splits back into the upper-cased enum name, the separator and the upper-cased variant name. */
  lemma {:induction false} TagNameParts(enumName: string, variantName: string)
    ensures var n := TagName(enumName, variantName);
            && |n| == |enumName| + 1 + |variantName|
            && n[..|enumName|] == Upper(enumName)
            && n[|enumName|] == '_'
            && n[|enumName| + 1..] == Upper(variantName)
  {
    var n := TagName(enumName, variantName);
    assert n[..|enumName|] == Upper(enumName);
    assert n[|enumName| + 1..] == Upper(variantName);
  }

  /** No tag constant name contains a lower-case letter. */
  lemma {:induction false} TagNamesUpperCase(enumName: string, variants: seq<Variant>)
    requires |variants| <= U32Count
    ensures var tags := GenerateTags(enumName, variants);
            forall i, k :: 0 <= i < |tags| && 0 <= k < |tags[i].name| ==> !IsLower(tags[i].name[k])
  {
    var tags := GenerateTags(enumName, variants);
    forall i, k | 0 <= i < |tags| && 0 <= k < |tags[i].name| ensures !IsLower(tags[i].name[k]) {
      var v := variants[i].ident;
      assert tags[i].name == TagName(enumName, v);
      if k < |enumName| {
        assert tags[i].name[k] == UpperChar(enumName[k]);
      } else if k > |enumName| {
        assert tags[i].name[k] == UpperChar(v[k - |enumName| - 1]);
      }
    }
  }

  /** A tag name is the upper-casing of `enum_variant`. */
  lemma {:induction false} TagNameIsUpperJoined(enumName: string, variantName: string)
    ensures TagName(enumName, variantName) == Upper(enumName + "_" + variantName)
  {
    UpperAppend(enumName + "_", variantName);
    UpperAppend(enumName, "_");
    assert Upper("_") == "_";
  }

  /** Within one enum, two variants get the same tag name exactly when their upper-cased names agree. */
  lemma {:induction false} TagNameClashIff(enumName: string, a: string, b: string)
    ensures TagName(enumName, a) == TagName(enumName, b) <==> Upper(a) == Upper(b)
  {
    TagNameParts(enumName, a);
    TagNameParts(enumName, b);
  }

  /**
   * The tag names are pairwise distinct exactly when the upper-cased variant
   * names are: nothing else in the name can tell two variants apart, and the
   * derive does not check for a clash.
   */
  lemma {:induction false} TagNamesDistinctIff(enumName: string, variants: seq<Variant>)
    requires |variants| <= U32Count
    ensures var tags := GenerateTags(enumName, variants);
            (forall i, j :: 0 <= i < j < |tags| ==> tags[i].name != tags[j].name)
            <==> (forall i, j :: 0 <= i < j < |variants| ==> Upper(variants[i].ident) != Upper(variants[j].ident))
  {
    var tags := GenerateTags(enumName, variants);
    forall i, j | 0 <= i < j < |variants|
      ensures tags[i].name == tags[j].name <==> Upper(variants[i].ident) == Upper(variants[j].ident)
    {
      TagNameClashIff(enumName, variants[i].ident, variants[j].ident);
    }
  }

  /** Tag assignment reads only the names: variants with the same names but other shapes get the same tags. */
  lemma {:induction false} TagsIgnoreShape(enumName: string, variants: seq<Variant>, others: seq<Variant>)
    requires |variants| == |others| <= U32Count
    requires forall i :: 0 <= i < |variants| ==> variants[i].ident == others[i].ident
    ensures GenerateTags(enumName, variants) == GenerateTags(enumName, others)
  {
    var a, b := GenerateTags(enumName, variants), GenerateTags(enumName, others);
    forall i | 0 <= i < |a| ensures a[i] == b[i] {
      assert a[i].number == b[i].number;
    }
  }

  /** The naming rule on the names of `enum Foo { Halt, Move, Wait }`. */
  lemma FooTagNames()
    ensures TagName("Foo", "Halt") == "FOO_HALT"
    ensures TagName("Foo", "Move") == "FOO_MOVE"
    ensures TagName("Foo", "Wait") == "FOO_WAIT"
  {
    var foo := Upper("Foo");
    assert foo == "FOO";
    assert TagName("Foo", "Halt") == "FOO_HALT" by {
      var v := Upper("Halt");
      assert v == "HALT" && foo + "_" + v == "FOO_HALT";
    }
    assert TagName("Foo", "Move") == "FOO_MOVE" by {
      var v := Upper("Move");
      assert v == "MOVE" && foo + "_" + v == "FOO_MOVE";
    }
    var v := Upper("Wait");
    assert v == "WAIT" && foo + "_" + v == "FOO_WAIT";
  }

  /** `enum Foo { Halt, Move(usize), Wait { secs: i64 } }` gets `FOO_HALT = 0`, `FOO_MOVE = 1`, `FOO_WAIT = 2`. */
  lemma TagForVariantExample()
    ensures GenerateTags("Foo", [
              Variant("Halt", Unit),
              Variant("Move", Tuple([Field(None, Path(["usize"]))])),
              Variant("Wait", Struct([Field(Some("secs"), Path(["i64"]))]))])
            == [Tag("FOO_HALT", 0), Tag("FOO_MOVE", 1), Tag("FOO_WAIT", 2)]
  {
    var tags := GenerateTags("Foo", [
              Variant("Halt", Unit),
              Variant("Move", Tuple([Field(None, Path(["usize"]))])),
              Variant("Wait", Struct([Field(Some("secs"), Path(["i64"]))]))]);
    assert tags[0].name == TagName("Foo", "Halt");
    assert tags[1].name == TagName("Foo", "Move");
    assert tags[2].name == TagName("Foo", "Wait");
    FooTagNames();
  }

  /** Variants `a` and `A` of `enum Foo` both get the tag name `FOO_A`; the derive lets this through. */
  lemma TagNameClashExample()
    ensures var tags := GenerateTags("Foo", [Variant("a", Unit), Variant("A", Unit)]);
            tags[0].name == tags[1].name == "FOO_A" && tags[0].number != tags[1].number
  {
    assert Upper("a") == "A";
    assert Upper("A") == "A";
    assert Upper("Foo") == "FOO";
  }
}
