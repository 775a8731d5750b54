/**
 * What the type map promises on success, stated against an independent
 * reference: the entry for a payload type is the list of the names of the
 * variants carrying it, filtered from the declaration in order.
 */
module TypemapLemmas {
  import opened Wrappers
  import opened Syntax
  import opened Codegen

  /** The names of the filed variants whose payload type is `t`, in declaration order. */
  function Entry(variants: seq<Variant>, t: Ty): seq<string> {
    if variants == [] then []
    else (if Accepted(variants[0]) && PayloadTy(variants[0]) == t then [variants[0].ident] else [])
         + Entry(variants[1..], t)
  }

  /** The payload types that occur in the declaration. */
  function PayloadTypes(variants: seq<Variant>): set<Ty>
    requires AllAccepted(variants)
  {
    set i | 0 <= i < |variants| :: PayloadTy(variants[i])
  }

  /** The entry under `t`, empty when `t` is not a key. */
  function Lookup(m: TypeMap, t: Ty): seq<string> {
    if t in m then m[t] else []
  }

  /** Filing a name under `key` appends it to the entry for `key` and to no other. */
  lemma {:induction false} LookupPush(m: TypeMap, key: Ty, name: string, t: Ty)
    ensures Lookup(Push(m, key, name), t) == Lookup(m, t) + (if t == key then [name] else [])
  {
  }

  /** Some key of a non-empty map; which one is left open. */
  ghost function PickedKey(m: TypeMap): (k: Ty)
    requires |m| != 0
    ensures k in m
  {
    var k :| k in m; k
  }

  /** Sum of the entry lengths of a type map, whatever order the keys are visited in. */
  ghost function TotalLength(m: TypeMap): nat
    decreases |m|
  {
    if |m| == 0 then 0
    else
      var k := PickedKey(m);
      assert |m - {k}| == |m| - 1 by { assert (m - {k}).Keys == m.Keys - {k}; }
      |m[k]| + TotalLength(m - {k})
  }

  /** The entry of a split declaration is the prefix's entry followed by the suffix's. */
  lemma {:induction false} EntryAppend(a: seq<Variant>, b: seq<Variant>, t: Ty)
    ensures Entry(a + b, t) == Entry(a, t) + Entry(b, t)
  {
    if a == [] {
      assert a + b == b;
    } else {
      var ab, rest := a + b, a[1..];
      var head := if Accepted(a[0]) && PayloadTy(a[0]) == t then [a[0].ident] else [];
      assert ab[0] == a[0] && ab[1..] == rest + b;
      EntryAppend(rest, b, t);
      calc {
        Entry(ab, t);
        head + Entry(rest + b, t);
        head + (Entry(rest, t) + Entry(b, t));
        (head + Entry(rest, t)) + Entry(b, t);
      }
    }
  }

  /** A name is in the entry for `t` exactly when some variant of that name carries `t`. */
  lemma {:induction false} EntryMembership(variants: seq<Variant>, t: Ty, name: string)
    requires AllAccepted(variants)
    ensures name in Entry(variants, t) <==>
            exists j :: 0 <= j < |variants| && variants[j].ident == name && PayloadTy(variants[j]) == t
  {
    if variants != [] {
      var rest := variants[1..];
      EntryMembership(rest, t, name);
      if exists j :: 0 <= j < |rest| && rest[j].ident == name && PayloadTy(rest[j]) == t {
        var j :| 0 <= j < |rest| && rest[j].ident == name && PayloadTy(rest[j]) == t;
        assert variants[j + 1] == rest[j];
      }
      if exists j :: 0 <= j < |variants| && variants[j].ident == name && PayloadTy(variants[j]) == t {
        var j :| 0 <= j < |variants| && variants[j].ident == name && PayloadTy(variants[j]) == t;
        if j > 0 {
          assert rest[j - 1] == variants[j];
        }
      }
    }
  }

  /** The payload types of a declaration with one more filed variant at its end. */
  lemma PayloadTypesSnoc(prefix: seq<Variant>, v: Variant)
    requires AllAccepted(prefix) && Accepted(v)
    ensures AllAccepted(prefix + [v])
    ensures PayloadTypes(prefix + [v]) == PayloadTypes(prefix) + {PayloadTy(v)}
  {
    var all := prefix + [v];
    assert forall i :: 0 <= i < |prefix| ==> all[i] == prefix[i];
    assert all[|prefix|] == v;
    forall t | t in PayloadTypes(all) ensures t in PayloadTypes(prefix) + {PayloadTy(v)} {
      var i :| 0 <= i < |all| && PayloadTy(all[i]) == t;
    }
    forall t | t in PayloadTypes(prefix) ensures t in PayloadTypes(all) {
      var i :| 0 <= i < |prefix| && PayloadTy(prefix[i]) == t;
      assert PayloadTy(all[i]) == t;
    }
    assert PayloadTy(all[|prefix|]) == PayloadTy(v);
  }

  /** On success the map has one key per payload type that occurs in the declaration. */
  lemma {:induction false} OutcomeKeys(variants: seq<Variant>)
    requires NoEmptyTupleReached(variants) && TypemapOutcome(variants).Ok?
    ensures AllAccepted(variants)
    ensures TypemapOutcome(variants).value.Keys == PayloadTypes(variants)
    decreases |variants|
  {
    if variants != [] {
      var n := |variants| - 1;
      var prefix, v := variants[..n], variants[n];
      assert variants == prefix + [v];
      OutcomeSnoc(prefix, v);
      OutcomeKeys(prefix);
      PayloadTypesSnoc(prefix, v);
    }
  }

  /** The reference entry of a declaration with one more variant at its end. */
  lemma {:induction false} EntrySnoc(prefix: seq<Variant>, v: Variant, t: Ty)
    requires Accepted(v)
    ensures Entry(prefix + [v], t) == Entry(prefix, t) + (if PayloadTy(v) == t then [v.ident] else [])
  {
    EntryAppend(prefix, [v], t);
    assert [v][1..] == [];
  }

  /**
   * On success the entry under every type is the reference entry: every
   * variant carrying that type, in declaration order, and no other; a type
   * that no variant carries is not a key.
   */
  lemma {:induction false} OutcomeEntries(variants: seq<Variant>)
    requires NoEmptyTupleReached(variants) && TypemapOutcome(variants).Ok?
    ensures AllAccepted(variants)
    ensures forall t :: Lookup(TypemapOutcome(variants).value, t) == Entry(variants, t)
    decreases |variants|
  {
    if variants != [] {
      var n := |variants| - 1;
      var prefix, v := variants[..n], variants[n];
      assert variants == prefix + [v];
      OutcomeSnoc(prefix, v);
      OutcomeEntries(prefix);
      var m0 := TypemapOutcome(prefix).value;
      var m := TypemapOutcome(variants).value;
      assert m == Push(m0, PayloadTy(v), v.ident);
      forall t ensures Lookup(m, t) == Entry(variants, t) {
        EntrySnoc(prefix, v, t);
        LookupPush(m0, PayloadTy(v), v.ident, t);
      }
    }
  }

  /**
   * On success a unit variant's name is filed under `()` and a one-field
   * tuple variant's name under the type of its field.
   */
  lemma {:induction false} FiledUnderPayload(variants: seq<Variant>, i: nat)
    requires NoEmptyTupleReached(variants) && TypemapOutcome(variants).Ok?
    requires i < |variants|
    ensures variants[i].data.Unit? ==>
              UnitTy in TypemapOutcome(variants).value
              && variants[i].ident in TypemapOutcome(variants).value[UnitTy]
    ensures variants[i].data.Tuple? ==>
              |variants[i].data.fields| == 1
              && variants[i].data.fields[0].ty in TypemapOutcome(variants).value
              && variants[i].ident in TypemapOutcome(variants).value[variants[i].data.fields[0].ty]
  {
    OutcomeKeys(variants);
    OutcomeEntries(variants);
    EntryMembership(variants, PayloadTy(variants[i]), variants[i].ident);
  }

  /**
   * On success, when variant names are distinct (as they are in an enum), a
   * variant's name is in exactly one entry: the one for its payload type.
   */
  lemma {:induction false} NameInOneEntry(variants: seq<Variant>, i: nat, t: Ty)
    requires NoEmptyTupleReached(variants) && TypemapOutcome(variants).Ok?
    requires forall j, k :: 0 <= j < k < |variants| ==> variants[j].ident != variants[k].ident
    requires i < |variants| && t in TypemapOutcome(variants).value
    ensures AllAccepted(variants)
    ensures variants[i].ident in TypemapOutcome(variants).value[t] <==> t == PayloadTy(variants[i])
  {
    OutcomeEntries(variants);
    EntryMembership(variants, t, variants[i].ident);
  }

  /** Of two variants carrying `t`, the one declared first comes first in the reference entry for `t`. */
  lemma {:induction false} EntryOrder(variants: seq<Variant>, i: nat, j: nat, t: Ty)
    requires AllAccepted(variants) && i < j < |variants|
    requires PayloadTy(variants[i]) == t && PayloadTy(variants[j]) == t
    ensures var e := Entry(variants, t);
            exists p, q :: 0 <= p < q < |e| && e[p] == variants[i].ident && e[q] == variants[j].ident
  {
    var front, back := variants[..j], variants[j..];
    assert variants == front + back;
    assert AllAccepted(front) by {
      forall k | 0 <= k < j ensures Accepted(front[k]) { assert front[k] == variants[k]; }
    }
    EntryAppend(front, back, t);
    var ef, eb := Entry(front, t), Entry(back, t);
    assert front[i] == variants[i];
    EntryMembership(front, t, variants[i].ident);
    var p :| 0 <= p < |ef| && ef[p] == variants[i].ident;
    assert back[0] == variants[j];
    assert eb[0] == variants[j].ident;
    var e := ef + eb;
    assert e[p] == variants[i].ident && e[|ef|] == variants[j].ident;
  }

  /**
   * On success, of two variants carrying the same payload type, the one
   * declared first is listed first in the shared entry.
   */
  lemma {:induction false} DeclarationOrder(variants: seq<Variant>, i: nat, j: nat)
    requires NoEmptyTupleReached(variants) && TypemapOutcome(variants).Ok?
    requires i < j < |variants|
    requires AllAccepted(variants) && PayloadTy(variants[i]) == PayloadTy(variants[j])
    ensures PayloadTy(variants[j]) in TypemapOutcome(variants).value
    ensures var e := TypemapOutcome(variants).value[PayloadTy(variants[j])];
            exists p, q :: 0 <= p < q < |e| && e[p] == variants[i].ident && e[q] == variants[j].ident
  {
    var t := PayloadTy(variants[j]);
    OutcomeKeys(variants);
    OutcomeEntries(variants);
    assert TypemapOutcome(variants).value[t] == Lookup(TypemapOutcome(variants).value, t);
    EntryOrder(variants, i, j, t);
  }

  /** Taking any key out of a type map takes away exactly that entry's length. */
  lemma {:induction false} TotalLengthRemove(m: TypeMap, k: Ty)
    requires k in m
    ensures TotalLength(m) == |m[k]| + TotalLength(m - {k})
    decreases |m|
  {
    var k' := PickedKey(m);
    if k' != k {
      var a, b := m - {k'}, m - {k};
      assert a.Keys == m.Keys - {k'} && b.Keys == m.Keys - {k};
      assert k in a && k' in b;
      TotalLengthRemove(a, k);
      TotalLengthRemove(b, k');
      assert a - {k} == b - {k'};
    }
  }

  /** Filing a name under `key` leaves the rest of the map as it was. */
  lemma PushElsewhere(m: TypeMap, key: Ty, name: string)
    ensures Push(m, key, name) - {key} == m - {key}
  {
    var a, b := Push(m, key, name) - {key}, m - {key};
    assert a.Keys == b.Keys;
    forall k | k in a ensures a[k] == b[k] {}
  }

  /** Filing one more name adds one to the total length. */
  lemma {:induction false} TotalLengthPush(m: TypeMap, key: Ty, name: string)
    ensures TotalLength(Push(m, key, name)) == TotalLength(m) + 1
  {
    var m' := Push(m, key, name);
    TotalLengthRemove(m', key);
    PushElsewhere(m, key, name);
    if key in m {
      TotalLengthRemove(m, key);
    } else {
      assert m - {key} == m;
    }
  }

  /** On success the entry lengths sum to the number of variants: every variant is filed once. */
  lemma {:induction false} OutcomeTotalLength(variants: seq<Variant>)
    requires NoEmptyTupleReached(variants) && TypemapOutcome(variants).Ok?
    ensures TotalLength(TypemapOutcome(variants).value) == |variants|
    decreases |variants|
  {
    if variants != [] {
      var n := |variants| - 1;
      var prefix, v := variants[..n], variants[n];
      assert variants == prefix + [v];
      OutcomeSnoc(prefix, v);
      OutcomeTotalLength(prefix);
      TotalLengthPush(TypemapOutcome(prefix).value, PayloadTy(v), v.ident);
    }
  }

  /** The unit test: `enum Foo { Halt, Move(usize), Wait(Bar) }` maps `()`, `usize` and `Bar` to one name each. */
  lemma GenerateTypemapExample()
    ensures var usize, bar := Path(["usize"]), Path(["Bar"]);
            var variants := [Variant("Halt", Unit),
                             Variant("Move", Tuple([Field(None, usize)])),
                             Variant("Wait", Tuple([Field(None, bar)]))];
            NoEmptyTupleReached(variants)
            && TypemapOutcome(variants) == Ok(map[UnitTy := ["Halt"], usize := ["Move"], bar := ["Wait"]])
  {
    var usize, bar := Path(["usize"]), Path(["Bar"]);
    var halt, move, wait := Variant("Halt", Unit), Variant("Move", Tuple([Field(None, usize)])),
                            Variant("Wait", Tuple([Field(None, bar)]));
    var m1 := map[UnitTy := ["Halt"]];
    var m2 := map[UnitTy := ["Halt"], usize := ["Move"]];
    var m3 := map[UnitTy := ["Halt"], usize := ["Move"], bar := ["Wait"]];
    assert TypemapOutcome([halt]) == Ok(m1) by {
      assert [halt] == [] + [halt];
      assert AllAccepted([halt]);
      AcceptedReachesNoEmptyTuple([halt]);
      OutcomeSnoc([], halt);
      assert [] + ["Halt"] == ["Halt"];
      assert Push(map[], UnitTy, "Halt") == m1;
    }
    assert TypemapOutcome([halt, move]) == Ok(m2) by {
      assert [halt, move] == [halt] + [move];
      assert AllAccepted([halt, move]);
      AcceptedReachesNoEmptyTuple([halt, move]);
      OutcomeSnoc([halt], move);
      assert [] + ["Move"] == ["Move"];
      assert Push(m1, usize, "Move") == m2;
    }
    assert [halt, move, wait] == [halt, move] + [wait];
    assert AllAccepted([halt, move, wait]);
    AcceptedReachesNoEmptyTuple([halt, move, wait]);
    OutcomeSnoc([halt, move], wait);
    assert [] + ["Wait"] == ["Wait"];
    assert Push(m2, bar, "Wait") == m3;
  }

  /** `enum Foo { A(u32), B(u32) }`: one entry `u32 -> [A, B]`. */
  lemma SharedPayloadExample()
    ensures var u32ty := Path(["u32"]);
            var variants := [Variant("A", Tuple([Field(None, u32ty)])), Variant("B", Tuple([Field(None, u32ty)]))];
            NoEmptyTupleReached(variants)
            && TypemapOutcome(variants) == Ok(map[u32ty := ["A", "B"]])
  {
    var u32ty := Path(["u32"]);
    var a, b := Variant("A", Tuple([Field(None, u32ty)])), Variant("B", Tuple([Field(None, u32ty)]));
    assert AllAccepted([a, b]) && AllAccepted([a]);
    AcceptedReachesNoEmptyTuple([a, b]);
    AcceptedReachesNoEmptyTuple([a]);
    assert [a] == [] + [a];
    assert [a, b] == [a] + [b];
    OutcomeSnoc([], a);
    OutcomeSnoc([a], b);
    assert [] + ["A"] == ["A"];
    assert ["A"] + ["B"] == ["A", "B"];
    var m1 := map[u32ty := ["A"]];
    assert TypemapOutcome([a]) == Ok(m1);
    assert Push(m1, u32ty, "B") == map[u32ty := ["A", "B"]];
    assert TypemapOutcome([a, b]) == Ok(map[u32ty := ["A", "B"]]);
  }

  /** Keys are compared as written: `A(u32)` and `B((u32))` land in two entries. */
  lemma SpellingExample()
    ensures var u32ty := Path(["u32"]);
            var variants := [Variant("A", Tuple([Field(None, u32ty)])), Variant("B", Tuple([Field(None, Paren(u32ty))]))];
            NoEmptyTupleReached(variants)
            && TypemapOutcome(variants) == Ok(map[u32ty := ["A"], Paren(u32ty) := ["B"]])
  {
    var u32ty := Path(["u32"]);
    var a, b := Variant("A", Tuple([Field(None, u32ty)])), Variant("B", Tuple([Field(None, Paren(u32ty))]));
    assert AllAccepted([a, b]) && AllAccepted([a]);
    AcceptedReachesNoEmptyTuple([a, b]);
    AcceptedReachesNoEmptyTuple([a]);
    assert [a] == [] + [a];
    assert [a, b] == [a] + [b];
    OutcomeSnoc([], a);
    OutcomeSnoc([a], b);
    assert [] + ["A"] == ["A"] && [] + ["B"] == ["B"];
    assert u32ty != Paren(u32ty);
    assert TypemapOutcome([a]) == Ok(map[u32ty := ["A"]]);
  }

  /** `enum Foo { A(u32, u32) }` is refused, and so is a struct variant after a good one. */
  lemma RejectionExamples()
    ensures var u32ty := Path(["u32"]);
            var pair := [Variant("A", Tuple([Field(None, u32ty), Field(None, u32ty)]))];
            var late := [Variant("Halt", Unit), Variant("Wait", Struct([Field(Some("secs"), Path(["i64"]))]))];
            NoEmptyTupleReached(pair) && NoEmptyTupleReached(late)
            && TypemapOutcome(pair) == Err(MultiFieldTuple)
            && TypemapOutcome(late) == Err(StructVariant)
  {
    var u32ty := Path(["u32"]);
    var pair := [Variant("A", Tuple([Field(None, u32ty), Field(None, u32ty)]))];
    var late := [Variant("Halt", Unit), Variant("Wait", Struct([Field(Some("secs"), Path(["i64"]))]))];
    assert Rejected(pair[0]);
    assert Rejected(late[1]) && !Rejected(late[0]);
    assert FirstRejected(late) == 1;
  }
}
