/** Laws of type checking that the rest of the model relies on.

    - A `reduce(:|)` union tries its members left to right. A member that
      fails with an error of the coercion family passes the value on to the
      next one; the first member that accepts, or that raises any other
      error, decides the answer, and when every member fails softly the last
      one's error stands.
    - A type term built only from leaves that hand values back unchanged,
      arrays, maps, unions, defaults and constraints (no struct class and no
      class constructor inside) hands back exactly the value it was given
      when it accepts it.
 */
module TypeLaws {
  import opened Values
  import opened Schema
  import opened Construct

  /** `t` turns `v` down softly: it fails with an error of the coercion
      family, which a union answers by trying its next member. */
  predicate Refuses(t: Type, v: Value, L: Leaves) {
    Check(t, v, L).Err? && IsCoercion(Check(t, v, L).error)
  }

  /** `t` fails on `v` with an error a union does not catch. */
  predicate Raises(t: Type, v: Value, L: Leaves) {
    Check(t, v, L).Err? && !IsCoercion(Check(t, v, L).error)
  }

  /** Index of the first member of `ts` that does not turn `v` down softly
      (it accepts `v`, or raises), or `|ts|`. */
  function FirstDecisive(ts: seq<Type>, v: Value, L: Leaves): (k: nat)
    ensures k <= |ts|
    ensures forall j :: 0 <= j < k ==> Refuses(ts[j], v, L)
    ensures k < |ts| ==> !Refuses(ts[k], v, L)
  {
    if |ts| == 0 then 0
    else if !Refuses(ts[0], v, L) then 0
    else 1 + FirstDecisive(ts[1..], v, L)
  }

  /** The union of `ts` accepts `v`: its first decisive member accepts it. */
  predicate UnionAccepts(ts: seq<Type>, v: Value, L: Leaves) {
    var k := FirstDecisive(ts, v, L);
    k < |ts| && Check(ts[k], v, L).Ok?
  }

  /** When every member but the last turns the value down softly, the union
      answers as its last member. */
  lemma {:induction false} UnionAllFallsThrough(ts: seq<Type>, v: Value, L: Leaves)
    requires |ts| > 0
    requires forall j :: 0 <= j < |ts| - 1 ==> Refuses(ts[j], v, L)
    ensures Check(UnionAll(ts), v, L) == Check(ts[|ts| - 1], v, L)
  {
    if |ts| > 1 {
      var init := ts[..|ts| - 1];
      UnionAllFallsThrough(init, v, L);
      assert Refuses(init[|init| - 1], v, L);
    }
  }

  /** The first member that accepts the value or raises decides the union's
      answer. */
  lemma {:induction false} UnionAllStopsAt(ts: seq<Type>, v: Value, L: Leaves, i: int)
    requires 0 <= i < |ts|
    requires !Refuses(ts[i], v, L)
    requires forall j :: 0 <= j < i ==> Refuses(ts[j], v, L)
    ensures Check(UnionAll(ts), v, L) == Check(ts[i], v, L)
  {
    if |ts| > 1 {
      var init := ts[..|ts| - 1];
      if i < |ts| - 1 {
        UnionAllStopsAt(init, v, L, i);
      } else {
        UnionAllFallsThrough(init, v, L);
      }
    }
  }

  /** The union of a list of types answers as its first decisive member, or
      as its last member when every member turns the value down softly. It
      accepts exactly when that member does; when no member raises, that is
      exactly when some member accepts. */
  lemma UnionAllResolves(ts: seq<Type>, v: Value, L: Leaves)
    requires |ts| > 0
    ensures var k := FirstDecisive(ts, v, L);
            Check(UnionAll(ts), v, L) == Check(ts[if k < |ts| then k else |ts| - 1], v, L)
    ensures Check(UnionAll(ts), v, L).Ok? <==> UnionAccepts(ts, v, L)
    ensures (forall j :: 0 <= j < |ts| ==> !Raises(ts[j], v, L)) ==>
              (Check(UnionAll(ts), v, L).Ok? <==> exists i :: 0 <= i < |ts| && Check(ts[i], v, L).Ok?)
  {
    var k := FirstDecisive(ts, v, L);
    if k < |ts| {
      UnionAllStopsAt(ts, v, L, k);
    } else {
      UnionAllFallsThrough(ts, v, L);
    }
    if forall j :: 0 <= j < |ts| ==> !Raises(ts[j], v, L) {
      if exists i :: 0 <= i < |ts| && Check(ts[i], v, L).Ok? {
        var i :| 0 <= i < |ts| && Check(ts[i], v, L).Ok?;
        assert !Refuses(ts[i], v, L);
        assert k <= i;
        assert !Raises(ts[k], v, L);
      }
    }
  }

  /** A union whose first member raises an error outside the coercion family
      raises it too, although its second member accepts everything: a
      `Value` class with two attributes given a scalar raises ArgumentError
      (interfaces/value.rb:14-16), and `Any` is never tried. */
  lemma UnionStopsAtArgumentError(L: Leaves)
    ensures var pair := Node("Pair", ValueKind,
                             [Attr("left", Any, []), Attr("right", Any, [])], [], map[]);
            Check(Union(StructT(pair), Any), Int(1), L) == Err(ArgumentError(AttributeCount(2)))
  {
    var pair := Node("Pair", ValueKind, [Attr("left", Any, []), Attr("right", Any, [])], [], map[]);
    assert !Descends(pair, "Int") by {
      assert |pair.children| == 0;
    }
    assert RunSchema(pair, Int(1), L).Err?;
    assert AttributeNames(pair) == ["left", "right"];
    assert Check(StructT(pair), Int(1), L) == Err(ArgumentError(AttributeCount(2)));
  }

  /** Every value the registry type `ref` accepts comes back unchanged, as
      for the strict and nominal types. */
  ghost predicate KeepsValues(L: Leaves, ref: string) {
    forall x :: L.coerce(ref, x).Some? ==> L.coerce(ref, x).value == x
  }

  /** An array type accepts exactly the arrays whose every item its member
      type accepts, and holds what the member type returns for each item. It
      rejects an array with the first failing item's error when that error is
      one a union would not catch, and with a constraint error on the whole
      array otherwise. */
  lemma ArrayOfAccepts(m: Type, v: Value, L: Leaves)
    ensures Check(ArrayOf(m), v, L).Ok? <==> v.Arr? && forall i :: 0 <= i < |v.items| ==> Check(m, v.items[i], L).Ok?
    ensures Check(ArrayOf(m), v, L).Ok? ==>
              forall i :: 0 <= i < |v.items| ==> Check(ArrayOf(m), v, L).value.items[i] == Check(m, v.items[i], L).value
    ensures v.Arr? && Check(ArrayOf(m), v, L).Err? ==>
              exists i :: 0 <= i < |v.items| && Check(m, v.items[i], L).Err?
                          && (forall j :: 0 <= j < i ==> Check(m, v.items[j], L).Ok?)
                          && var e := Check(m, v.items[i], L).error;
                             Check(ArrayOf(m), v, L).error == (if IsCoercion(e) then ConstraintError(v) else e)
  {
    if v.Arr? {
      var rs := ItemResults(m, v.items, L);
      ArrayOfCollects(m, v, rs, L);
      var k := CollectedArray(v, rs, Check(ArrayOf(m), v, L));
      if Check(ArrayOf(m), v, L).Err? {
        assert Check(m, v.items[k], L) == rs[k];
      }
    }
  }

  /** What an array answer built from the item results `rs` says about
      them; `k` is the first failing item when there is one. */
  lemma CollectedArray(v: Value, rs: seq<Result<Value>>, r: Result<Value>) returns (k: nat)
    requires v.Arr? && |rs| == |v.items|
    requires Collect(rs).Ok? ==> r == Ok(Arr(Collect(rs).value))
    requires Collect(rs).Err? ==>
               var e := Collect(rs).error;
               r == Err(if IsCoercion(e) then ConstraintError(v) else e)
    ensures r.Ok? <==> forall i :: 0 <= i < |rs| ==> rs[i].Ok?
    ensures r.Ok? ==> |r.value.items| == |rs| && forall i :: 0 <= i < |rs| ==> r.value.items[i] == rs[i].value
    ensures r.Err? ==> k < |rs| && rs[k].Err? && (forall j :: 0 <= j < k ==> rs[j].Ok?)
                       && r.error == (if IsCoercion(rs[k].error) then ConstraintError(v) else rs[k].error)
  {
    k := 0;
    if Collect(rs).Err? {
      k :| 0 <= k < |rs| && rs[k] == Err(Collect(rs).error) && forall j :: 0 <= j < k ==> rs[j].Ok?;
    }
  }

  /** An array type's answer is the item results collected. */
  lemma ArrayOfCollects(m: Type, v: Value, rs: seq<Result<Value>>, L: Leaves)
    requires v.Arr? && |rs| == |v.items|
    requires forall i :: 0 <= i < |v.items| ==> rs[i] == Check(m, v.items[i], L)
    ensures Collect(rs).Ok? ==> Check(ArrayOf(m), v, L) == Ok(Arr(Collect(rs).value))
    ensures Collect(rs).Err? ==>
              var e := Collect(rs).error;
              Check(ArrayOf(m), v, L) == Err(if IsCoercion(e) then ConstraintError(v) else e)
  {
    assert rs == ItemResults(m, v.items, L);
  }

  /** A map type whose key and value types fail on the entries only with
      coercion-family errors rejects the hash with a constraint error on the
      whole of it. */
  lemma MapOfWrapsCoercion(kt: Type, vt: Type, v: Value, L: Leaves)
    requires v.Hash?
    requires forall i :: 0 <= i < |v.entries| ==>
               (Check(kt, v.entries[i].0, L).Err? ==> IsCoercion(Check(kt, v.entries[i].0, L).error))
               && (Check(vt, v.entries[i].1, L).Err? ==> IsCoercion(Check(vt, v.entries[i].1, L).error))
    ensures Check(MapOf(kt, vt), v, L).Err? ==> Check(MapOf(kt, vt), v, L).error == ConstraintError(v)
  {
    var rs := EntryResults(kt, vt, v.entries, L);
    assert forall i :: 0 <= i < |rs| ==> rs[i].Err? ==> IsCoercion(rs[i].error);
    CollectedCoercion(rs);
  }

  /** Collecting answers whose every error is in the coercion family gives
      such an error, if any. */
  lemma CollectedCoercion<T>(rs: seq<Result<T>>)
    requires forall i :: 0 <= i < |rs| ==> rs[i].Err? ==> IsCoercion(rs[i].error)
    ensures Collect(rs).Err? ==> IsCoercion(Collect(rs).error)
  {
    if Collect(rs).Err? {
      var i :| 0 <= i < |rs| && rs[i] == Err(Collect(rs).error);
    }
  }

  /** No struct class and no class constructor occurs in the type, and every
      registry type in it hands values back unchanged. */
  ghost predicate Verbatim(t: Type, L: Leaves) {
    match t
    case Named(r) => KeepsValues(L, r)
    case ArrayOf(m) => Verbatim(m, L)
    case MapOf(k, w) => Verbatim(k, L) && Verbatim(w, L)
    case Union(a, b) => Verbatim(a, L) && Verbatim(b, L)
    case Default(b, _) => Verbatim(b, L)
    case Constrained(b, _) => Verbatim(b, L)
    case Constructs(_) => false
    case StructT(_) => false
    case _ => true
  }

  /** A verbatim type that accepts a value returns that very value. */
  lemma {:induction false} CheckVerbatim(t: Type, v: Value, L: Leaves)
    requires Verbatim(t, L)
    ensures Check(t, v, L).Ok? ==> Check(t, v, L).value == v
  {
    match t
    case ArrayOf(m) =>
      if Check(t, v, L).Ok? {
        ArrayOfAccepts(m, v, L);
        var xs := Check(t, v, L).value.items;
        forall i | 0 <= i < |v.items|
          ensures xs[i] == v.items[i]
        {
          CheckVerbatim(m, v.items[i], L);
        }
        assert xs == v.items;
      }
    case MapOf(kt, vt) =>
      if v.Hash? && Check(t, v, L).Ok? {
        var rs := EntryResults(kt, vt, v.entries, L);
        var ps := Collect(rs).value;
        forall i | 0 <= i < |v.entries|
          ensures ps[i] == v.entries[i]
        {
          assert rs[i].Ok?;
          CheckVerbatim(kt, v.entries[i].0, L);
          CheckVerbatim(vt, v.entries[i].1, L);
        }
        assert ps == v.entries;
      }
    case Union(a, b) =>
      CheckVerbatim(a, v, L);
      CheckVerbatim(b, v, L);
    case Default(b, _) =>
      CheckVerbatim(b, v, L);
    case Constrained(b, _) =>
      CheckVerbatim(b, v, L);
    case _ =>
  }

  /** A verbatim type that rejects a value raises a ConstraintError. */
  lemma {:induction false} VerbatimRejectsWithConstraint(t: Type, v: Value, L: Leaves)
    requires Verbatim(t, L)
    ensures Check(t, v, L).Err? ==> Check(t, v, L).error.ConstraintError?
  {
    match t
    case ArrayOf(m) =>
      if v.Arr? && Check(t, v, L).Err? {
        ArrayOfAccepts(m, v, L);
        var i :| 0 <= i < |v.items| && Check(m, v.items[i], L).Err?
                 && Check(t, v, L).error == (var e := Check(m, v.items[i], L).error;
                                             if IsCoercion(e) then ConstraintError(v) else e);
        VerbatimRejectsWithConstraint(m, v.items[i], L);
      }
    case MapOf(kt, vt) =>
      if v.Hash? {
        forall i | 0 <= i < |v.entries|
          ensures Check(kt, v.entries[i].0, L).Err? ==> IsCoercion(Check(kt, v.entries[i].0, L).error)
          ensures Check(vt, v.entries[i].1, L).Err? ==> IsCoercion(Check(vt, v.entries[i].1, L).error)
        {
          VerbatimRejectsWithConstraint(kt, v.entries[i].0, L);
          VerbatimRejectsWithConstraint(vt, v.entries[i].1, L);
        }
        MapOfWrapsCoercion(kt, vt, v, L);
      }
    case Union(a, b) =>
      VerbatimRejectsWithConstraint(a, v, L);
      VerbatimRejectsWithConstraint(b, v, L);
    case Default(b, _) =>
      VerbatimRejectsWithConstraint(b, v, L);
    case Constrained(b, _) =>
      VerbatimRejectsWithConstraint(b, v, L);
    case _ =>
  }
}
