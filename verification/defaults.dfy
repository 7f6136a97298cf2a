/** Defaults and constraints on an attribute (concrete/extensions/default.rb,
    and the layering `build_type_from` produces).

    An attribute declared with `default:` and further options has the type
    `Compose(t, Some(spec), rules)`. A supplied value is checked by `t` and
    the constraints and never sees the default; an absent key produces the
    default, which is validated exactly like a supplied value would be.
 */
module Defaults {
  import opened Values
  import opened Schema
  import opened Construct
  import opened TypeLaws
  import opened Descriptors
  import opened Builder

  /** A proc default and a plain object default that produce the same value
      give the same attribute value. */
  lemma ProcAndFixedAgree(y: Value, t: Type, L: Leaves)
    ensures Evaluate(Proc(y), t, L) == Evaluate(Fixed(y), t, L)
    ensures Evaluate(Fixed(y), t, L) == Check(t, y, L)
  {
  }

  /** A default of the right shape is handed back as it is; one the type
      rejects is a ConstraintError. */
  lemma VerbatimDefault(s: DefaultSpec, t: Type, L: Leaves)
    requires Verbatim(t, L)
    ensures Evaluate(s, t, L).Ok? ==> Evaluate(s, t, L).value == Produced(s)
    ensures Check(t, Produced(s), L).Err? ==> Evaluate(s, t, L).Err?
    ensures Evaluate(s, t, L).Err? ==> Evaluate(s, t, L).error.ConstraintError?
  {
    CheckVerbatim(t, Produced(s), L);
    VerbatimRejectsWithConstraint(t, Produced(s), L);
  }

  /** A supplied value goes through the base type and then the constraints;
      the default plays no part. */
  lemma ComposedCheck(t: Type, d: Option<DefaultSpec>, rules: seq<Constraint>, x: Value, L: Leaves)
    ensures Check(Compose(t, d, rules), x, L).Ok? <==>
              Check(t, x, L).Ok? && AllHold(L, rules, Check(t, x, L).value)
    ensures Check(Compose(t, d, rules), x, L).Ok? ==>
              Check(Compose(t, d, rules), x, L).value == Check(t, x, L).value
    ensures Check(t, x, L).Err? ==> Check(Compose(t, d, rules), x, L) == Check(t, x, L)
  {
    var base := if d.Some? then Default(t, d.value) else t;
    assert Check(base, x, L) == Check(t, x, L);
    if |rules| > 0 {
      assert Compose(t, d, rules) == Constrained(base, rules);
      ConstrainedCheck(base, rules, x, L);
    }
  }

  /** A constrained type checks its base and then the constraints. */
  lemma ConstrainedCheck(b: Type, rules: seq<Constraint>, x: Value, L: Leaves)
    ensures Check(Constrained(b, rules), x, L).Ok? <==> Check(b, x, L).Ok? && AllHold(L, rules, Check(b, x, L).value)
    ensures Check(Constrained(b, rules), x, L).Ok? ==> Check(Constrained(b, rules), x, L).value == Check(b, x, L).value
    ensures Check(b, x, L).Err? ==> Check(Constrained(b, rules), x, L) == Check(b, x, L)
  {
  }

  /** An absent key takes the default, validated by the base type and the
      constraints; with no default and a plain base type it is a missing key. */
  lemma ComposedMissing(name: string, t: Type, d: Option<DefaultSpec>, rules: seq<Constraint>, L: Leaves)
    ensures d.Some? ==>
              (Missing(name, Compose(t, d, rules), L).Ok? <==>
                 Check(t, Produced(d.value), L).Ok? && AllHold(L, rules, Check(t, Produced(d.value), L).value))
    ensures d.Some? && Missing(name, Compose(t, d, rules), L).Ok? ==>
              Missing(name, Compose(t, d, rules), L).value == Check(t, Produced(d.value), L).value
    ensures d.None? && !t.Default? && !t.Constrained? ==>
              Missing(name, Compose(t, d, rules), L) == Err(MissingKey(name))
  {
    if d.Some? {
      assert Evaluate(d.value, t, L) == Check(t, Produced(d.value), L);
      assert Missing(name, Default(t, d.value), L) == Check(t, Produced(d.value), L);
    }
  }

  /** Both paths of an attribute with a default: the supplied value when the
      key is present, the default when it is absent. */
  lemma AttributeWithDefault(a: Attr, t: Type, s: DefaultSpec, rules: seq<Constraint>,
                             entries: seq<(Value, Value)>, L: Leaves)
    requires a.ty == Compose(t, Some(s), rules)
    ensures Lookup(entries, Sym(a.name)).Some? ==>
              var x := Lookup(entries, Sym(a.name)).value;
              (Field(a, entries, L).Ok? <==> Check(t, x, L).Ok? && AllHold(L, rules, Check(t, x, L).value))
    ensures Lookup(entries, Sym(a.name)).None? ==>
              (Field(a, entries, L).Ok? <==>
                 Check(t, Produced(s), L).Ok? && AllHold(L, rules, Check(t, Produced(s), L).value))
    ensures Lookup(entries, Sym(a.name)).None? && Field(a, entries, L).Ok? ==>
              Field(a, entries, L).value == (Sym(a.name), Check(t, Produced(s), L).value)
  {
    ComposedCheck(t, Some(s), rules, if Lookup(entries, Sym(a.name)).Some? then Lookup(entries, Sym(a.name)).value else Nil, L);
    ComposedMissing(a.name, t, Some(s), rules, L);
  }

  /** The `min_size: 1` constraint. */
  function MinSize(): Constraint {
    Constraint("min_size", Int(1))
  }

  /** `attribute :field, [String], min_size: 1, default: ["string"]`. */
  function ListField(): Attr {
    Attr("field", Compose(ArrayOf(Named("string")), Some(Fixed(Arr([Str("string")]))), [MinSize()]), [])
  }

  /** The declaration builds exactly that attribute, given a registry that
      maps the `String` class to the `string` type. */
  lemma ListFieldDeclared(reg: Registry)
    requires "String" in reg.classes && reg.classes["String"] == Named("string")
    ensures var o := Options(None, [], Some(Fixed(Arr([Str("string")]))), [MinSize()]);
            var n := Node("Post", RootKind, [], [], map[]);
            DeclareInterface(n, "field", [ArrayD([Cls("String")])], o, reg) == Ok(n.(attrs := [ListField()]))
  {
    var o := Options(None, [], Some(Fixed(Arr([Str("string")]))), [MinSize()]);
    ListFieldType(reg);
    assert AliasNames(o) == [];
    var n := Node("Post", RootKind, [], [], map[]);
    assert WithAttribute(n, "field", ListField().ty) == n.(attrs := [ListField()]);
  }

  /** The descriptor `[String]` with the default and the rule builds the
      field's type. */
  lemma ListFieldType(reg: Registry)
    requires "String" in reg.classes && reg.classes["String"] == Named("string")
    ensures BuildInterface([ArrayD([Cls("String")])], Some(Fixed(Arr([Str("string")]))), [MinSize()], reg) == Ok(ListField().ty)
  {
    var ds := [ArrayD([Cls("String")])];
    assert ToType(Cls("String"), reg) == Ok(Named("string"));
    var inner := ItemTypes([Cls("String")], reg);
    assert inner.Some? && inner.value[0] == Named("string");
    assert inner.value == [Named("string")];
    ArrayDescShape([Cls("String")], reg);
    assert ToType(ArrayD([Cls("String")]), reg) == Ok(ArrayOf(Named("string")));
    var outer := ItemTypes(ds, reg);
    assert outer.Some? && outer.value[0] == ArrayOf(Named("string"));
    assert outer.value == [ArrayOf(Named("string"))];
    assert UnionAll(outer.value) == ArrayOf(Named("string"));
  }

  /** With the key absent the default list is used. */
  lemma ListFieldDefault(L: Leaves)
    requires L.coerce("string", Str("string")) == Some(Str("string")) && L.holds(MinSize(), Arr([Str("string")]))
    ensures Field(ListField(), [], L) == Ok((Sym("field"), Arr([Str("string")])))
  {
    var t := ArrayOf(Named("string"));
    var dflt := Arr([Str("string")]);
    ArrayOfAccepts(Named("string"), dflt, L);
    assert Check(t, dflt, L).value.items == dflt.items;
    AttributeWithDefault(ListField(), t, Fixed(dflt), [MinSize()], [], L);
  }

  /** A supplied empty list is rejected by the constraint, although the
      array type alone accepts it. */
  lemma ListFieldRejectsEmpty(L: Leaves)
    requires !L.holds(MinSize(), Arr([]))
    ensures Field(ListField(), [(Sym("field"), Arr([]))], L).Err?
  {
    var t := ArrayOf(Named("string"));
    EmptyArrayAccepted(Named("string"), L);
    assert Lookup([(Sym("field"), Arr([]))], Sym("field")) == Some(Arr([]));
    assert !AllHold(L, [MinSize()], Arr([])) by {
      assert [MinSize()][0] == MinSize();
    }
    AttributeWithDefault(ListField(), t, Fixed(Arr([Str("string")])), [MinSize()], [(Sym("field"), Arr([]))], L);
  }

  /** A supplied list of strings is kept, not replaced by the default. */
  lemma ListFieldKeepsSupplied(L: Leaves)
    requires L.coerce("string", Str("a")) == Some(Str("a")) && L.coerce("string", Str("b")) == Some(Str("b"))
    requires L.holds(MinSize(), Arr([Str("a"), Str("b")]))
    ensures Field(ListField(), [(Sym("field"), Arr([Str("a"), Str("b")]))], L)
              == Ok((Sym("field"), Arr([Str("a"), Str("b")])))
  {
    var t := ArrayOf(Named("string"));
    var two := Arr([Str("a"), Str("b")]);
    ArrayOfAccepts(Named("string"), two, L);
    assert Check(t, two, L).value.items == two.items;
    ComposedCheck(t, Some(Fixed(Arr([Str("string")]))), [MinSize()], two, L);
  }

  /** A supplied list holding a symbol is rejected by the member type. */
  lemma ListFieldRejectsSymbol(L: Leaves)
    requires L.coerce("string", Sym("symbol")).None?
    ensures Field(ListField(), [(Sym("field"), Arr([Sym("symbol")]))], L).Err?
  {
    var t := ArrayOf(Named("string"));
    var bad := Arr([Sym("symbol")]);
    ArrayOfAccepts(Named("string"), bad, L);
    assert !Check(Named("string"), bad.items[0], L).Ok?;
    ComposedCheck(t, Some(Fixed(Arr([Str("string")]))), [MinSize()], bad, L);
  }
}
