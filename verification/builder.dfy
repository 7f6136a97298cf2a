/** Declaring attributes: `attribute`, `alias_fields` and `build_type_from`
    of concrete.rb and interface.rb.

    An attribute is declared with a list of descriptors and an options hash.
    `alias:` and `aliases:` are taken out of the options first; `default:` is
    applied next, and whatever options remain become constraints on top. The
    type is therefore `constrained(default(union of the descriptors))`, each
    layer present only when asked for (`Compose`).

    The two files differ in three ways. concrete.rb returns a list (one
    nested struct class when a block is given, nothing when there are no
    descriptors); interface.rb falls back to the `any` type when there are no
    descriptors; and interface.rb makes each alias a copy of the reader named
    like the class instead of the field (interface.rb:152, see
    `DeclareInterfaceAsWritten`).
 */
module Builder {
  import opened Values
  import opened Schema
  import opened Construct
  import opened Descriptors
  import UnionDesign

  /** The options of an attribute declaration. Every key other than
      `alias:`, `aliases:` and `default:` is a constraint, kept in order. */
  datatype Options = Options(
    alias: Option<string>,
    aliases: seq<string>,
    default: Option<DefaultSpec>,
    rules: seq<Constraint>)

  /** `aliases << options.delete(:alias)`: the explicit alias goes last. */
  function AliasNames(o: Options): seq<string> {
    if o.alias.Some? then o.aliases + [o.alias.value] else o.aliases
  }

  /** The intended layering: the default around the base type, and the
      constraints around that. */
  function Compose(t: Type, d: Option<DefaultSpec>, rules: seq<Constraint>): Type {
    var base := if d.Some? then Default(t, d.value) else t;
    if |rules| == 0 then base else Constrained(base, rules)
  }

  /** `constrains.map(&:to_type).reduce(:|)`: nil for no descriptors. */
  function UnionOfDescs(descs: seq<Desc>, reg: Registry): (r: Result<Option<Type>>)
    ensures |descs| == 0 ==> r == Ok(None)
    ensures |descs| > 0 ==> (r.Ok? <==> ItemTypes(descs, reg).Some?)
    ensures |descs| > 0 && r.Ok? ==> r.value == Some(UnionAll(ItemTypes(descs, reg).value))
    ensures r.Err? ==> r.error.ArgumentError?
  {
    var rs := seq(|descs|, i requires 0 <= i < |descs| => ToType(descs[i], reg));
    assert forall i :: 0 <= i < |descs| ==> rs[i] == ToType(descs[i], reg);
    match Collect(rs)
    case Err(e) => Err(e)
    case Ok(ts) => Ok(UnionOf(ts))
  }

  /** How much of the options is still to be applied: the default counts
      two, the constraints one. */
  function Pending(d: Option<DefaultSpec>, rules: seq<Constraint>): nat {
    (if d.Some? then 2 else 0) + (if |rules| > 0 then 1 else 0)
  }

  /** A single type given as a descriptor is that type. */
  lemma SingleTyped(t: Type, reg: Registry)
    ensures UnionOfDescs([Typed(t)], reg) == Ok(Some(t))
  {
    assert ItemTypes([Typed(t)], reg).value == [t];
  }

  /** `build_type_from` of concrete.rb (lines 96-116). Each recursive call
      carries strictly fewer options. */
  function BuildConcrete(descs: seq<Desc>, d: Option<DefaultSpec>, rules: seq<Constraint>,
                         block: Option<Node>, reg: Registry): (r: Result<seq<Type>>)
    decreases Pending(d, rules)
    ensures block.Some? ==> r == Ok([StructT(block.value)])
    ensures block.None? && |descs| == 0 ==> r == Ok([])
    ensures block.None? && |descs| > 0 ==> (r.Ok? <==> ItemTypes(descs, reg).Some?)
    ensures block.None? && |descs| > 0 && r.Ok? ==>
              r.value == [Compose(UnionAll(ItemTypes(descs, reg).value), d, rules)]
    ensures r.Err? ==> r.error.ArgumentError?
  {
    if block.Some? then Ok([StructT(block.value)])
    else
      match UnionOfDescs(descs, reg)
      case Err(e) => Err(e)
      case Ok(None) => Ok([])
      case Ok(Some(t)) =>
        if d.Some? then
          SingleTyped(Default(t, d.value), reg);
          BuildConcrete([Typed(Default(t, d.value))], None, rules, None, reg)
        else if |rules| == 0 then Ok([t])
        else
          SingleTyped(Constrained(t, rules), reg);
          BuildConcrete([Typed(Constrained(t, rules))], None, [], None, reg)
  }

  /** `build_type_from` of interface.rb (lines 157-173): no descriptors
      means the `any` type. */
  function BuildInterface(descs: seq<Desc>, d: Option<DefaultSpec>, rules: seq<Constraint>,
                          reg: Registry): (r: Result<Type>)
    decreases 2 * Pending(d, rules) + (if |descs| == 0 then 1 else 0)
    ensures |descs| == 0 ==> r == Ok(Compose(Any, d, rules))
    ensures |descs| > 0 ==> (r.Ok? <==> ItemTypes(descs, reg).Some?)
    ensures |descs| > 0 && r.Ok? ==> r.value == Compose(UnionAll(ItemTypes(descs, reg).value), d, rules)
    ensures r.Err? ==> r.error.ArgumentError?
  {
    match UnionOfDescs(descs, reg)
    case Err(e) => Err(e)
    case Ok(None) =>
      SingleTyped(Any, reg);
      BuildInterface([Typed(Any)], d, rules, reg)
    case Ok(Some(t)) =>
      if d.Some? then
        SingleTyped(Default(t, d.value), reg);
        BuildInterface([Typed(Default(t, d.value))], None, rules, reg)
      else if |rules| == 0 then Ok(t)
      else
        SingleTyped(Constrained(t, rules), reg);
        BuildInterface([Typed(Constrained(t, rules))], None, [], reg)
  }

  /** With descriptors and no block the two builders agree. */
  lemma BuildersAgree(descs: seq<Desc>, d: Option<DefaultSpec>, rules: seq<Constraint>, reg: Registry)
    requires |descs| > 0
    ensures BuildConcrete(descs, d, rules, None, reg).Ok? <==> BuildInterface(descs, d, rules, reg).Ok?
    ensures BuildInterface(descs, d, rules, reg).Ok? ==>
              BuildConcrete(descs, d, rules, None, reg).value == [BuildInterface(descs, d, rules, reg).value]
  {
  }

  // -------------------------------------------------------------- readers

  /** The field a reader method of the class returns: an attribute's own
      name, or an alias recorded on an attribute. */
  function ReaderTarget(attrs: seq<Attr>, name: string): (r: Option<string>)
    ensures (exists i :: 0 <= i < |attrs| && attrs[i].name == name) ==> r == Some(name)
    ensures r.Some? ==> exists i :: 0 <= i < |attrs| && attrs[i].name == r.value
                                    && (r.value == name || name in attrs[i].aliases)
    ensures r.None? <==> forall i :: 0 <= i < |attrs| ==> attrs[i].name != name && name !in attrs[i].aliases
  {
    if exists i :: 0 <= i < |attrs| && attrs[i].name == name then Some(name)
    else AliasOwner(attrs, name)
  }

  /** The first attribute listing `name` as an alias. */
  function AliasOwner(attrs: seq<Attr>, name: string): (r: Option<string>)
    ensures r.Some? ==> exists i :: 0 <= i < |attrs| && attrs[i].name == r.value && name in attrs[i].aliases
    ensures r.None? <==> forall i :: 0 <= i < |attrs| ==> name !in attrs[i].aliases
  {
    if |attrs| == 0 then None
    else if name in attrs[0].aliases then Some(attrs[0].name)
    else
      var r := AliasOwner(attrs[1..], name);
      assert forall i :: 1 <= i < |attrs| ==> attrs[i] == attrs[1..][i - 1];
      r
  }

  /** An alias that no attribute is called, listed only on attributes called
      `field`, reads `field`. */
  lemma AliasedReader(attrs: seq<Attr>, field: string, a: string)
    requires a != field
    requires forall i :: 0 <= i < |attrs| ==> attrs[i].name != a
    requires forall i :: 0 <= i < |attrs| && a in attrs[i].aliases ==> attrs[i].name == field
    requires exists i :: 0 <= i < |attrs| && a in attrs[i].aliases
    ensures ReaderTarget(attrs, a) == ReaderTarget(attrs, field) == Some(field)
  {
  }

  /** Calling the reader `name` on an instance of the class. */
  function Read(n: Node, inst: Value, name: string): (r: Result<Value>)
    ensures ReaderTarget(n.attrs, name).None? ==> r == Err(UndefinedMethod(name))
    ensures r.Ok? ==> inst.Instance? && Lookup(inst.attrs, Sym(ReaderTarget(n.attrs, name).value)) == Some(r.value)
  {
    match ReaderTarget(n.attrs, name)
    case None => Err(UndefinedMethod(name))
    case Some(f) =>
      if !inst.Instance? then Err(UndefinedMethod(f))
      else
        match Lookup(inst.attrs, Sym(f))
        case Some(x) => Ok(x)
        case None => Err(UndefinedMethod(f))
  }

  /** Records `names` as aliases on the attribute called `f`. */
  function AddAliases(attrs: seq<Attr>, f: string, names: seq<string>): (r: seq<Attr>)
    ensures |r| == |attrs|
    ensures forall i :: 0 <= i < |attrs| ==> r[i].name == attrs[i].name && r[i].ty == attrs[i].ty
    ensures forall i :: 0 <= i < |attrs| ==>
              r[i].aliases == (if attrs[i].name == f then attrs[i].aliases + names else attrs[i].aliases)
  {
    seq(|attrs|, i requires 0 <= i < |attrs| =>
      if attrs[i].name == f then attrs[i].(aliases := attrs[i].aliases + names) else attrs[i])
  }

  /** `aliases.each { |a| alias_method a, target }`: each alias becomes a
      copy of the reader `target`, which must exist when there is at least
      one alias. */
  function AttachAliases(n: Node, target: string, names: seq<string>): (r: Result<Node>)
    ensures |names| == 0 ==> r == Ok(n)
    ensures |names| > 0 && ReaderTarget(n.attrs, target).None? ==> r == Err(UndefinedMethod(target))
    ensures r.Ok? ==> r.value == n.(attrs := r.value.attrs)
                      && |r.value.attrs| == |n.attrs|
                      && forall i :: 0 <= i < |n.attrs| ==> r.value.attrs[i].name == n.attrs[i].name
                                                            && r.value.attrs[i].ty == n.attrs[i].ty
  {
    if |names| == 0 then Ok(n)
    else
      match ReaderTarget(n.attrs, target)
      case None => Err(UndefinedMethod(target))
      case Some(f) => Ok(n.(attrs := AddAliases(n.attrs, f, names)))
  }

  /** No two attributes share a name. */
  predicate UniqueNames(attrs: seq<Attr>) {
    forall i, j :: 0 <= i < j < |attrs| ==> attrs[i].name != attrs[j].name
  }

  /** Where the attribute `field` goes: the index of the first attribute
      already called so, or the end of the list. */
  function FieldIndex(attrs: seq<Attr>, field: string): (k: nat)
    ensures k <= |attrs|
    ensures k < |attrs| ==> attrs[k].name == field
    ensures forall i :: 0 <= i < k ==> attrs[i].name != field
  {
    if |attrs| == 0 || attrs[0].name == field then 0
    else 1 + FieldIndex(attrs[1..], field)
  }

  /** The class with the attribute `field` of type `t`. A new name is added
      at the end; a name the class already has (one it inherits) keeps its
      place and its aliases and takes the new type, the way dry-struct merges
      a subclass's schema keys over its superclass's. */
  function WithAttribute(n: Node, field: string, t: Type): (r: Node)
    ensures r == n.(attrs := r.attrs)
    ensures var k := FieldIndex(n.attrs, field);
            && |r.attrs| == (if k < |n.attrs| then |n.attrs| else |n.attrs| + 1)
            && r.attrs[k] == Attr(field, t, if k < |n.attrs| then n.attrs[k].aliases else [])
            && forall i :: 0 <= i < |n.attrs| && i != k ==> r.attrs[i] == n.attrs[i]
    ensures UniqueNames(n.attrs) ==> UniqueNames(r.attrs)
  {
    var k := FieldIndex(n.attrs, field);
    if k < |n.attrs| then n.(attrs := n.attrs[k := Attr(field, t, n.attrs[k].aliases)])
    else n.(attrs := n.attrs + [Attr(field, t, [])])
  }

  /** `m` is `n` after declaring the attribute `field` of type `t` with the
      aliases `names`: a new field goes at the end and a field the class
      already has keeps its place and its earlier aliases; every other
      attribute keeps its name and type, and nothing else about the class
      changes. */
  predicate Declared(n: Node, m: Node, field: string, t: Type, names: seq<string>) {
    var k := FieldIndex(n.attrs, field);
    && m == n.(attrs := m.attrs)
    && |m.attrs| == (if k < |n.attrs| then |n.attrs| else |n.attrs| + 1)
    && m.attrs[k] == Attr(field, t, (if k < |n.attrs| then n.attrs[k].aliases else []) + names)
    && forall i :: 0 <= i < |n.attrs| && i != k ==>
         && m.attrs[i].name == n.attrs[i].name
         && m.attrs[i].ty == n.attrs[i].ty
         && (n.attrs[i].name == field || m.attrs[i].aliases == n.attrs[i].aliases)
  }

  /** Adding the attribute and then its aliases, with the field as the
      alias target, always succeeds and declares the attribute. */
  lemma AttachDeclares(n: Node, field: string, t: Type, names: seq<string>)
    ensures AttachAliases(WithAttribute(n, field, t), field, names).Ok?
    ensures Declared(n, AttachAliases(WithAttribute(n, field, t), field, names).value, field, t, names)
    ensures UniqueNames(n.attrs) ==> UniqueNames(AttachAliases(WithAttribute(n, field, t), field, names).value.attrs)
  {
    var w := WithAttribute(n, field, t);
    var k := FieldIndex(n.attrs, field);
    assert w.attrs[k].name == field;
  }

  /** `attribute` of concrete.rb (lines 68-72, 83-93): build the type, add
      the attribute, then make each alias a reader of the field. An
      attribute left without a type is refused, as dry-struct does. */
  function DeclareConcrete(n: Node, field: string, descs: seq<Desc>, o: Options,
                           block: Option<Node>, reg: Registry): (r: Result<Node>)
    ensures r.Ok? <==> block.Some? || (|descs| > 0 && ItemTypes(descs, reg).Some?)
    ensures block.None? && |descs| == 0 ==> r == Err(ArgumentError(NoType))
    ensures block.Some? ==> r.Ok? && Declared(n, r.value, field, StructT(block.value), AliasNames(o))
    ensures block.None? && r.Ok? ==>
              && ItemTypes(descs, reg).Some?
              && Declared(n, r.value, field, Compose(UnionAll(ItemTypes(descs, reg).value), o.default, o.rules),
                          AliasNames(o))
    ensures r.Ok? && UniqueNames(n.attrs) ==> UniqueNames(r.value.attrs)
  {
    var ts :- BuildConcrete(descs, o.default, o.rules, block, reg);
    if |ts| == 0 then Err(ArgumentError(NoType))
    else
      AttachDeclares(n, field, ts[0], AliasNames(o));
      AttachAliases(WithAttribute(n, field, ts[0]), field, AliasNames(o))
  }

  /** `attribute` of interface.rb as written (lines 110-114, 144-154): the
      alias target is `name`, the class's name, not the field. */
  function DeclareInterfaceAsWritten(n: Node, field: string, descs: seq<Desc>, o: Options,
                                     reg: Registry): (r: Result<Node>)
    ensures var k := FieldIndex(n.attrs, field);
            r.Ok? ==> && BuildInterface(descs, o.default, o.rules, reg).Ok?
                      && |r.value.attrs| == (if k < |n.attrs| then |n.attrs| else |n.attrs| + 1)
                      && r.value.attrs[k].name == field
                      && r.value.attrs[k].ty == BuildInterface(descs, o.default, o.rules, reg).value
  {
    var t :- BuildInterface(descs, o.default, o.rules, reg);
    AttachAliases(WithAttribute(n, field, t), UnionDesign.DisplayName(n), AliasNames(o))
  }

  /** `attribute` of interface.rb with the alias target corrected to the
      field, as in concrete.rb:91. */
  function DeclareInterface(n: Node, field: string, descs: seq<Desc>, o: Options,
                            reg: Registry): (r: Result<Node>)
    ensures r.Ok? <==> BuildInterface(descs, o.default, o.rules, reg).Ok?
    ensures r.Ok? ==> Declared(n, r.value, field, BuildInterface(descs, o.default, o.rules, reg).value, AliasNames(o))
    ensures r.Ok? && UniqueNames(n.attrs) ==> UniqueNames(r.value.attrs)
  {
    var t :- BuildInterface(descs, o.default, o.rules, reg);
    AttachDeclares(n, field, t, AliasNames(o));
    AttachAliases(WithAttribute(n, field, t), field, AliasNames(o))
  }

  /** An alias that names nothing else reads the field it was declared for,
      whether the field is new or one the class already had. */
  lemma AliasReadsField(n: Node, field: string, descs: seq<Desc>, o: Options,
                        block: Option<Node>, reg: Registry, a: string, inst: Value)
    requires DeclareConcrete(n, field, descs, o, block, reg).Ok?
    requires forall i :: 0 <= i < |n.attrs| ==> n.attrs[i].name != a && a !in n.attrs[i].aliases
    requires a != field && a in AliasNames(o)
    ensures var m := DeclareConcrete(n, field, descs, o, block, reg).value;
            Read(m, inst, a) == Read(m, inst, field)
  {
    var m := DeclareConcrete(n, field, descs, o, block, reg).value;
    var t := m.attrs[FieldIndex(n.attrs, field)].ty;
    DeclaredAliasOwners(n, m, field, t, AliasNames(o), a);
  }

  /** With the alias target corrected, an alias of the union design reads
      the field it was declared for. */
  lemma InterfaceAliasReadsField(n: Node, field: string, descs: seq<Desc>, o: Options,
                                 reg: Registry, a: string, inst: Value)
    requires DeclareInterface(n, field, descs, o, reg).Ok?
    requires forall i :: 0 <= i < |n.attrs| ==> n.attrs[i].name != a && a !in n.attrs[i].aliases
    requires a != field && a in AliasNames(o)
    ensures var m := DeclareInterface(n, field, descs, o, reg).value;
            Read(m, inst, a) == Read(m, inst, field)
  {
    var m := DeclareInterface(n, field, descs, o, reg).value;
    DeclaredAliasOwners(n, m, field, BuildInterface(descs, o.default, o.rules, reg).value, AliasNames(o), a);
  }

  /** After a declaration of `field` with the alias `a`, `a` is no name and
      is listed only on attributes called `field`. */
  lemma DeclaredAliasOwners(n: Node, m: Node, field: string, t: Type, names: seq<string>, a: string)
    requires forall i :: 0 <= i < |n.attrs| ==> n.attrs[i].name != a && a !in n.attrs[i].aliases
    requires a != field && a in names
    requires Declared(n, m, field, t, names)
    ensures ReaderTarget(m.attrs, a) == ReaderTarget(m.attrs, field) == Some(field)
  {
    var k := FieldIndex(n.attrs, field);
    assert a in m.attrs[k].aliases;
    assert forall i :: 0 <= i < |m.attrs| ==> m.attrs[i].name != a by {
      forall i | 0 <= i < |m.attrs|
        ensures m.attrs[i].name != a
      {
        if i != k {
          assert m.attrs[i].name == n.attrs[i].name;
        }
      }
    }
    AliasedReader(m.attrs, field, a);
  }

  /** The schema is strict and aliases are not keys of it: an input that
      uses an alias as a key is rejected. */
  lemma AliasIsNotAKey(n: Node, field: string, descs: seq<Desc>, o: Options,
                       block: Option<Node>, reg: Registry, a: string, input: Value, L: Leaves)
    requires DeclareConcrete(n, field, descs, o, block, reg).Ok?
    requires forall i :: 0 <= i < |n.attrs| ==> n.attrs[i].name != a
    requires a != field
    requires input.Hash? && exists i :: 0 <= i < |input.entries| && input.entries[i].0 == Sym(a)
    ensures RunSchema(DeclareConcrete(n, field, descs, o, block, reg).value, input, L).Err?
  {
    var m := DeclareConcrete(n, field, descs, o, block, reg).value;
    var k := FieldIndex(n.attrs, field);
    assert forall i :: 0 <= i < |m.attrs| ==> m.attrs[i].name != a by {
      forall i | 0 <= i < |m.attrs|
        ensures m.attrs[i].name != a
      {
        if i != k {
          assert m.attrs[i].name == n.attrs[i].name;
        }
      }
    }
    UnnamedKeyRejected(m, a, input, L);
  }

  /** The strict schema rejects a hash with a key that names no attribute. */
  lemma UnnamedKeyRejected(m: Node, a: string, input: Value, L: Leaves)
    requires forall i :: 0 <= i < |m.attrs| ==> m.attrs[i].name != a
    requires input.Hash? && exists i :: 0 <= i < |input.entries| && input.entries[i].0 == Sym(a)
    ensures RunSchema(m, input, L).Err?
  {
    assert !KnownKey(m, Sym(a));
  }

  /** As written, declaring an aliased attribute on a class with no reader
      named like the class fails, where the corrected declaration
      succeeds. */
  lemma AsWrittenAliasFails(n: Node, field: string, descs: seq<Desc>, o: Options, reg: Registry)
    requires BuildInterface(descs, o.default, o.rules, reg).Ok?
    requires |AliasNames(o)| > 0
    requires field != UnionDesign.DisplayName(n)
    requires ReaderTarget(n.attrs, UnionDesign.DisplayName(n)).None?
    ensures DeclareInterfaceAsWritten(n, field, descs, o, reg) == Err(UndefinedMethod(UnionDesign.DisplayName(n)))
    ensures DeclareInterface(n, field, descs, o, reg).Ok?
  {
    var name := UnionDesign.DisplayName(n);
    var m := WithAttribute(n, field, BuildInterface(descs, o.default, o.rules, reg).value);
    var k := FieldIndex(n.attrs, field);
    assert forall i :: 0 <= i < |m.attrs| ==> m.attrs[i].name != name && name !in m.attrs[i].aliases by {
      forall i | 0 <= i < |m.attrs|
        ensures m.attrs[i].name != name && name !in m.attrs[i].aliases
      {
        if i != k {
          assert m.attrs[i] == n.attrs[i];
        }
      }
    }
    assert ReaderTarget(m.attrs, name).None?;
  }

  /** The concrete case of the divergence: `Person` declares `name` with the
      alias `nick` and no descriptor. */
  lemma AsWrittenAliasExample(reg: Registry)
    ensures var person := Node("Person", RootKind, [], [], map[]);
            var o := Options(Some("nick"), [], None, []);
            && DeclareInterfaceAsWritten(person, "name", [], o, reg) == Err(UndefinedMethod("Person"))
            && DeclareInterface(person, "name", [], o, reg).Ok?
  {
    var person := Node("Person", RootKind, [], [], map[]);
    var o := Options(Some("nick"), [], None, []);
    assert AliasNames(o) == ["nick"];
    AsWrittenAliasFails(person, "name", [], o, reg);
  }

  /** `RubyDeveloper` re-declares the `language` it inherits from `Developer`
      with the literal type `"ruby"` (spec/dry/interface/integration/
      abstract_spec.rb:195-219): the class keeps its two attributes in their
      places, and only the type of `language` changes. */
  lemma RedeclaredAttributeOverrides(reg: Registry)
    ensures var dev := Node("RubyDeveloper", UnitKind,
                            [Attr("name", Named("string"), []), Attr("language", Named("string"), [])],
                            [], map[]);
            DeclareConcrete(dev, "language", [Typed(Exactly(Str("ruby")))], Options(None, [], None, []), None, reg)
              == Ok(dev.(attrs := [Attr("name", Named("string"), []), Attr("language", Exactly(Str("ruby")), [])]))
  {
    var dev := Node("RubyDeveloper", UnitKind,
                    [Attr("name", Named("string"), []), Attr("language", Named("string"), [])], [], map[]);
    var o := Options(None, [], None, []);
    var ds := [Typed(Exactly(Str("ruby")))];
    assert FieldIndex(dev.attrs, "language") == 1;
    assert ToType(ds[0], reg) == Ok(Exactly(Str("ruby")));
    assert ItemTypes(ds, reg).value == [Exactly(Str("ruby"))];
    assert AliasNames(o) == [];
    assert UnionAll(ItemTypes(ds, reg).value) == Exactly(Str("ruby"));
    assert Compose(Exactly(Str("ruby")), None, []) == Exactly(Str("ruby"));
    var r := DeclareConcrete(dev, "language", ds, o, None, reg);
    assert r.Ok?;
    var m := r.value;
    assert Declared(dev, m, "language", Exactly(Str("ruby")), []);
    assert |m.attrs| == 2;
    assert m.attrs[0] == Attr("name", Named("string"), []);
    assert m.attrs[1] == Attr("language", Exactly(Str("ruby")), []);
    assert m.attrs == [Attr("name", Named("string"), []), Attr("language", Exactly(Str("ruby")), [])];
  }
}
