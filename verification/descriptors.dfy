/** Turning attribute descriptors into types (`to_type`,
    extensions/type.rb).

    A descriptor is whatever may follow an attribute name: a registry
    reference ("strict.string"), a type, a module, a class, a hash or an array
    of descriptors, or any other object. A struct class is a type in its own
    right and is given as `Typed(StructT(...))`.

    The registries dry-types consults are parameters: `refs` holds the types
    `Dry::Types[...]` finds, and `classes` the types the `Types` module holds
    under a class's name (such as the type for `String`). A class missing from
    `classes` is used through its instances and its constructor.
 */
module Descriptors {
  import opened Values
  import opened Schema
  import opened Construct
  import opened TypeLaws

  datatype Desc =
    | Ref(ref: string)                        // "strict.string"
    | Typed(t: Type)                          // a dry type or struct class
    | Mod(name: string)                       // a module such as Enumerable
    | Cls(name: string)                       // a class such as String
    | HashD(entries: seq<(Desc, Desc)>)       // { key => value, ... }
    | ArrayD(items: seq<Desc>)                // [a, b, ...]
    | Other(v: Value)                         // a symbol, nil, a number ...

  datatype Registry = Registry(refs: map<string, Type>, classes: map<string, Type>)

  /** One `Types::Hash.map(k.to_type, v.to_type)` of a hash descriptor. */
  function EntryType(e: (Desc, Desc), reg: Registry): (r: Result<Type>)
    decreases e, 0
    ensures r.Err? ==> r.error.ArgumentError?
    ensures r.Ok? <==> ToType(e.0, reg).Ok? && ToType(e.1, reg).Ok?
    ensures r.Ok? ==> r.value == MapOf(ToType(e.0, reg).value, ToType(e.1, reg).value)
  {
    var k :- ToType(e.0, reg);
    var w :- ToType(e.1, reg);
    Ok(MapOf(k, w))
  }

  function ToType(d: Desc, reg: Registry): (r: Result<Type>)
    decreases d, 1
    ensures r.Err? ==> r.error.ArgumentError?
    ensures d.Typed? ==> r == Ok(d.t)
    ensures d.Other? ==> r == Err(ArgumentError(NotConvertible(d.v)))
    ensures d.Ref? ==> (r.Ok? <==> d.ref in reg.refs)
    ensures d.Ref? && d.ref in reg.refs ==> r == Ok(reg.refs[d.ref])
    ensures d.Mod? ==> r == Ok(Includes(d.name))
    ensures d.Cls? && d.name in reg.classes ==> r == Ok(reg.classes[d.name])
    ensures d.Cls? && d.name !in reg.classes ==> r == Ok(Union(InstanceOf(d.name), Constructs(d.name)))
    ensures d.HashD? && |d.entries| == 0 ==> r == Ok(PlainHash)
    ensures d.ArrayD? && |d.items| == 0 ==> r == Ok(PlainArray)
  {
    match d
    case Ref(s) =>
      if s in reg.refs then Ok(reg.refs[s]) else Err(ArgumentError(UnknownTypeRef(s)))
    case Typed(t) => Ok(t)
    case Mod(m) => Ok(Includes(m))
    case Cls(c) =>
      if c in reg.classes then Ok(reg.classes[c]) else Ok(Union(InstanceOf(c), Constructs(c)))
    case HashD(es) =>
      if |es| == 0 then Ok(PlainHash)
      else
        var rs := seq(|es|, i requires 0 <= i < |es| => EntryType(es[i], reg));
        assert forall i :: 0 <= i < |es| ==> rs[i] == EntryType(es[i], reg);
        var ts :- Collect(rs);
        Ok(UnionAll(ts))
    case ArrayD(ds) =>
      if |ds| == 0 then Ok(PlainArray)
      else
        var rs := seq(|ds|, i requires 0 <= i < |ds| => ToType(ds[i], reg));
        assert forall i :: 0 <= i < |ds| ==> rs[i] == ToType(ds[i], reg);
        var ts :- Collect(rs);
        Ok(ArrayOf(UnionAll(ts)))
    case Other(v) => Err(ArgumentError(NotConvertible(v)))
  }

  /** The member types of a non-empty array descriptor, when all translate. */
  function ItemTypes(ds: seq<Desc>, reg: Registry): (r: Option<seq<Type>>)
    ensures r.Some? <==> forall i :: 0 <= i < |ds| ==> ToType(ds[i], reg).Ok?
    ensures r.Some? ==> |r.value| == |ds| && forall i :: 0 <= i < |ds| ==> r.value[i] == ToType(ds[i], reg).value
  {
    var rs := seq(|ds|, i requires 0 <= i < |ds| => ToType(ds[i], reg));
    assert forall i :: 0 <= i < |ds| ==> rs[i] == ToType(ds[i], reg);
    match Collect(rs)
    case Ok(ts) => Some(ts)
    case Err(_) => None
  }

  /** The map types of a non-empty hash descriptor, when all translate. */
  function EntryTypes(es: seq<(Desc, Desc)>, reg: Registry): (r: Option<seq<Type>>)
    ensures r.Some? <==> forall i :: 0 <= i < |es| ==> EntryType(es[i], reg).Ok?
    ensures r.Some? ==> |r.value| == |es| && forall i :: 0 <= i < |es| ==> r.value[i] == EntryType(es[i], reg).value
  {
    var rs := seq(|es|, i requires 0 <= i < |es| => EntryType(es[i], reg));
    assert forall i :: 0 <= i < |es| ==> rs[i] == EntryType(es[i], reg);
    match Collect(rs)
    case Ok(ts) => Some(ts)
    case Err(_) => None
  }

  /** A non-empty array descriptor translates exactly when all its members
      do, to the array of their union (extensions/type.rb:206-210). */
  lemma ArrayDescShape(ds: seq<Desc>, reg: Registry)
    requires |ds| > 0
    ensures ToType(ArrayD(ds), reg).Ok? <==> ItemTypes(ds, reg).Some?
    ensures ItemTypes(ds, reg).Some? ==> ToType(ArrayD(ds), reg) == Ok(ArrayOf(UnionAll(ItemTypes(ds, reg).value)))
  {
    var rs := seq(|ds|, i requires 0 <= i < |ds| => ToType(ds[i], reg));
    assert forall i :: 0 <= i < |ds| ==> rs[i] == ToType(ds[i], reg);
    if ItemTypes(ds, reg).Some? {
      assert Collect(rs).value == ItemTypes(ds, reg).value;
    }
  }

  /** A non-empty hash descriptor translates exactly when all its entries
      do, to the union of their map types (extensions/type.rb:167-171). */
  lemma HashDescShape(es: seq<(Desc, Desc)>, reg: Registry)
    requires |es| > 0
    ensures ToType(HashD(es), reg).Ok? <==> EntryTypes(es, reg).Some?
    ensures EntryTypes(es, reg).Some? ==> ToType(HashD(es), reg) == Ok(UnionAll(EntryTypes(es, reg).value))
  {
    var rs := seq(|es|, i requires 0 <= i < |es| => EntryType(es[i], reg));
    assert forall i :: 0 <= i < |es| ==> rs[i] == EntryType(es[i], reg);
    if EntryTypes(es, reg).Some? {
      assert Collect(rs).value == EntryTypes(es, reg).value;
    }
  }

  /** An untranslatable descriptor anywhere in a hash descriptor, as key or
      as value, makes the whole translation fail. */
  lemma HashEntryFailureFails(es: seq<(Desc, Desc)>, reg: Registry, i: int)
    requires 0 <= i < |es|
    requires ToType(es[i].0, reg).Err? || ToType(es[i].1, reg).Err?
    ensures ToType(HashD(es), reg).Err?
  {
    var rs := seq(|es|, j requires 0 <= j < |es| => EntryType(es[j], reg));
    assert rs[i].Err?;
  }

  /** The same for array descriptors. */
  lemma ArrayItemFailureFails(ds: seq<Desc>, reg: Registry, i: int)
    requires 0 <= i < |ds|
    requires ToType(ds[i], reg).Err?
    ensures ToType(ArrayD(ds), reg).Err?
  {
    var rs := seq(|ds|, j requires 0 <= j < |ds| => ToType(ds[j], reg));
    assert rs[i].Err?;
  }

  /** A raw symbol used as a key or as a value inside a hash descriptor is
      rejected with an ArgumentError. */
  lemma RawSymbolInHashFails(es: seq<(Desc, Desc)>, reg: Registry, i: int, name: string)
    requires 0 <= i < |es|
    requires es[i].0 == Other(Sym(name)) || es[i].1 == Other(Sym(name))
    ensures ToType(HashD(es), reg).Err? && ToType(HashD(es), reg).error.ArgumentError?
  {
    HashEntryFailureFails(es, reg, i);
  }

  /** Translating the result of a translation again, now as a type, gives
      the same type. */
  lemma ToTypeIdempotent(d: Desc, reg: Registry)
    requires ToType(d, reg).Ok?
    ensures ToType(Typed(ToType(d, reg).value), reg) == ToType(d, reg)
  {
  }

  /** An array of a union accepts exactly the arrays each of whose items the
      union accepts; when no member raises on any item, exactly the arrays
      each of whose items some member accepts. */
  lemma {:induction false} ArrayOfUnionAccepts(ts: seq<Type>, v: Value, L: Leaves)
    requires |ts| > 0
    ensures Check(ArrayOf(UnionAll(ts)), v, L).Ok? <==>
              v.Arr? && forall i :: 0 <= i < |v.items| ==> UnionAccepts(ts, v.items[i], L)
    ensures v.Arr? && (forall i, j :: 0 <= i < |v.items| && 0 <= j < |ts| ==> !Raises(ts[j], v.items[i], L)) ==>
              (Check(ArrayOf(UnionAll(ts)), v, L).Ok? <==>
                 forall i :: 0 <= i < |v.items| ==>
                   exists j :: 0 <= j < |ts| && Check(ts[j], v.items[i], L).Ok?)
  {
    if v.Arr? {
      var u := UnionAll(ts);
      var rs := ItemResults(u, v.items, L);
      assert Check(ArrayOf(u), v, L).Ok? <==> Collect(rs).Ok?;
      forall i | 0 <= i < |v.items|
        ensures rs[i].Ok? <==> UnionAccepts(ts, v.items[i], L)
        ensures (forall j :: 0 <= j < |ts| ==> !Raises(ts[j], v.items[i], L)) ==>
                  (rs[i].Ok? <==> exists j :: 0 <= j < |ts| && Check(ts[j], v.items[i], L).Ok?)
      {
        UnionAllResolves(ts, v.items[i], L);
      }
    }
  }

  /** An array descriptor accepts exactly the arrays whose every item the
      union of its members accepts (when no member raises, some member
      accepts); an empty descriptor accepts any array
      (extensions/type.rb:206-210). */
  lemma ArrayDescAccepts(ds: seq<Desc>, reg: Registry, v: Value, L: Leaves)
    requires ToType(ArrayD(ds), reg).Ok?
    ensures var t := ToType(ArrayD(ds), reg).value;
            && (|ds| == 0 ==> (Check(t, v, L).Ok? <==> v.Arr?))
            && (|ds| > 0 ==> (Check(t, v, L).Ok? <==>
                               v.Arr? && forall i :: 0 <= i < |v.items| ==>
                                 UnionAccepts(ItemTypes(ds, reg).value, v.items[i], L)))
            && (|ds| > 0 && v.Arr? &&
                (forall i, j :: 0 <= i < |v.items| && 0 <= j < |ds| ==>
                   !Raises(ItemTypes(ds, reg).value[j], v.items[i], L)) ==>
                  (Check(t, v, L).Ok? <==>
                     forall i :: 0 <= i < |v.items| ==>
                       exists j :: 0 <= j < |ds| && Check(ItemTypes(ds, reg).value[j], v.items[i], L).Ok?))
  {
    if |ds| > 0 {
      ArrayDescShape(ds, reg);
      var ts := ItemTypes(ds, reg).value;
      ArrayOfUnionAccepts(ts, v, L);
    }
  }

  /** An array type accepts the empty array and hands back an empty array. */
  lemma EmptyArrayAccepted(m: Type, L: Leaves)
    ensures Check(ArrayOf(m), Arr([]), L) == Ok(Arr([]))
  {
    var r := Check(ArrayOf(m), Arr([]), L);
    assert r.Ok?;
    assert r.value.items == [];
  }

  /** Every array descriptor that translates accepts the empty array and
      rejects anything that is not an array (extensions/type.rb:196-203). */
  lemma ArrayDescOnEmptyAndScalar(ds: seq<Desc>, reg: Registry, v: Value, L: Leaves)
    requires ToType(ArrayD(ds), reg).Ok?
    ensures Check(ToType(ArrayD(ds), reg).value, Arr([]), L) == Ok(Arr([]))
    ensures !v.Arr? ==> Check(ToType(ArrayD(ds), reg).value, v, L).Err?
  {
    ArrayDescAccepts(ds, reg, v, L);
    if |ds| > 0 {
      ArrayDescShape(ds, reg);
      EmptyArrayAccepted(UnionAll(ItemTypes(ds, reg).value), L);
    }
  }

  /** A map type accepts exactly the hashes whose every key the key type and
      every value the value type accepts. */
  lemma MapOfAccepts(kt: Type, vt: Type, v: Value, L: Leaves)
    ensures Check(MapOf(kt, vt), v, L).Ok? <==>
              v.Hash? && forall i :: 0 <= i < |v.entries| ==>
                           Check(kt, v.entries[i].0, L).Ok? && Check(vt, v.entries[i].1, L).Ok?
  {
    if v.Hash? {
      var rs := EntryResults(kt, vt, v.entries, L);
      assert Check(MapOf(kt, vt), v, L).Ok? <==> Collect(rs).Ok?;
      assert forall i :: 0 <= i < |v.entries| ==>
               (rs[i].Ok? <==> Check(kt, v.entries[i].0, L).Ok? && Check(vt, v.entries[i].1, L).Ok?);
    }
  }

  /** A non-empty hash descriptor accepts a hash when the union of its
      entries' map types does; when none of them raises, exactly when one of
      them accepts all of it (extensions/type.rb:167-171). */
  lemma HashDescAccepts(es: seq<(Desc, Desc)>, reg: Registry, v: Value, L: Leaves)
    requires |es| > 0 && ToType(HashD(es), reg).Ok?
    ensures Check(ToType(HashD(es), reg).value, v, L).Ok? <==> UnionAccepts(EntryTypes(es, reg).value, v, L)
    ensures (forall j :: 0 <= j < |es| ==> !Raises(EntryTypes(es, reg).value[j], v, L)) ==>
              (Check(ToType(HashD(es), reg).value, v, L).Ok? <==>
                 exists i :: 0 <= i < |es| && Check(EntryTypes(es, reg).value[i], v, L).Ok?)
  {
    HashDescShape(es, reg);
    var ts := EntryTypes(es, reg).value;
    UnionAllResolves(ts, v, L);
  }
}
