/** The union-of-types design (interface.rb, interfaces/abstract.rb,
    interfaces/value.rb).

    Here a class does not fold over its variants: it folds their types into
    one sum type (`map(&:type).reduce(:|)` over the direct descendants) and
    `new` hands the input to that type. The sum tries its members left to
    right, so the first descendant that accepts the input builds it, unless
    an earlier one raises an error outside the coercion family. A descendant
    in the sum is called as a type, so an instance of it passes through.

    A descendant without a type of its own (`nil`) is left out of the sum.

    Two versions of a leaf's type are modelled. As written, a Concrete or
    Value class has no `type` of its own and inherits the one of interface.rb,
    which is `nil` for a class without descendants. The model uses the
    evidently intended version instead, in which a leaf's type is the class
    itself: that is the `type` returning `self` left commented out in
    interfaces/concrete.rb. The correction takes a leaf's own `new` to be
    plain construction, since `type.call` on itself would come back to `new`.

    The anonymous marker classes that `const_missing` creates between an
    interface class and its variants are not nodes here: a leaf is a direct
    descendant of its interface class.
 */
module UnionDesign {
  import opened Values
  import opened Names
  import opened Schema
  import opened Construct
  import opened TypeLaws

  /** The options that carry a type, in order. */
  function Somes(os: seq<Option<Type>>): (r: seq<Type>)
    ensures |r| <= |os|
    ensures (forall i :: 0 <= i < |os| ==> os[i].Some?) ==>
              |r| == |os| && forall i :: 0 <= i < |os| ==> r[i] == os[i].value
    ensures (forall i :: 0 <= i < |os| ==> os[i].None?) ==> r == []
  {
    if |os| == 0 then []
    else
      var rest := Somes(os[1..]);
      assert forall i :: 1 <= i < |os| ==> os[i] == os[1..][i - 1];
      if os[0].Some? then [os[0].value] + rest else rest
  }

  /** The types of the direct descendants that have one, in descendant
      order; `asWritten` selects the leaf rule (see `TypeWith`). */
  function MemberTypes(n: Node, asWritten: bool): (r: Result<seq<Type>>)
    decreases n, 1
    ensures r.Ok? <==> forall i :: 0 <= i < |n.children| ==> TypeWith(n.children[i], asWritten).Ok?
    ensures r.Ok? ==> |r.value| <= |n.children|
    ensures r.Ok? && (forall i :: 0 <= i < |n.children| ==> TypeWith(n.children[i], asWritten).value.Some?) ==>
              |r.value| == |n.children|
              && forall i :: 0 <= i < |n.children| ==> r.value[i] == TypeWith(n.children[i], asWritten).value.value
  {
    match Collect(ChildTypes(n, asWritten))
    case Err(e) => Err(e)
    case Ok(os) => Ok(Somes(os))
  }

  /** The type of each direct descendant, in descendant order. */
  function ChildTypes(n: Node, asWritten: bool): (rs: seq<Result<Option<Type>>>)
    decreases n, 0
    ensures |rs| == |n.children| && forall i :: 0 <= i < |n.children| ==> rs[i] == TypeWith(n.children[i], asWritten)
  {
    seq(|n.children|, i requires 0 <= i < |n.children| => TypeWith(n.children[i], asWritten))
  }

  /** `type` of a class, as written (`asWritten`) or as intended.

      - An Abstract class: the sum of its descendants' types, raising a
        RuntimeError when there is none (interfaces/abstract.rb:11-13).
      - A Root class: the sum of its descendants' types, nil when there is
        none (interface.rb:60-62).
      - A Concrete or Value class: the class itself as intended; as written,
        the rule for Root classes. */
  function TypeWith(n: Node, asWritten: bool): (r: Result<Option<Type>>)
    decreases n, 2
    ensures !asWritten && !Dispatches(n.kind) ==> r == Ok(Some(StructT(n)))
    ensures n.kind == AbstractKind && r.Ok? ==> r.value.Some?
    ensures n.kind == AbstractKind && |n.children| == 0 ==> r == Err(RuntimeError(DisplayName(n)))
    ensures n.kind != AbstractKind && (asWritten || n.kind == RootKind) && |n.children| == 0 ==> r == Ok(None)
    ensures r.Err? ==> r.error.RuntimeError? || exists i :: 0 <= i < |n.children| && TypeWith(n.children[i], asWritten).Err?
  {
    if !asWritten && !Dispatches(n.kind) then Ok(Some(StructT(n)))
    else
      match MemberTypes(n, asWritten)
      case Err(e) => Err(e)
      case Ok(ts) =>
        if n.kind == AbstractKind && |ts| == 0 then Err(RuntimeError(DisplayName(n)))
        else Ok(UnionOf(ts))
  }

  /** The name a class displays: an Abstract class its short name (via
      interfaces/common.rb), any other class its qualified name. */
  function DisplayName(n: Node): string {
    if n.kind == AbstractKind then ShortName(n) else n.qname
  }

  /** `type` as intended: a leaf is its own type, and a class with
      descendants is the union of theirs. */
  function TypeOf(n: Node): (r: Result<Option<Type>>)
    ensures !Dispatches(n.kind) ==> r == Ok(Some(StructT(n)))
    ensures Dispatches(n.kind) && MemberTypes(n, false).Ok? && |MemberTypes(n, false).value| > 0 ==>
              r == Ok(Some(UnionAll(MemberTypes(n, false).value)))
    ensures Dispatches(n.kind) && MemberTypes(n, false).Err? ==> r == Err(MemberTypes(n, false).error)
    ensures n.kind == AbstractKind && |n.children| == 0 ==> r == Err(RuntimeError(DisplayName(n)))
  {
    TypeWith(n, false)
  }

  /** `type` as written: every class is the union of its descendants' types,
      so a class without descendants other than an Abstract one has none. */
  function TypeAsWritten(n: Node): (r: Result<Option<Type>>)
    ensures n.kind != AbstractKind && |n.children| == 0 ==> r == Ok(None)
    ensures MemberTypes(n, true).Ok? && |MemberTypes(n, true).value| > 0 ==>
              r == Ok(Some(UnionAll(MemberTypes(n, true).value)))
    ensures MemberTypes(n, true).Err? ==> r == Err(MemberTypes(n, true).error)
  {
    TypeWith(n, true)
  }

  /** `new` (interface.rb:68-72) once the class's type is known: plain
      construction when there is no type, otherwise the type's `call`. */
  function NewWith(n: Node, ty: Result<Option<Type>>, v: Value, L: Leaves): (r: Result<Value>)
    ensures ty.Err? ==> r == Err(ty.error)
    ensures ty == Ok(None) ==> r == StructNew(n, v, L)
  {
    match ty
    case Err(e) => Err(e)
    case Ok(None) => StructNew(n, v, L)
    case Ok(Some(t)) => Check(t, v, L)
  }

  /** `new` with the corrected leaf type: a leaf builds itself by plain
      construction, an Abstract class without descendants raises, and a Root
      class without descendants builds itself. */
  function InterfaceNew(n: Node, v: Value, L: Leaves): (r: Result<Value>)
    ensures !Dispatches(n.kind) ==> r == StructNew(n, v, L)
    ensures n.kind == AbstractKind && |n.children| == 0 ==> r == Err(RuntimeError(DisplayName(n)))
    ensures n.kind == RootKind && |n.children| == 0 ==> r == StructNew(n, v, L)
  {
    if !Dispatches(n.kind) then StructNew(n, v, L) else NewWith(n, TypeOf(n), v, L)
  }

  /** `new` as written: every class without descendants other than an
      Abstract one has no type and builds itself. */
  function InterfaceNewAsWritten(n: Node, v: Value, L: Leaves): (r: Result<Value>)
    ensures n.kind != AbstractKind && |n.children| == 0 ==> r == StructNew(n, v, L)
    ensures n.kind == AbstractKind && |n.children| == 0 ==> r == Err(RuntimeError(DisplayName(n)))
  {
    NewWith(n, TypeAsWritten(n), v, L)
  }

  /** A class whose descendants all have types answers as the union of
      them: as the first descendant type (in descendant order) that accepts
      the input or raises an error outside the coercion family, or as the
      last one when every one of them turns the input down softly. When no
      descendant type raises, it builds exactly when one of them accepts. */
  lemma NewPicksFirstDecisive(n: Node, v: Value, L: Leaves)
    requires Dispatches(n.kind)
    requires MemberTypes(n, false).Ok? && |MemberTypes(n, false).value| > 0
    ensures var ts := MemberTypes(n, false).value;
            var k := FirstDecisive(ts, v, L);
            && InterfaceNew(n, v, L) == Check(ts[if k < |ts| then k else |ts| - 1], v, L)
            && (InterfaceNew(n, v, L).Ok? <==> UnionAccepts(ts, v, L))
            && ((forall j :: 0 <= j < |ts| ==> !Raises(ts[j], v, L)) ==>
                  (InterfaceNew(n, v, L).Ok? <==> exists i :: 0 <= i < |ts| && Check(ts[i], v, L).Ok?))
  {
    InterfaceNewIsUnion(n, v, L);
    UnionAllResolves(MemberTypes(n, false).value, v, L);
  }

  /** A class whose descendants have types builds as the union of them. */
  lemma InterfaceNewIsUnion(n: Node, v: Value, L: Leaves)
    requires Dispatches(n.kind)
    requires MemberTypes(n, false).Ok? && |MemberTypes(n, false).value| > 0
    ensures InterfaceNew(n, v, L) == Check(UnionAll(MemberTypes(n, false).value), v, L)
  {
    assert TypeOf(n) == Ok(Some(UnionAll(MemberTypes(n, false).value)));
  }

  /** As intended, the member types of a class whose descendants are all
      leaves are those leaves, in order. */
  lemma LeafMemberTypes(n: Node)
    requires forall j :: 0 <= j < |n.children| ==> !Dispatches(n.children[j].kind)
    ensures MemberTypes(n, false).Ok?
    ensures |MemberTypes(n, false).value| == |n.children|
    ensures forall j :: 0 <= j < |n.children| ==> MemberTypes(n, false).value[j] == StructT(n.children[j])
  {
    assert forall j :: 0 <= j < |n.children| ==> TypeOf(n.children[j]) == Ok(Some(StructT(n.children[j])));
  }

  /** With leaves as descendants, the first leaf whose `call` accepts the
      input, or raises an error outside the coercion family, decides what
      `new` returns. */
  lemma NewPicksFirstLeaf(n: Node, v: Value, L: Leaves, i: int)
    requires Dispatches(n.kind)
    requires forall j :: 0 <= j < |n.children| ==> !Dispatches(n.children[j].kind)
    requires 0 <= i < |n.children|
    requires StructCall(n.children[i], v, L).Ok? || !IsCoercion(StructCall(n.children[i], v, L).error)
    requires forall j :: 0 <= j < i ==>
               StructCall(n.children[j], v, L).Err? && IsCoercion(StructCall(n.children[j], v, L).error)
    ensures InterfaceNew(n, v, L) == StructCall(n.children[i], v, L)
  {
    LeafMemberTypes(n);
    var ts := MemberTypes(n, false).value;
    InterfaceNewIsUnion(n, v, L);
    assert forall j :: 0 <= j < |ts| ==> Check(ts[j], v, L) == StructCall(n.children[j], v, L);
    UnionAllStopsAt(ts, v, L, i);
  }

  /** As written, a Concrete or Value class without descendants has no type,
      and an Abstract class whose descendants are all such leaves raises
      instead of building one of them. */
  lemma AsWrittenLeavesHaveNoType(n: Node)
    requires n.kind == AbstractKind && |n.children| > 0
    requires forall j :: 0 <= j < |n.children| ==>
               !Dispatches(n.children[j].kind) && |n.children[j].children| == 0
    ensures TypeAsWritten(n) == Err(RuntimeError(DisplayName(n)))
    ensures TypeOf(n).Ok? && TypeOf(n).value.Some?
  {
    AsWrittenLeavesNone(n);
    LeafMemberTypes(n);
  }

  /** As written, a root class whose descendants are all leaves builds
      itself from the input instead of trying its descendants. */
  lemma AsWrittenRootBuildsItself(n: Node, v: Value, L: Leaves)
    requires n.kind == RootKind
    requires forall j :: 0 <= j < |n.children| ==>
               !Dispatches(n.children[j].kind) && |n.children[j].children| == 0
    ensures InterfaceNewAsWritten(n, v, L) == StructNew(n, v, L)
  {
    AsWrittenLeavesNone(n);
  }

  /** As written, descendants that are all leaves contribute no type. */
  lemma AsWrittenLeavesNone(n: Node)
    requires forall j :: 0 <= j < |n.children| ==>
               !Dispatches(n.children[j].kind) && |n.children[j].children| == 0
    ensures MemberTypes(n, true) == Ok([])
  {
    var rs := ChildTypes(n, true);
    assert forall j :: 0 <= j < |rs| ==> rs[j] == Ok(None);
    var os := Collect(rs).value;
    assert forall j :: 0 <= j < |os| ==> os[j].None?;
  }

  // The shapes of interface_spec.rb, reduced: a root `Shape` without
  // attributes and one concrete variant `Circle` with the attribute
  // `radius` of any type.

  function CircleExample(): Node {
    Node("Circle", ConcreteKind, [Attr("radius", Any, [])], [], map[])
  }

  function ShapeExample(): Node {
    Node("Shape", RootKind, [], [CircleExample()], map[])
  }

  /** `{radius: 1}` builds a Circle as intended, but as written the root
      tries to build itself and rejects the key it does not know. */
  lemma AsWrittenRejectsCircle(L: Leaves)
    ensures var input := Hash([(Sym("radius"), Int(1))]);
            && InterfaceNew(ShapeExample(), input, L) == Ok(Instance("Circle", [(Sym("radius"), Int(1))]))
            && InterfaceNewAsWritten(ShapeExample(), input, L) == Err(StructError("Shape", input))
  {
    var input := Hash([(Sym("radius"), Int(1))]);
    var shape := ShapeExample();
    var circle := CircleExample();
    AsWrittenRootBuildsItself(shape, input, L);
    assert FirstUnknown(shape, input.entries) == Some(Sym("radius"));
    assert RunSchema(shape, input, L) == Err(UnknownKey(Sym("radius")));
    assert Lookup(input.entries, Sym("radius")) == Some(Int(1));
    assert Field(circle.attrs[0], input.entries, L) == Ok((Sym("radius"), Int(1)));
    assert KnownKey(circle, Sym("radius"));
    var rs := RunSchema(circle, input, L);
    assert rs.Ok? && |rs.value| == 1 && rs.value[0] == (Sym("radius"), Int(1));
    assert rs.value == [(Sym("radius"), Int(1))];
    assert StructNew(circle, input, L) == Ok(Instance("Circle", [(Sym("radius"), Int(1))]));
    NewPicksFirstLeaf(shape, input, L, 0);
  }

  /** `named` (interface.rb:64-66, interfaces/abstract.rb:15-17): every class,
      leaves included, shows `Name<[...]>` over its direct descendants in
      descendant order. */
  function Named(n: Node): (r: string)
    ensures |r| >= |DisplayName(n)| + 4
    ensures r[..|DisplayName(n)| + 2] == DisplayName(n) + "<[" && r[|r| - 2..] == "]>"
    ensures |n.children| == 0 ==> r == DisplayName(n) + "<[]>"
  {
    var pre := DisplayName(n) + "<[";
    var r := pre + (Join(NamedAll(n.children), " | ") + "]>");
    assert r[..|pre|] == pre;
    assert DisplayName(n) + "<[" + Join(NamedAll(n.children), " | ") + "]>" == r;
    r
  }

  /** The names of the classes `cs`, one per class and in order. */
  function NamedAll(cs: seq<Node>): (r: seq<string>)
    ensures |r| == |cs| && forall i :: 0 <= i < |cs| ==> r[i] == Named(cs[i])
  {
    if |cs| == 0 then []
    else
      var rest := NamedAll(cs[1..]);
      assert forall i :: 1 <= i < |cs| ==> cs[i] == cs[1..][i - 1];
      [Named(cs[0])] + rest
  }

  /** A class's name is its display name around the joined names of its
      direct descendants. */
  lemma NamedUnfold(n: Node)
    ensures Named(n) == DisplayName(n) + "<[" + Join(NamedAll(n.children), " | ") + "]>"
  {
  }

  /** A single direct descendant's name is shown alone in the brackets. */
  lemma NamedOneDescendant(n: Node)
    requires |n.children| == 1
    ensures Named(n) == DisplayName(n) + "<[" + Named(n.children[0]) + "]>"
  {
    NamedUnfold(n);
    var parts := NamedAll(n.children);
    assert Join(parts, " | ") == Named(n.children[0]);
  }

  /** With two direct descendants the names are joined by `" | "` in
      descendant order. */
  lemma NamedTwoDescendants(n: Node)
    requires |n.children| == 2
    ensures Named(n) == DisplayName(n) + "<[" + Named(n.children[0]) + " | " + Named(n.children[1]) + "]>"
  {
    NamedUnfold(n);
    var parts := NamedAll(n.children);
    JoinTwo(parts, " | ");
    Regroup(DisplayName(n) + "<[", parts[0], " | ", parts[1], "]>");
  }

  /** Every direct descendant's name appears in a class's name. */
  lemma NamedIncludesDescendants(n: Node, i: nat)
    requires i < |n.children|
    ensures exists k :: OccursAt(Named(n), Named(n.children[i]), k)
  {
    var parts := NamedAll(n.children);
    NamedUnfold(n);
    WrappedJoinContains(Named(n), DisplayName(n) + "<[", parts, " | ", "]>",
                        i, parts[i], |DisplayName(n)| + 2 + PartOffset(parts, " | ", i));
  }

  // ------------------------------------------------- the Value fallback

  /** A Value class given a non-hash builds from the input wrapped under its
      one attribute, which holds what the attribute's type makes of the
      input; when that type rejects the input, its error goes to the handler
      (interfaces/value.rb:11-19). */
  lemma ValueWrapsScalar(n: Node, v: Value, h: Handler, L: Leaves)
    requires |n.attrs| == 1 && !v.Hash?
    ensures Check(n.attrs[0].ty, v, L).Ok? ==>
              Otherwise(n, v, h, L) == Ok(Hash([(Sym(n.attrs[0].name), Check(n.attrs[0].ty, v, L).value)]))
    ensures Check(n.attrs[0].ty, v, L).Err? ==>
              Otherwise(n, v, h, L) == Handle(h, Check(n.attrs[0].ty, v, L).error)
  {
    var a := n.attrs[0];
    var wrapped := Hash([(Sym(a.name), v)]);
    assert RunSchema(n, v, L).Err?;
    assert Lookup(wrapped.entries, Sym(a.name)) == Some(v);
    assert KnownKey(n, Sym(a.name));
    assert FirstUnknown(n, wrapped.entries).None?;
    var rs := RunSchema(n, wrapped, L);
    if Check(a.ty, v, L).Ok? {
      assert rs.Ok?;
      assert rs.value == [(Sym(a.name), Check(a.ty, v, L).value)];
    } else {
      var fs := seq(|n.attrs|, i requires 0 <= i < |n.attrs| => Field(n.attrs[i], wrapped.entries, L));
      assert rs == Collect(fs);
      assert fs[0] == Err(Check(a.ty, v, L).error);
    }
  }

  /** When the wrapped retry fails too, its error goes to the handler the
      caller passed in: a rescuing caller gets the block's value, and the
      default handler raises the retry's error. */
  lemma FallbackForwardsHandler(n: Node, v: Value, h: Handler, L: Leaves)
    requires |n.attrs| == 1
    requires RunSchema(n, v, L).Err?
    requires RunSchema(n, Hash([(Sym(n.attrs[0].name), v)]), L).Err?
    ensures var e := RunSchema(n, Hash([(Sym(n.attrs[0].name), v)]), L).error;
            && (h.Rescue? ==> Otherwise(n, v, h, L) == Ok(h.block(e)))
            && (h.Raise? ==> Otherwise(n, v, h, L) == Err(e))
  {
  }

  /** A Value class that does not have exactly one attribute cannot fall
      back: the fallback reports the attribute count, even with a rescuing
      handler. */
  lemma FallbackNeedsOneAttribute(n: Node, v: Value, h: Handler, L: Leaves)
    requires |n.attrs| != 1
    requires RunSchema(n, v, L).Err?
    ensures Otherwise(n, v, h, L) == Err(ArgumentError(AttributeCount(|n.attrs|)))
  {
  }

  /** The attribute names the fallback reads from the class's `type`
      (interfaces/value.rb:12): a struct class answers with its attributes,
      while nil, or any other type, has no `attribute_names` method. */
  function FallbackNames(ty: Result<Option<Type>>): (r: Result<seq<string>>)
    ensures ty.Err? ==> r == Err(ty.error)
    ensures ty == Ok(None) ==> r == Err(UndefinedMethod("attribute_names"))
    ensures r.Ok? ==> ty.Ok? && ty.value.Some? && ty.value.value.StructT?
                      && r.value == AttributeNames(ty.value.value.node)
  {
    match ty
    case Err(e) => Err(e)
    case Ok(None) => Err(UndefinedMethod("attribute_names"))
    case Ok(Some(t)) =>
      if t.StructT? then Ok(AttributeNames(t.node)) else Err(UndefinedMethod("attribute_names"))
  }

  /** The fallback of a `Value` class with the attribute names taken from
      `ty`, the class's type. */
  function FallbackWith(n: Node, ty: Result<Option<Type>>, input: Value, h: Handler, L: Leaves): (r: Result<Value>)
    ensures FallbackNames(ty).Err? ==> r == Err(FallbackNames(ty).error)
    ensures ty == Ok(Some(StructT(n))) ==> r == ValueFallback(n, input, h, L)
  {
    match FallbackNames(ty)
    case Err(e) => Err(e)
    case Ok(names) =>
      if |names| != 1 then Err(ArgumentError(AttributeCount(|names|)))
      else
        match RunSchema(n, Hash([(Sym(names[0]), input)]), L)
        case Ok(fs) => Ok(Hash(fs))
        case Err(e) => Handle(h, e)
  }

  /** `otherwise` with the fallback as written: its names come from the
      as-written type of the class. */
  function OtherwiseAsWritten(n: Node, input: Value, h: Handler, L: Leaves): (r: Result<Value>)
    ensures RunSchema(n, input, L).Ok? ==> r == Otherwise(n, input, h, L)
  {
    match RunSchema(n, input, L)
    case Ok(fs) => Ok(Hash(fs))
    case Err(_) => FallbackWith(n, TypeAsWritten(n), input, h, L)
  }

  /** With the corrected type a Value class's fallback reads the class's own
      attribute names, which is `ValueFallback`. */
  lemma CorrectedFallbackReadsOwnNames(n: Node, input: Value, h: Handler, L: Leaves)
    requires n.kind == ValueKind
    ensures FallbackWith(n, TypeOf(n), input, h, L) == ValueFallback(n, input, h, L)
  {
  }

  /** As written, a Value class without descendants has no type, so every
      input the schema rejects, and so every scalar, ends in the NameError of
      `nil.attribute_names` before the attribute count is looked at, whatever
      the handler. */
  lemma AsWrittenValueRejectsScalar(n: Node, v: Value, h: Handler, L: Leaves)
    requires n.kind == ValueKind && |n.children| == 0
    requires RunSchema(n, v, L).Err?
    ensures OtherwiseAsWritten(n, v, h, L) == Err(UndefinedMethod("attribute_names"))
  {
    assert TypeAsWritten(n) == Ok(None);
  }

  /** `Age`, a Value class with the one attribute `value` of the `integer`
      type. */
  function AgeExample(): Node {
    Node("Age", ValueKind, [Attr("value", Type.Named("integer"), [])], [], map[])
  }

  /** `Age.new(1)`: as written the fallback fails on nil; corrected, the
      scalar is wrapped under `value`. */
  lemma AgeFromScalar(h: Handler, L: Leaves)
    requires L.coerce("integer", Int(1)) == Some(Int(1))
    ensures OtherwiseAsWritten(AgeExample(), Int(1), h, L) == Err(UndefinedMethod("attribute_names"))
    ensures Otherwise(AgeExample(), Int(1), h, L) == Ok(Hash([(Sym("value"), Int(1))]))
  {
    var age := AgeExample();
    assert RunSchema(age, Int(1), L).Err?;
    AsWrittenValueRejectsScalar(age, Int(1), h, L);
    ValueWrapsScalar(age, Int(1), h, L);
  }
}
