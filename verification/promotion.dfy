/** Scalar promotion: the `new` of a Unit class (interfaces/unit.rb:32-44) and
    of `Dry::Concrete::Value` (concrete/value.rb:6-19), which share one rule.

    A hash goes to plain construction unchanged; a struct instance of any class
    is returned as it is; any other input is wrapped as `{ key => input }` when
    the class declares exactly the one attribute `key`, and raises an
    ArgumentError when it declares none or several. The attribute count is
    consulted only on that last path.
 */
module Promotion {
  import opened Values
  import opened Schema
  import opened Construct
  import opened TypeLaws

  function PromotingNew(n: Node, v: Value, L: Leaves): (r: Result<Value>)
    ensures v.Hash? ==> r == StructNew(n, v, L)
    ensures v.Instance? ==> r == Ok(v)
    ensures IsScalar(v) && |n.attrs| == 0 ==> r == Err(ArgumentError(NoAttributes))
    ensures IsScalar(v) && |n.attrs| == 1 ==> r == StructNew(n, Hash([(Sym(n.attrs[0].name), v)]), L)
    ensures IsScalar(v) && |n.attrs| >= 2 ==> r == Err(ArgumentError(ManyAttributes(|n.attrs|)))
  {
    if v.Hash? then StructNew(n, v, L)
    else if v.Instance? then Ok(v)
    else
      var names := AttributeNames(n);
      if |names| == 0 then Err(ArgumentError(NoAttributes))
      else if |names| == 1 then StructNew(n, Hash([(Sym(names[0]), v)]), L)
      else Err(ArgumentError(ManyAttributes(|names|)))
  }

  /** A scalar given to a one-attribute class is the same as the hash that
      maps the attribute's name to it. */
  lemma ScalarIsWrappedHash(n: Node, v: Value, L: Leaves)
    requires IsScalar(v) && |n.attrs| == 1
    ensures PromotingNew(n, v, L) == PromotingNew(n, Hash([(Sym(n.attrs[0].name), v)]), L)
  {
  }

  /** A hash input never reaches the attribute-count check: a class with two
      or more attributes still builds from a hash. */
  lemma HashSkipsCountCheck(n: Node, v: Value, L: Leaves)
    requires v.Hash? && |n.attrs| >= 2
    ensures PromotingNew(n, v, L) == StructNew(n, v, L)
    ensures n.kind != ValueKind && PromotingNew(n, v, L).Ok? ==>
              PromotingNew(n, v, L).value.Instance? && PromotingNew(n, v, L).value.cls == n.qname
  {
  }

  /** A scalar given to a class with a single attribute builds an instance
      holding, under that attribute, what the attribute's type makes of the
      scalar. When the type rejects it, a coercion-family error becomes a
      struct error on the wrapped hash and any other error propagates. */
  lemma {:induction false} ScalarReadsBack(n: Node, v: Value, L: Leaves)
    requires IsScalar(v) && |n.attrs| == 1 && n.kind != ValueKind
    ensures Check(n.attrs[0].ty, v, L).Ok? ==>
              PromotingNew(n, v, L) == Ok(Instance(n.qname, [(Sym(n.attrs[0].name), Check(n.attrs[0].ty, v, L).value)]))
    ensures Check(n.attrs[0].ty, v, L).Err? ==>
              var e := Check(n.attrs[0].ty, v, L).error;
              PromotingNew(n, v, L) == Err(if IsCoercion(e) then StructError(n.qname, Hash([(Sym(n.attrs[0].name), v)])) else e)
  {
    var a := n.attrs[0];
    var h := Hash([(Sym(a.name), v)]);
    assert Lookup(h.entries, Sym(a.name)) == Some(v);
    assert KnownKey(n, Sym(a.name));
    assert FirstUnknown(n, h.entries).None?;
    var rs := RunSchema(n, h, L);
    if Check(a.ty, v, L).Ok? {
      assert rs.Ok?;
      assert rs.value[0] == (Sym(a.name), Check(a.ty, v, L).value);
      assert rs.value == [(Sym(a.name), Check(a.ty, v, L).value)];
      assert SchemaStep(n, h, L) == Ok(Hash(rs.value));
    } else {
      var fs := seq(|n.attrs|, i requires 0 <= i < |n.attrs| => Field(n.attrs[i], h.entries, L));
      assert rs == Collect(fs);
      assert fs[0] == Err(Check(a.ty, v, L).error);
      assert SchemaStep(n, h, L) == Err(Check(a.ty, v, L).error);
    }
  }
}
