/** Checking a value against a type term, and plain struct construction.

    `Check` is a type's `call`: it returns the (possibly built) value or fails.
    `StructNew` is the plain struct constructor (`Dry::Struct.new`, which the
    library keeps reachable as `_new`): it returns an instance of its own class
    unchanged, re-validates the attributes of any other instance, and otherwise
    runs the class's strict hash schema. `StructCall` is the plain `call`
    (`_call`): an instance of the class or of any class under it is returned
    as it is, and anything else goes to `new`. A class that includes the
    `Value` interface of the union design replaces its schema by one with a
    fallback (interface.rb `otherwise`, interfaces/value.rb), see `Otherwise`.

    Missing keys fall back to the attribute's default, which is validated like
    any supplied value; a missing key without a default fails.
 */
module Construct {
  import opened Values
  import opened Schema

  /** Every constraint of `rules` holds of `x`. */
  predicate AllHold(L: Leaves, rules: seq<Constraint>, x: Value) {
    forall i :: 0 <= i < |rules| ==> L.holds(rules[i], x)
  }

  /** `k` is the symbol key of one of the node's attributes. */
  predicate KnownKey(n: Node, k: Value) {
    k.Sym? && exists i :: 0 <= i < |n.attrs| && n.attrs[i].name == k.name
  }

  /** The value a default spec hands to the type: the fixed object, or what the
      proc returns on this call. */
  function Produced(s: DefaultSpec): Value {
    match s
    case Fixed(x) => x
    case Proc(y) => y
  }

  /** `call` of a type on a value: the (possibly built) value, or why it was
      refused. */
  function Check(t: Type, v: Value, L: Leaves): (r: Result<Value>)
    decreases t, 2
    ensures t.Any? ==> r == Ok(v)
    ensures t.Exactly? ==> (r.Ok? <==> v == t.v)
    ensures t.Named? ==> (r.Ok? <==> L.coerce(t.ref, v).Some?) && (r.Err? ==> r.error == ConstraintError(v))
    ensures t.Named? && r.Ok? ==> r.value == L.coerce(t.ref, v).value
    ensures t.Exactly? || t.PlainArray? || t.PlainHash? || t.Includes? || t.InstanceOf? ==>
              (r.Ok? ==> r.value == v) && (r.Err? ==> r.error == ConstraintError(v))
    ensures (t.PlainArray? || t.ArrayOf?) && r.Ok? ==> v.Arr? && r.value.Arr? && |r.value.items| == |v.items|
    ensures (t.PlainHash? || t.MapOf?) && r.Ok? ==> v.Hash? && r.value.Hash? && |r.value.entries| == |v.entries|
    ensures t.Constrained? && r.Ok? ==> AllHold(L, t.rules, r.value)
    ensures t.StructT? ==> r == StructCall(t.node, v, L)
  {
    match t
    case Any => Ok(v)
    case Named(r) =>
      (match L.coerce(r, v)
       case Some(x) => Ok(x)
       case None => Err(ConstraintError(v)))
    case Exactly(x) => if v == x then Ok(v) else Err(ConstraintError(v))
    case PlainArray => if v.Arr? then Ok(v) else Err(ConstraintError(v))
    case PlainHash => if v.Hash? then Ok(v) else Err(ConstraintError(v))
    case ArrayOf(m) =>
      if !v.Arr? then Err(ConstraintError(v))
      else
        (match Collect(ItemResults(m, v.items, L))
         case Ok(xs) => Ok(Arr(xs))
         case Err(e) => Err(if IsCoercion(e) then ConstraintError(v) else e))
    case MapOf(kt, vt) =>
      if !v.Hash? then Err(ConstraintError(v))
      else
        (match Collect(EntryResults(kt, vt, v.entries, L))
         case Ok(ps) => Ok(Hash(ps))
         case Err(e) => Err(if IsCoercion(e) then ConstraintError(v) else e))
    case Union(a, b) =>
      (match Check(a, v, L)
       case Ok(x) => Ok(x)
       case Err(e) => if IsCoercion(e) then Check(b, v, L) else Err(e))
    case Includes(m) => if L.includes(m, v) then Ok(v) else Err(ConstraintError(v))
    case InstanceOf(c) => if L.isA(c, v) then Ok(v) else Err(ConstraintError(v))
    case Constructs(c) =>
      (match L.construct(c, v)
       case Some(x) => Ok(x)
       case None => Err(CoercionError(v)))
    case Default(b, _) => Check(b, v, L)
    case Constrained(b, rules) =>
      (match Check(b, v, L)
       case Err(e) => Err(e)
       case Ok(x) => if AllHold(L, rules, x) then Ok(x) else Err(ConstraintError(v)))
    case StructT(n) => StructCall(n, v, L)
  }

  /** The member type's answer for each item of an array, in order. */
  function ItemResults(m: Type, items: seq<Value>, L: Leaves): (rs: seq<Result<Value>>)
    decreases ArrayOf(m), 1
    ensures |rs| == |items|
    ensures forall i :: 0 <= i < |items| ==> rs[i] == Check(m, items[i], L)
  {
    seq(|items|, i requires 0 <= i < |items| => Check(m, items[i], L))
  }

  /** The key type's and then the value type's answer for one entry of a
      hash. */
  function EntryResult(kt: Type, vt: Type, e: (Value, Value), L: Leaves): (r: Result<(Value, Value)>)
    decreases MapOf(kt, vt), 0
    ensures r.Ok? <==> Check(kt, e.0, L).Ok? && Check(vt, e.1, L).Ok?
    ensures r.Ok? ==> r.value == (Check(kt, e.0, L).value, Check(vt, e.1, L).value)
    ensures Check(kt, e.0, L).Err? ==> r == Err(Check(kt, e.0, L).error)
    ensures Check(kt, e.0, L).Ok? && Check(vt, e.1, L).Err? ==> r == Err(Check(vt, e.1, L).error)
  {
    match Check(kt, e.0, L)
    case Err(x) => Err(x)
    case Ok(k) =>
      match Check(vt, e.1, L)
      case Err(x) => Err(x)
      case Ok(y) => Ok((k, y))
  }

  /** The answers for every entry of a hash, in order. */
  function EntryResults(kt: Type, vt: Type, entries: seq<(Value, Value)>, L: Leaves): (rs: seq<Result<(Value, Value)>>)
    decreases MapOf(kt, vt), 1
    ensures |rs| == |entries|
    ensures forall i :: 0 <= i < |entries| ==> rs[i] == EntryResult(kt, vt, entries[i], L)
  {
    seq(|entries|, i requires 0 <= i < |entries| => EntryResult(kt, vt, entries[i], L))
  }

  /** A default producer applied to a type (concrete/extensions/default.rb).
      A proc default validates what the proc returns. A fixed default is the
      proc `-> type = Any { type[self] }` turned into a producer in turn: the
      inner call validates the object with `Any`, which returns it unchanged,
      and the outer one validates that with the attribute's type. */
  function Evaluate(s: DefaultSpec, t: Type, L: Leaves): (r: Result<Value>)
    decreases t, 3
    ensures r == Check(t, Produced(s), L)
  {
    match s
    case Proc(y) => Check(t, y, L)
    case Fixed(x) => Check(t, x, L)
  }

  /** The value of an attribute whose key is absent from the input. */
  function Missing(name: string, t: Type, L: Leaves): (r: Result<Value>)
    decreases t, 4
    ensures !t.Default? && !t.Constrained? ==> r == Err(MissingKey(name))
    ensures t.Default? ==> r == Check(t.base, Produced(t.spec), L)
    ensures t.Constrained? && r.Ok? ==> AllHold(L, t.rules, r.value)
  {
    match t
    case Default(b, s) => Evaluate(s, b, L)
    case Constrained(b, rules) =>
      (match Missing(name, b, L)
       case Err(e) => Err(e)
       case Ok(x) => if AllHold(L, rules, x) then Ok(x) else Err(ConstraintError(x)))
    case _ => Err(MissingKey(name))
  }

  /** One attribute of a schema: the supplied value checked against the
      attribute's type, or the default when the key is absent. */
  function Field(a: Attr, entries: seq<(Value, Value)>, L: Leaves): (r: Result<(Value, Value)>)
    decreases a, 0
    ensures r.Ok? ==> r.value.0 == Sym(a.name)
    ensures Lookup(entries, Sym(a.name)).Some? ==>
              var c := Check(a.ty, Lookup(entries, Sym(a.name)).value, L);
              (r.Ok? <==> c.Ok?) && (r.Ok? ==> r.value.1 == c.value) && (r.Err? ==> r.error == c.error)
    ensures Lookup(entries, Sym(a.name)).None? ==>
              var m := Missing(a.name, a.ty, L);
              (r.Ok? <==> m.Ok?) && (r.Ok? ==> r.value.1 == m.value) && (r.Err? ==> r.error == m.error)
  {
    match Lookup(entries, Sym(a.name))
    case Some(x) =>
      (match Check(a.ty, x, L)
       case Ok(y) => Ok((Sym(a.name), y))
       case Err(e) => Err(e))
    case None =>
      match Missing(a.name, a.ty, L)
      case Ok(y) => Ok((Sym(a.name), y))
      case Err(e) => Err(e)
  }

  /** The first key of `entries` that names no attribute, if any. */
  function FirstUnknown(n: Node, entries: seq<(Value, Value)>): (r: Option<Value>)
    ensures r.None? <==> forall i :: 0 <= i < |entries| ==> KnownKey(n, entries[i].0)
    ensures r.Some? ==> !KnownKey(n, r.value)
  {
    if |entries| == 0 then None
    else if !KnownKey(n, entries[0].0) then Some(entries[0].0)
    else
      assert forall i :: 1 <= i < |entries| ==> entries[i] == entries[1..][i - 1];
      FirstUnknown(n, entries[1..])
  }

  /** The class's strict hash schema (concrete.rb:20, interface.rb:24). */
  function RunSchema(n: Node, input: Value, L: Leaves): (r: Result<seq<(Value, Value)>>)
    decreases n, 1
    ensures r.Ok? ==> input.Hash?
    ensures r.Ok? ==> forall i :: 0 <= i < |input.entries| ==> KnownKey(n, input.entries[i].0)
    ensures r.Ok? ==> |r.value| == |n.attrs|
    ensures r.Ok? ==> forall i :: 0 <= i < |n.attrs| ==> r.value[i].0 == Sym(n.attrs[i].name)
    ensures r.Ok? <==> input.Hash? && (forall i :: 0 <= i < |input.entries| ==> KnownKey(n, input.entries[i].0))
                       && forall i :: 0 <= i < |n.attrs| ==> Field(n.attrs[i], input.entries, L).Ok?
    ensures r.Ok? ==> forall i :: 0 <= i < |n.attrs| ==> r.value[i] == Field(n.attrs[i], input.entries, L).value
  {
    if !input.Hash? then Err(CoercionError(input))
    else
      match FirstUnknown(n, input.entries)
      case Some(k) => Err(UnknownKey(k))
      case None =>
        var fs := seq(|n.attrs|, i requires 0 <= i < |n.attrs| => Field(n.attrs[i], input.entries, L));
        var r := Collect(fs);
        assert r.Ok? ==> forall i :: 0 <= i < |n.attrs| ==> r.value[i].0 == Sym(n.attrs[i].name) by {
          if r.Ok? {
            forall i | 0 <= i < |n.attrs|
              ensures r.value[i].0 == Sym(n.attrs[i].name)
            {
              assert fs[i].Ok?;
            }
          }
        }
        r
  }

  /** The fallback a `Value` class installs (interfaces/value.rb:11-19): it
      needs exactly one attribute name and retries with the input wrapped under
      that name, passing the caller's error handler on. */
  function ValueFallback(n: Node, input: Value, h: Handler, L: Leaves): (r: Result<Value>)
    decreases n, 2
    ensures |n.attrs| != 1 ==> r == Err(ArgumentError(AttributeCount(|n.attrs|)))
  {
    var names := AttributeNames(n);
    if |names| != 1 then Err(ArgumentError(AttributeCount(|names|)))
    else
      match RunSchema(n, Hash([(Sym(names[0]), input)]), L)
      case Ok(fs) => Ok(Hash(fs))
      case Err(e) => Handle(h, e)
  }

  /** `otherwise` (interface.rb:78-82): the schema first, and the fallback
      only when the schema fails. */
  function Otherwise(n: Node, input: Value, h: Handler, L: Leaves): (r: Result<Value>)
    decreases n, 3
    ensures RunSchema(n, input, L).Ok? ==> r == Ok(Hash(RunSchema(n, input, L).value))
    ensures RunSchema(n, input, L).Err? ==> r == ValueFallback(n, input, h, L)
  {
    match RunSchema(n, input, L)
    case Ok(fs) => Ok(Hash(fs))
    case Err(_) => ValueFallback(n, input, h, L)
  }

  /** The schema step of plain construction, with the fallback for a class
      that includes the `Value` interface. */
  function SchemaStep(n: Node, input: Value, L: Leaves): Result<Value>
    decreases n, 4
  {
    if n.kind == ValueKind then Otherwise(n, input, Raise, L)
    else
      match RunSchema(n, input, L)
      case Ok(fs) => Ok(Hash(fs))
      case Err(e) => Err(e)
  }

  /** What the schema sees: the attributes of an instance of another class,
      and any other input as it is. */
  function SchemaInput(v: Value): Value {
    if v.Instance? then Hash(v.attrs) else v
  }

  /** Plain struct construction (`Dry::Struct.new`). A hash input sets the
      attributes: the instance holds exactly the schema's fields, and a
      coercion failure of the schema is reported as a struct error. */
  function StructNew(n: Node, v: Value, L: Leaves): (r: Result<Value>)
    decreases n, 5
    ensures v.Instance? && v.cls == n.qname ==> r == Ok(v)
    ensures r.Ok? && !(v.Instance? && v.cls == n.qname) ==> r.value.Instance? && r.value.cls == n.qname
    ensures !(v.Instance? && v.cls == n.qname) && n.kind != ValueKind ==>
              (r.Ok? <==> RunSchema(n, SchemaInput(v), L).Ok?)
    ensures !(v.Instance? && v.cls == n.qname) && RunSchema(n, SchemaInput(v), L).Ok? ==>
              r == Ok(Instance(n.qname, RunSchema(n, SchemaInput(v), L).value))
    ensures !(v.Instance? && v.cls == n.qname) && n.kind != ValueKind && RunSchema(n, SchemaInput(v), L).Err? ==>
              var e := RunSchema(n, SchemaInput(v), L).error;
              r == Err(if IsCoercion(e) then StructError(n.qname, v) else e)
  {
    if v.Instance? && v.cls == n.qname then Ok(v)
    else
      match SchemaStep(n, SchemaInput(v), L)
      case Ok(Hash(fs)) => Ok(Instance(n.qname, fs))
      case Ok(x) => Ok(x)
      case Err(e) => Err(if IsCoercion(e) then StructError(n.qname, v) else e)
  }

  /** A struct class's `call` (dry-struct `_call`): an instance of the class
      or of a class under it passes through, and anything else is built by
      `new`. What comes back is always such an instance. */
  function StructCall(n: Node, v: Value, L: Leaves): (r: Result<Value>)
    decreases n, 6
    ensures v.Instance? && Descends(n, v.cls) ==> r == Ok(v)
    ensures !(v.Instance? && Descends(n, v.cls)) ==> r == StructNew(n, v, L)
    ensures r.Ok? ==> r.value.Instance? && Descends(n, r.value.cls)
  {
    if v.Instance? && Descends(n, v.cls) then Ok(v) else StructNew(n, v, L)
  }
}
