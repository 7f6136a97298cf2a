/** The declared hierarchy: nodes (struct classes), their attributes and the
    type terms attributes are checked against.

    A `Node` is one class of the hierarchy. `children` are its direct
    subclasses in discovery order. `attrs` are all the attributes the class
    has, those it inherits from its superclasses included, as dry-struct
    copies a superclass's schema into each subclass. `order` is the class's
    effective `config.order` map from short names to ranks: its own when it
    called `order`, otherwise the one it inherits from its nearest ancestor
    that did, since the configuration of ActiveSupport::Configurable is
    inherited. The kind says which marker module the class carries:

    - `RootKind`: a plain subclass of the library's base class, with no marker;
    - `AbstractKind`, `ConcreteKind`, `UnitKind`: the class was declared under
      the `Abstract`, `Concrete` or `Unit` marker of its parent;
    - `ValueKind`: the class includes the `Value` interface of the union
      design.

    Leaf types belong to dry-types, which is not part of this model; their
    behaviour is the `Leaves` record, a set of total functions standing for the
    library's answers.
 */
module Schema {
  import opened Values
  import opened Names

  datatype Kind = RootKind | AbstractKind | ConcreteKind | UnitKind | ValueKind

  /** A keyword constraint such as `min_size: 1`. */
  datatype Constraint = Constraint(pred: string, arg: Value)

  /** A `default:` option: a fixed object, or a proc yielding a value. */
  datatype DefaultSpec = Fixed(fixed: Value) | Proc(produces: Value)

  datatype Type =
    | Any                                   // Types::Any
    | Named(ref: string)                    // a registry type such as "strict.string"
    | Exactly(v: Value)                     // Types.Value(v)
    | PlainArray                            // Types::Array
    | PlainHash                             // Types::Hash
    | ArrayOf(member: Type)                 // Types.Array(member)
    | MapOf(keys: Type, vals: Type)         // Types::Hash.map(keys, vals)
    | Union(left: Type, right: Type)        // left | right
    | Includes(mod: string)                 // Types::Any.constrained(type: mod)
    | InstanceOf(cls: string)               // Types.Instance(cls)
    | Constructs(cls: string)               // Types.Constructor(cls, cls.method(:new))
    | Default(base: Type, spec: DefaultSpec)  // base.default(...)
    | Constrained(base: Type, rules: seq<Constraint>)  // base.constrained(**rules)
    | StructT(node: Node)                   // a struct class used as a type

  datatype Attr = Attr(name: string, ty: Type, aliases: seq<string>)

  datatype Node = Node(qname: string, kind: Kind, attrs: seq<Attr>,
                       children: seq<Node>, order: map<string, int>)

  /** What dry-types answers for the leaves this model does not define. */
  datatype Leaves = Leaves(
    coerce: (string, Value) -> Option<Value>,  // registry type `ref` on the value: what it
                                               // returns, or None when it refuses it
    includes: (string, Value) -> bool,       // does the value's class include the module
    isA: (string, Value) -> bool,            // is the value an instance of the class
    construct: (string, Value) -> Option<Value>,  // the class's `new` on the value
    holds: (Constraint, Value) -> bool)      // does the value satisfy the constraint

  /** `cls` names the class `n` or one of the classes declared under it, so
      that an instance of `cls` `is_a?` instance of `n`. */
  predicate Descends(n: Node, cls: string) {
    cls == n.qname || exists i :: 0 <= i < |n.children| && Descends(n.children[i], cls)
  }

  /** True for the kinds that resolve by searching their subtypes. */
  predicate Dispatches(k: Kind) {
    k == RootKind || k == AbstractKind
  }

  function AttributeNames(n: Node): (r: seq<string>)
    ensures |r| == |n.attrs|
    ensures forall i :: 0 <= i < |r| ==> r[i] == n.attrs[i].name
  {
    seq(|n.attrs|, i requires 0 <= i < |n.attrs| => n.attrs[i].name)
  }

  /** The short name every marked class displays (interfaces/common.rb). */
  function ShortName(n: Node): string {
    Demodulize(n.qname)
  }

  /** `reduce(:|)` over a non-empty list of types: a left-nested union. */
  function UnionAll(ts: seq<Type>): (r: Type)
    requires |ts| > 0
    ensures |ts| == 1 ==> r == ts[0]
    ensures |ts| > 1 ==> r == Union(UnionAll(ts[..|ts| - 1]), ts[|ts| - 1])
  {
    if |ts| == 1 then ts[0]
    else Union(UnionAll(ts[..|ts| - 1]), ts[|ts| - 1])
  }

  /** `reduce(:|)` over any list: Ruby gives nil for an empty list. */
  function UnionOf(ts: seq<Type>): (r: Option<Type>)
    ensures r.None? <==> |ts| == 0
  {
    if |ts| == 0 then None else Some(UnionAll(ts))
  }

  /** A measure on the class tree, used to show that resolution terminates. */
  function Size(n: Node): (r: nat)
    ensures r >= 1
  {
    1 + SizeAll(n.children)
  }

  function SizeAll(ns: seq<Node>): nat {
    if |ns| == 0 then 0 else Size(ns[0]) + SizeAll(ns[1..])
  }

  lemma {:induction false} SizeAllBound(ns: seq<Node>, i: int)
    requires 0 <= i < |ns|
    ensures Size(ns[i]) <= SizeAll(ns)
  {
    if i > 0 {
      SizeAllBound(ns[1..], i - 1);
    }
  }
}
