/** The subtype resolver of the fold design (class_interface.rb, with the
    Unit and Concrete markers of interfaces/unit.rb and interfaces/concrete.rb).

    A dispatching class's variants are its grandchildren: the classes declared
    under its `Concrete`, `Abstract` and `Unit` markers. With an order map they
    are sorted by the rank of their short names. Resolution folds over them
    with a state that is first `Pending` (the input and the errors collected so
    far), becomes `Done` at the first success and is passed through unchanged
    afterwards. An exception the fold does not rescue ends it (`Raised`).
 */
module Resolver {
  import opened Values
  import opened Names
  import opened Schema
  import opened Construct
  import opened Promotion

  // ---------------------------------------------------------------- order

  /** `order(*names)`: each name mapped to its position; a repeated name keeps
      its last position. */
  function Order(names: seq<string>): (r: map<string, int>)
    ensures forall k :: k in r <==> k in names
    ensures forall k :: k in r ==> 0 <= r[k] < |names| && names[r[k]] == k
    ensures forall k, j :: k in r && r[k] < j < |names| ==> names[j] != k
  {
    if |names| == 0 then map[]
    else
      var init := names[..|names| - 1];
      assert names == init + [names[|names| - 1]];
      OrderSnoc(init, names[|names| - 1], Order(init));
      Order(init)[names[|names| - 1] := |names| - 1]
  }

  /** Appending a name to the list records its position, over any earlier
      one. */
  lemma OrderSnoc(init: seq<string>, last: string, m: map<string, int>)
    requires forall k :: k in m <==> k in init
    requires forall k :: k in m ==> 0 <= m[k] < |init| && init[m[k]] == k
    requires forall k, j :: k in m && m[k] < j < |init| ==> init[j] != k
    ensures var names, r := init + [last], m[last := |init|];
            && (forall k :: k in r <==> k in names)
            && (forall k :: k in r ==> 0 <= r[k] < |names| && names[r[k]] == k)
            && (forall k, j :: k in r && r[k] < j < |names| ==> names[j] != k)
  {
    var names, r := init + [last], m[last := |init|];
    assert forall k :: k in names <==> k == last || k in init;
    forall k | k in r && k != last
      ensures names[r[k]] == k
    {
      assert names[m[k]] == init[m[k]];
    }
    forall k, j | k in r && r[k] < j < |names|
      ensures names[j] != k
    {
      if j < |init| {
        assert names[j] == init[j];
      }
    }
  }

  // ------------------------------------------------------------- subtypes

  /** The children of every class in `cs`, in order. */
  function Flatten(cs: seq<Node>): (r: seq<Node>)
    ensures forall g :: g in r <==> exists c :: c in cs && g in c.children
    ensures forall g :: g in r ==> Size(g) < SizeAll(cs)
  {
    if |cs| == 0 then []
    else
      var rest := Flatten(cs[1..]);
      assert forall g :: g in cs[0].children ==> Size(g) < SizeAll(cs) by {
        forall g | g in cs[0].children
          ensures Size(g) < SizeAll(cs)
        {
          var i :| 0 <= i < |cs[0].children| && cs[0].children[i] == g;
          SizeAllBound(cs[0].children, i);
        }
      }
      assert forall c :: c in cs <==> c == cs[0] || c in cs[1..];
      cs[0].children + rest
  }

  /** The variants of a class (class_interface.rb:82). */
  function Grandchildren(n: Node): (r: seq<Node>)
    ensures forall g :: g in r <==> exists c :: c in n.children && g in c.children
    ensures forall g :: g in r ==> Size(g) < Size(n)
  {
    Flatten(n.children)
  }

  /** Flattening distributes over concatenation. */
  lemma {:induction false} FlattenAppend(a: seq<Node>, b: seq<Node>)
    ensures Flatten(a + b) == Flatten(a) + Flatten(b)
  {
    if |a| == 0 {
      assert a + b == b;
    } else {
      assert (a + b)[1..] == a[1..] + b;
      FlattenAppend(a[1..], b);
    }
  }

  /** The variants in `flat_map` order: the children of the `i`-th child come
      after those of every earlier child and before those of every later
      one, each exactly once. */
  lemma GrandchildrenInOrder(n: Node, i: int)
    requires 0 <= i < |n.children|
    ensures Grandchildren(n) == Flatten(n.children[..i]) + n.children[i].children + Flatten(n.children[i + 1..])
  {
    var cs := n.children;
    assert cs == cs[..i] + ([cs[i]] + cs[i + 1..]);
    FlattenAppend(cs[..i], [cs[i]] + cs[i + 1..]);
    FlattenAppend([cs[i]], cs[i + 1..]);
    assert [cs[i]][1..] == [];
  }

  /** Every variant's short name has a rank. */
  predicate Ranked(order: map<string, int>, gs: seq<Node>) {
    forall i :: 0 <= i < |gs| ==> ShortName(gs[i]) in order
  }

  /** A variant's rank; only consulted for ranked variants. */
  function Rank(order: map<string, int>, g: Node): int {
    if ShortName(g) in order then order[ShortName(g)] else 0
  }

  /** The first variant without a rank, when there is one. */
  function FirstUnranked(order: map<string, int>, gs: seq<Node>): (r: Option<string>)
    ensures r.None? <==> Ranked(order, gs)
    ensures r.Some? ==> r.value !in order && exists i :: 0 <= i < |gs| && ShortName(gs[i]) == r.value
  {
    if |gs| == 0 then None
    else if ShortName(gs[0]) !in order then Some(ShortName(gs[0]))
    else
      var r := FirstUnranked(order, gs[1..]);
      assert forall i :: 1 <= i < |gs| ==> gs[i] == gs[1..][i - 1];
      assert r.Some? ==> exists i :: 0 <= i < |gs| && ShortName(gs[i]) == r.value by {
        if r.Some? {
          var j :| 0 <= j < |gs[1..]| && ShortName(gs[1..][j]) == r.value;
          assert ShortName(gs[j + 1]) == r.value;
        }
      }
      r
  }

  predicate SortedBy<T>(key: T -> int, xs: seq<T>) {
    forall i, j :: 0 <= i < j < |xs| ==> key(xs[i]) <= key(xs[j])
  }

  /** Inserts `x` before the first element with a larger key. */
  function InsertBy<T>(key: T -> int, x: T, xs: seq<T>): (r: seq<T>)
    requires SortedBy(key, xs)
    ensures multiset(r) == multiset(xs) + multiset{x}
    ensures SortedBy(key, r)
    ensures r[0] == x || (|xs| > 0 && r[0] == xs[0])
  {
    if |xs| == 0 then [x]
    else if key(x) <= key(xs[0]) then [x] + xs
    else
      var rest := InsertBy(key, x, xs[1..]);
      assert xs == [xs[0]] + xs[1..];
      assert key(xs[0]) <= key(rest[0]);
      [xs[0]] + rest
  }

  /** Sorting by a key (`sort_by`). Ruby's sort is not stable; nothing here
      depends on how equal keys are ordered. */
  function SortBy<T>(key: T -> int, xs: seq<T>): (r: seq<T>)
    ensures multiset(r) == multiset(xs)
    ensures SortedBy(key, r)
  {
    if |xs| == 0 then []
    else
      assert xs == [xs[0]] + xs[1..];
      InsertBy(key, xs[0], SortBy(key, xs[1..]))
  }

  /** The ranks of `gs` never decrease. */
  predicate SortedByRank(order: map<string, int>, gs: seq<Node>) {
    forall i, j :: 0 <= i < j < |gs| ==> Rank(order, gs[i]) <= Rank(order, gs[j])
  }

  /** A rearrangement has the same elements. */
  lemma SameElements<T>(xs: seq<T>, ys: seq<T>)
    requires multiset(xs) == multiset(ys)
    ensures forall y :: y in ys <==> y in xs
  {
    forall y
      ensures y in ys <==> y in xs
    {
      assert y in ys <==> y in multiset(ys);
      assert y in xs <==> y in multiset(xs);
    }
  }

  /** `subtypes` (class_interface.rb:81-89): discovery order without an order
      map; otherwise sorted by rank, and a variant missing from the map makes
      the `fetch` raise. */
  function Subtypes(n: Node): (r: Result<seq<Node>>)
    ensures r.Ok? ==> multiset(r.value) == multiset(Grandchildren(n))
    ensures r.Ok? ==> forall g :: g in r.value ==> Size(g) < Size(n)
    ensures |n.order| == 0 ==> r == Ok(Grandchildren(n))
    ensures |n.order| > 0 ==> (r.Ok? <==> Ranked(n.order, Grandchildren(n)))
    ensures |n.order| > 0 && r.Ok? ==> Ranked(n.order, r.value) && SortedByRank(n.order, r.value)
    ensures r.Err? ==> r.error.KeyError? && r.error.key !in n.order
  {
    var gs := Grandchildren(n);
    if |n.order| == 0 then Ok(gs)
    else
      match FirstUnranked(n.order, gs)
      case Some(name) => Err(KeyError(name))
      case None =>
        var key := g => Rank(n.order, g);
        var sorted := SortBy(key, gs);
        SameElements(gs, sorted);
        assert Ranked(n.order, sorted) by {
          forall i | 0 <= i < |sorted|
            ensures ShortName(sorted[i]) in n.order
          {
            assert sorted[i] in gs;
            var j :| 0 <= j < |gs| && gs[j] == sorted[i];
          }
        }
        assert SortedByRank(n.order, sorted) by {
          forall i, j | 0 <= i < j < |sorted|
            ensures Rank(n.order, sorted[i]) <= Rank(n.order, sorted[j])
          {
            assert key(sorted[i]) <= key(sorted[j]);
          }
        }
        Ok(sorted)
  }

  // ----------------------------------------------------------------- fold

  /** The fold state: `{value}` / `{value, errors}`, `{result}`, or an
      exception unwinding through the remaining steps. */
  datatype FoldState =
    | Pending(value: Value, errors: seq<Error>)
    | Done(result: Value)
    | Raised(error: Error)

  /** The error a failed attempt contributes: a struct error is re-raised as
      a constraint error carrying the input; other coercion errors stay. */
  function Wrap(e: Error, v: Value): (r: Error)
    ensures !r.StructError?
    ensures IsCoercion(r) <==> IsCoercion(e)
    ensures e.StructError? ==> r == ConstraintError(v)
    ensures !e.StructError? ==> r == e
  {
    if e.StructError? then ConstraintError(v) else e
  }

  /** The name a dispatching class displays: marked classes show their short
      name (interfaces/common.rb), an unmarked root its qualified name. */
  function DisplayName(n: Node): string {
    if n.kind == AbstractKind then ShortName(n) else n.qname
  }

  /** `call` on a class of the fold design. Concrete and Value classes use
      the plain struct call (interfaces/concrete.rb:23-30), which returns an
      instance of the class or of any class under it as it is and builds
      anything else. Unit classes keep the plain `call` too, but build through
      the promoting `new` (interfaces/unit.rb:9-15). Everything else is
      delegated to `subtype` (class_interface.rb:17-19). */
  function Call(n: Node, v: Value, L: Leaves): (r: Result<Value>)
    decreases Size(n), 2
    ensures n.kind == ConcreteKind && IsScalar(v) ==> r == Err(StructError(n.qname, v))
    ensures n.kind == UnitKind && v.Instance? ==> r == Ok(v)
    ensures !Dispatches(n.kind) && v.Instance? && Descends(n, v.cls) ==> r == Ok(v)
    ensures (n.kind == ConcreteKind || n.kind == ValueKind) && r.Ok? ==>
              r.value.Instance? && Descends(n, r.value.cls)
    ensures Dispatches(n.kind) && Subtypes(n).Err? ==> r == Err(Subtypes(n).error)
  {
    match n.kind
    case ConcreteKind => StructCall(n, v, L)
    case ValueKind => StructCall(n, v, L)
    case UnitKind => if v.Instance? && Descends(n, v.cls) then Ok(v) else PromotingNew(n, v, L)
    case _ => Dispatch(n, v, Raise, L)
  }

  /** The strict schema reads a class's attributes only, never its
      descendants. */
  lemma SchemaIgnoresChildren(n: Node, cs: seq<Node>, input: Value, L: Leaves)
    ensures RunSchema(n.(children := cs), input, L) == RunSchema(n, input, L)
  {
    var m := n.(children := cs);
    assert forall k :: KnownKey(m, k) == KnownKey(n, k);
    if input.Hash? {
      FirstUnknownSameAttrs(m, n, input.entries);
    }
  }

  /** Two classes with the same attributes agree on the first unknown key. */
  lemma {:induction false} FirstUnknownSameAttrs(m: Node, n: Node, entries: seq<(Value, Value)>)
    requires m.attrs == n.attrs
    ensures FirstUnknown(m, entries) == FirstUnknown(n, entries)
  {
    if |entries| > 0 {
      assert KnownKey(m, entries[0].0) == KnownKey(n, entries[0].0);
      FirstUnknownSameAttrs(m, n, entries[1..]);
    }
  }

  /** Plain construction reads a class's name, kind and attributes only. */
  lemma StructNewIgnoresChildren(n: Node, cs: seq<Node>, v: Value, L: Leaves)
    ensures StructNew(n.(children := cs), v, L) == StructNew(n, v, L)
  {
    SchemaStepIgnoresChildren(n, cs, SchemaInput(v), L);
  }

  /** The schema step, fallback included, reads no descendants. */
  lemma SchemaStepIgnoresChildren(n: Node, cs: seq<Node>, input: Value, L: Leaves)
    ensures SchemaStep(n.(children := cs), input, L) == SchemaStep(n, input, L)
  {
    var m := n.(children := cs);
    SchemaIgnoresChildren(n, cs, input, L);
    if n.kind == ValueKind {
      assert AttributeNames(m) == AttributeNames(n);
      if |n.attrs| == 1 {
        SchemaIgnoresChildren(n, cs, Hash([(Sym(AttributeNames(n)[0]), input)]), L);
      }
      assert ValueFallback(m, input, Raise, L) == ValueFallback(n, input, Raise, L);
    }
  }

  /** The classes declared under a class that does not dispatch matter only
      as classes whose instances `call` returns as they are: any other input
      is built exactly as if nothing were declared under it
      (interfaces/concrete.rb:23-30, interfaces/unit.rb:9-15). */
  lemma LeafIgnoresVariants(n: Node, cs: seq<Node>, v: Value, L: Leaves)
    requires !Dispatches(n.kind)
    ensures v.Instance? && Descends(n.(children := cs), v.cls) ==> Call(n.(children := cs), v, L) == Ok(v)
    ensures !(v.Instance? && Descends(n.(children := cs), v.cls)) ==>
              Call(n.(children := cs), v, L) == Call(n.(children := []), v, L)
  {
    var m := n.(children := cs);
    var bare := n.(children := []);
    if !(v.Instance? && Descends(m, v.cls)) {
      assert !(v.Instance? && Descends(bare, v.cls));
      StructNewIgnoresChildren(n, cs, v, L);
      StructNewIgnoresChildren(n, [], v, L);
      if n.kind == UnitKind && IsScalar(v) && |n.attrs| == 1 {
        StructNewIgnoresChildren(n, cs, Hash([(Sym(n.attrs[0].name), v)]), L);
        StructNewIgnoresChildren(n, [], Hash([(Sym(n.attrs[0].name), v)]), L);
      }
    }
  }

  /** A Concrete class does not promote scalars: a scalar input is a struct
      error carrying the input. */
  lemma ConcreteRejectsScalar(n: Node, v: Value, L: Leaves)
    requires n.kind == ConcreteKind && IsScalar(v)
    ensures Call(n, v, L) == Err(StructError(n.qname, v))
  {
    assert !v.Hash? && !v.Instance?;
    assert RunSchema(n, v, L) == Err(CoercionError(v));
    assert SchemaStep(n, v, L) == Err(CoercionError(v));
    assert IsCoercion(CoercionError(v));
    assert StructNew(n, v, L) == Err(StructError(n.qname, v));
  }

  /** A Unit class hands back a struct instance of any class as it is. */
  lemma UnitKeepsInstances(n: Node, v: Value, L: Leaves)
    requires n.kind == UnitKind && v.Instance?
    ensures Call(n, v, L) == Ok(v)
  {
  }

  /** The body of `subtype` (class_interface.rb:55-76), with error handler `h`. */
  function Dispatch(n: Node, v: Value, h: Handler, L: Leaves): (r: Result<Value>)
    decreases Size(n), 1
    ensures Subtypes(n).Err? ==> r == Err(Subtypes(n).error)
    ensures Subtypes(n) == Ok([]) ==> r == Err(NotImplemented(DisplayName(n)))
    ensures r.Err? && h.Rescue? ==> !IsCoercion(r.error)
  {
    match Subtypes(n)
    case Err(e) => Err(e)
    case Ok(subs) =>
      if |subs| == 0 then Err(NotImplemented(DisplayName(n)))
      else Outcome(Fold(n, subs, Pending(v, []), L), h)
  }

  /** What `subtype` makes of the final fold state: the result, the exception,
      or the collected errors as one aggregate error given to the handler. */
  function Outcome(st: FoldState, h: Handler): Result<Value> {
    match st
    case Done(r) => Ok(r)
    case Raised(e) => Err(e)
    case Pending(_, errs) => Handle(h, MultipleError(errs))
  }

  /** `subtypes.reduce(state, &method(:reduce))`. */
  function Fold(n: Node, subs: seq<Node>, st: FoldState, L: Leaves): (r: FoldState)
    requires forall g :: g in subs ==> Size(g) < Size(n)
    decreases Size(n), 0, |subs|
    ensures r.Pending? ==> st.Pending? && r.value == st.value
                           && |r.errors| == |st.errors| + |subs| && r.errors[..|st.errors|] == st.errors
    ensures r.Raised? && !st.Raised? ==> !IsCoercion(r.error)
    ensures !st.Pending? ==> r == st
  {
    if |subs| == 0 then st
    else
      var next := Reduce(n, subs[0], st, L);
      var r := Fold(n, subs[1..], next, L);
      assert r.Pending? ==> r.errors[..|st.errors|] == next.errors[..|st.errors|];
      r
  }

  /** One step of the fold (class_interface.rb:38-50). */
  function Reduce(n: Node, g: Node, st: FoldState, L: Leaves): (r: FoldState)
    requires Size(g) < Size(n)
    decreases Size(n), 0, 0
    ensures !st.Pending? ==> r == st
    ensures st.Pending? ==> (r.Done? <==> Call(g, st.value, L).Ok?)
    ensures st.Pending? ==> (r.Pending? <==> Call(g, st.value, L).Err? && IsCoercion(Call(g, st.value, L).error))
    ensures r.Pending? ==> r.value == st.value && |r.errors| == |st.errors| + 1
                           && r.errors[..|st.errors|] == st.errors
    ensures r.Raised? && !st.Raised? ==> !IsCoercion(r.error)
  {
    match st
    case Pending(v, errs) =>
      (match Call(g, v, L)
       case Ok(r) => Done(r)
       case Err(e) => if IsCoercion(e) then Pending(v, errs + [Wrap(e, v)]) else Raised(e))
    case _ => st
  }

  // -------------------------------------------------- reference definition

  /** The attempt on `g` fails with an error the fold records. */
  predicate Rejects(g: Node, v: Value, L: Leaves) {
    Recorded(Call(g, v, L))
  }

  /** An answer that is an error the fold records. */
  predicate Recorded(c: Result<Value>) {
    c.Err? && IsCoercion(c.error)
  }

  /** The answer of every variant to the same input, in order. */
  function Calls(subs: seq<Node>, v: Value, L: Leaves): (cs: seq<Result<Value>>)
    ensures |cs| == |subs| && forall i :: 0 <= i < |subs| ==> cs[i] == Call(subs[i], v, L)
  {
    seq(|subs|, i requires 0 <= i < |subs| => Call(subs[i], v, L))
  }

  /** First-success search written directly, without a fold: try the
      variants in order on the same input, stop at the first success or at
      the first error that is not recorded, and otherwise list one error per
      variant. */
  function Search(subs: seq<Node>, v: Value, L: Leaves): FoldState {
    SearchOver(Calls(subs, v, L), v)
  }

  /** The search over the variants' answers `cs`. */
  function SearchOver(cs: seq<Result<Value>>, v: Value): FoldState {
    if |cs| == 0 then Pending(v, [])
    else
      match cs[0]
      case Ok(x) => Done(x)
      case Err(e) =>
        if !IsCoercion(e) then Raised(e)
        else
          var rest := SearchOver(cs[1..], v);
          if rest.Pending? then Pending(v, [Wrap(e, v)] + rest.errors) else rest
  }

  /** Dropping the first variant drops its answer. */
  lemma CallsTail(subs: seq<Node>, v: Value, L: Leaves)
    requires |subs| > 0
    ensures Calls(subs, v, L)[1..] == Calls(subs[1..], v, L)
  {
    assert forall i :: 0 <= i < |subs| - 1 ==> Calls(subs, v, L)[1..][i] == Call(subs[1..][i], v, L);
  }

  /** The answers of two lists of variants, one after the other. */
  lemma CallsAppend(subs: seq<Node>, more: seq<Node>, v: Value, L: Leaves)
    ensures Calls(subs + more, v, L) == Calls(subs, v, L) + Calls(more, v, L)
  {
    var cs, ds := Calls(subs, v, L), Calls(more, v, L);
    forall i | 0 <= i < |subs| + |more|
      ensures Calls(subs + more, v, L)[i] == (cs + ds)[i]
    {
      if i < |subs| {
        assert (subs + more)[i] == subs[i];
      } else {
        assert (subs + more)[i] == more[i - |subs|];
      }
    }
  }

  /** The search over answers fails softly exactly when every answer is
      recorded, and then wraps each of them, in order. */
  lemma {:induction false} SearchOverPending(cs: seq<Result<Value>>, v: Value)
    ensures var r := SearchOver(cs, v);
            && (r.Pending? <==> forall i :: 0 <= i < |cs| ==> Recorded(cs[i]))
            && (r.Pending? ==> r.value == v && |r.errors| == |cs|
                               && forall i :: 0 <= i < |cs| ==> cs[i].Err? && r.errors[i] == Wrap(cs[i].error, v))
  {
    if |cs| > 0 {
      var tail := cs[1..];
      SearchOverPending(tail, v);
      assert forall i :: 1 <= i < |cs| ==> cs[i] == tail[i - 1];
      if !Recorded(cs[0]) {
        assert !SearchOver(cs, v).Pending?;
      }
    }
  }

  /** A search over answers that stops does so at the first answer not
      recorded, with its result or its error. */
  lemma {:induction false} SearchOverStops(cs: seq<Result<Value>>, v: Value) returns (k: nat)
    ensures var r := SearchOver(cs, v);
            !r.Pending? ==> k < |cs| && (forall j :: 0 <= j < k ==> Recorded(cs[j]))
                            && (r.Done? ==> cs[k] == Ok(r.result))
                            && (r.Raised? ==> cs[k] == Err(r.error) && !IsCoercion(r.error))
  {
    k := 0;
    if |cs| > 0 && Recorded(cs[0]) {
      var tail := cs[1..];
      var i := SearchOverStops(tail, v);
      if !SearchOver(tail, v).Pending? {
        k := i + 1;
        assert forall j :: 1 <= j < k ==> cs[j] == tail[j - 1];
      }
    }
  }

  /** Answers after the first success are never looked at. */
  lemma {:induction false} SearchOverIgnoresLater(cs: seq<Result<Value>>, more: seq<Result<Value>>, v: Value, i: nat)
    requires i < |cs| && cs[i].Ok? && forall j :: 0 <= j < i ==> Recorded(cs[j])
    ensures SearchOver(cs + more, v) == SearchOver(cs, v) == Done(cs[i].value)
  {
    if i > 0 {
      assert (cs + more)[1..] == cs[1..] + more;
      SearchOverIgnoresLater(cs[1..], more, v, i - 1);
    }
  }

  /** The search fails softly exactly when every variant is rejected, and
      then records each variant's error, wrapped, in order. */
  lemma SearchPendingSpec(subs: seq<Node>, v: Value, L: Leaves)
    ensures var r := Search(subs, v, L);
            && (r.Pending? <==> forall i :: 0 <= i < |subs| ==> Rejects(subs[i], v, L))
            && (r.Pending? ==> r.value == v && |r.errors| == |subs|
                               && forall i :: 0 <= i < |subs| ==>
                                    Call(subs[i], v, L).Err? && r.errors[i] == Wrap(Call(subs[i], v, L).error, v))
  {
    SearchOverPending(Calls(subs, v, L), v);
  }

  /** A search that ends with a result got it from the first variant not
      rejected. */
  lemma SearchDoneSpec(subs: seq<Node>, v: Value, L: Leaves)
    ensures var r := Search(subs, v, L);
            r.Done? ==> exists i :: 0 <= i < |subs| && Call(subs[i], v, L) == Ok(r.result)
                                    && forall j :: 0 <= j < i ==> Rejects(subs[j], v, L)
  {
    var k := SearchOverStops(Calls(subs, v, L), v);
    if Search(subs, v, L).Done? {
      assert Call(subs[k], v, L) == Ok(Search(subs, v, L).result);
    }
  }

  /** A search that ends with an exception got it from the first variant not
      rejected. */
  lemma SearchRaisedSpec(subs: seq<Node>, v: Value, L: Leaves)
    ensures var r := Search(subs, v, L);
            r.Raised? ==> exists i :: 0 <= i < |subs| && Call(subs[i], v, L) == Err(r.error)
                                      && !IsCoercion(r.error)
                                      && forall j :: 0 <= j < i ==> Rejects(subs[j], v, L)
  {
    var k := SearchOverStops(Calls(subs, v, L), v);
    if Search(subs, v, L).Raised? {
      assert Call(subs[k], v, L) == Err(Search(subs, v, L).error);
    }
  }

  /** A search that stops does so at the first variant not rejected: with
      its result, or with its unrecorded error. */
  lemma SearchStopSpec(subs: seq<Node>, v: Value, L: Leaves)
    ensures var r := Search(subs, v, L);
            && (r.Done? ==> exists i :: 0 <= i < |subs| && Call(subs[i], v, L) == Ok(r.result)
                                        && forall j :: 0 <= j < i ==> Rejects(subs[j], v, L))
            && (r.Raised? ==> exists i :: 0 <= i < |subs| && Call(subs[i], v, L) == Err(r.error)
                                          && !IsCoercion(r.error)
                                          && forall j :: 0 <= j < i ==> Rejects(subs[j], v, L))
  {
    SearchDoneSpec(subs, v, L);
    SearchRaisedSpec(subs, v, L);
  }

  /** Puts already collected errors in front of a pending state. */
  function Prefix(es: seq<Error>, st: FoldState): FoldState {
    if st.Pending? then Pending(st.value, es + st.errors) else st
  }

  /** The fold of class_interface.rb computes the direct search. */
  lemma {:induction false} FoldIsSearch(n: Node, subs: seq<Node>, v: Value, es: seq<Error>, L: Leaves)
    requires forall g :: g in subs ==> Size(g) < Size(n)
    ensures Fold(n, subs, Pending(v, es), L) == Prefix(es, Search(subs, v, L))
  {
    if |subs| == 0 {
      assert es + [] == es;
    } else {
      var c := FoldStep(n, subs, v, es, L);
      if c.Err? && IsCoercion(c.error) {
        var w := Wrap(c.error, v);
        FoldIsSearch(n, subs[1..], v, es + [w], L);
        PrefixStep(es, w, v, Fold(n, subs[1..], Pending(v, es + [w]), L), Search(subs[1..], v, L));
      }
    }
  }

  /** Moving one recorded error from the collected ones to the front of the
      search's own keeps the prefixed state. */
  lemma PrefixStep(es: seq<Error>, w: Error, v: Value, f: FoldState, rest: FoldState)
    requires f == Prefix(es + [w], rest) && (f.Pending? ==> f.value == v)
    ensures f == Prefix(es, if rest.Pending? then Pending(v, [w] + rest.errors) else rest)
  {
    if rest.Pending? {
      assert (es + [w]) + rest.errors == es + ([w] + rest.errors);
    }
  }

  /** The first variant's answer `c`, and what the fold and the search make
      of it. */
  lemma FoldStep(n: Node, subs: seq<Node>, v: Value, es: seq<Error>, L: Leaves) returns (c: Result<Value>)
    requires |subs| > 0 && forall g :: g in subs ==> Size(g) < Size(n)
    ensures c.Ok? ==> Fold(n, subs, Pending(v, es), L) == Done(c.value) == Search(subs, v, L)
    ensures c.Err? && !IsCoercion(c.error) ==> Fold(n, subs, Pending(v, es), L) == Raised(c.error) == Search(subs, v, L)
    ensures c.Err? && IsCoercion(c.error) ==>
              Fold(n, subs, Pending(v, es), L) == Fold(n, subs[1..], Pending(v, es + [Wrap(c.error, v)]), L)
              && var rest := Search(subs[1..], v, L);
                 Search(subs, v, L) == if rest.Pending? then Pending(v, [Wrap(c.error, v)] + rest.errors) else rest
  {
    c := Call(subs[0], v, L);
    CallsTail(subs, v, L);
  }

  // --------------------------------------------------- resolution results

  /** What `subtype` does once the variants are known and there is at least
      one: the search's success, its unrescued exception, or one aggregate
      error handed to the handler. */
  lemma DispatchIsSearch(n: Node, v: Value, h: Handler, L: Leaves)
    requires Subtypes(n).Ok? && |Subtypes(n).value| > 0
    ensures Dispatch(n, v, h, L) == Outcome(Search(Subtypes(n).value, v, L), h)
  {
    var s := Search(Subtypes(n).value, v, L);
    FoldIsSearch(n, Subtypes(n).value, v, [], L);
    if s.Pending? {
      assert [] + s.errors == s.errors;
    }
  }

  /** The earliest variant that succeeds gives the result, whatever the
      handler. */
  lemma FirstSuccessWins(n: Node, v: Value, h: Handler, L: Leaves, i: int)
    requires Subtypes(n).Ok? && 0 <= i < |Subtypes(n).value|
    requires Call(Subtypes(n).value[i], v, L).Ok?
    requires forall j :: 0 <= j < i ==> Rejects(Subtypes(n).value[j], v, L)
    ensures Dispatch(n, v, h, L) == Call(Subtypes(n).value[i], v, L)
  {
    var subs := Subtypes(n).value;
    DispatchIsSearch(n, v, h, L);
    LaterVariantsIgnored(subs, [], v, L, i);
    assert subs + [] == subs;
  }

  /** When every variant fails with a recorded error, the handler receives
      one aggregate error with one entry per variant, in attempt order, each
      the attempt's own error re-wrapped when it was a struct error. */
  lemma AllFailAggregates(n: Node, v: Value, h: Handler, L: Leaves)
    requires Subtypes(n).Ok? && |Subtypes(n).value| > 0
    requires forall i :: 0 <= i < |Subtypes(n).value| ==> Rejects(Subtypes(n).value[i], v, L)
    ensures var subs := Subtypes(n).value;
            exists errs: seq<Error> ::
              && |errs| == |subs|
              && (forall i :: 0 <= i < |subs| ==>
                    Call(subs[i], v, L).Err? && errs[i] == Wrap(Call(subs[i], v, L).error, v))
              && Dispatch(n, v, h, L) == Handle(h, MultipleError(errs))
  {
    DispatchIsSearch(n, v, h, L);
    SearchPendingSpec(Subtypes(n).value, v, L);
    var errs := Search(Subtypes(n).value, v, L).errors;
    assert Dispatch(n, v, h, L) == Handle(h, MultipleError(errs));
  }

  /** Under the default handler a successful resolution is the result of
      one variant, every earlier variant having been rejected. */
  lemma SuccessComesFromVariant(n: Node, v: Value, L: Leaves)
    requires Subtypes(n).Ok? && |Subtypes(n).value| > 0
    requires Dispatch(n, v, Raise, L).Ok?
    ensures var subs := Subtypes(n).value;
            exists i :: 0 <= i < |subs| && Call(subs[i], v, L) == Dispatch(n, v, Raise, L)
                        && forall j :: 0 <= j < i ==> Rejects(subs[j], v, L)
  {
    DispatchIsSearch(n, v, Raise, L);
    SearchStopSpec(Subtypes(n).value, v, L);
  }

  /** An error the fold does not record aborts the resolution: it is the
      error of one variant, every earlier variant having been rejected, and
      the handler never sees it. */
  lemma UnrecordedErrorAborts(n: Node, v: Value, h: Handler, L: Leaves)
    requires Subtypes(n).Ok? && |Subtypes(n).value| > 0
    requires Dispatch(n, v, h, L).Err? && !IsCoercion(Dispatch(n, v, h, L).error)
    ensures var subs := Subtypes(n).value;
            exists i :: 0 <= i < |subs| && Call(subs[i], v, L) == Dispatch(n, v, h, L)
                        && forall j :: 0 <= j < i ==> Rejects(subs[j], v, L)
  {
    DispatchIsSearch(n, v, h, L);
    SearchStopSpec(Subtypes(n).value, v, L);
  }

  /** With the default handler an all-failing resolution raises the
      aggregate error. */
  lemma AllFailRaises(n: Node, v: Value, L: Leaves)
    requires Subtypes(n).Ok? && |Subtypes(n).value| > 0
    requires forall i :: 0 <= i < |Subtypes(n).value| ==> Rejects(Subtypes(n).value[i], v, L)
    ensures Dispatch(n, v, Raise, L).Err?
    ensures Dispatch(n, v, Raise, L).error.MultipleError?
    ensures |Dispatch(n, v, Raise, L).error.errors| == |Subtypes(n).value|
  {
    AllFailAggregates(n, v, Raise, L);
  }

  /** A class without variants raises NotImplementedError; the handler is
      not consulted. */
  lemma NoSubtypesNotImplemented(n: Node, v: Value, h: Handler, L: Leaves)
    requires Subtypes(n) == Ok([])
    ensures Dispatch(n, v, h, L) == Err(NotImplemented(DisplayName(n)))
  {
  }

  /** Variants after the first success are never consulted: appending any
      further variants does not change the outcome. */
  lemma LaterVariantsIgnored(subs: seq<Node>, more: seq<Node>, v: Value, L: Leaves, i: int)
    requires 0 <= i < |subs|
    requires Call(subs[i], v, L).Ok?
    requires forall j :: 0 <= j < i ==> Rejects(subs[j], v, L)
    ensures Search(subs + more, v, L) == Search(subs, v, L) == Done(Call(subs[i], v, L).value)
  {
    CallsAppend(subs, more, v, L);
    SearchOverIgnoresLater(Calls(subs, v, L), Calls(more, v, L), v, i);
  }

  // ---------------------------------------------------------------- to_s

  /** `Name<[a | b]>`. */
  function Render(name: string, parts: seq<string>): (r: string)
    ensures |r| >= |name| + 4
    ensures r[..|name| + 2] == name + "<[" && r[|r| - 2..] == "]>"
    ensures |parts| == 0 ==> r == name + "<[]>"
    ensures |parts| == 1 ==> r == name + "<[" + parts[0] + "]>"
    ensures |parts| >= 2 ==> r == name + "<[" + parts[0] + " | " + Join(parts[1..], " | ") + "]>"
  {
    var r := name + "<[" + Join(parts, " | ") + "]>";
    assert r[..|name| + 2] == name + "<[";
    r
  }

  /** `to_s`: a Concrete or Unit class shows its short name
      (interfaces/concrete.rb:41-43, interfaces/unit.rb:21-23); a dispatching
      class shows `Name<[a | b]>` over its subtypes in resolution order
      (class_interface.rb:34-36). Rendering fails only when the subtypes
      cannot be listed. */
  function ToS(n: Node): (r: Result<string>)
    decreases Size(n)
    ensures !Dispatches(n.kind) ==> r == Ok(ShortName(n))
    ensures Dispatches(n.kind) && Subtypes(n).Err? ==> r == Err(Subtypes(n).error)
    ensures Dispatches(n.kind) && Subtypes(n).Ok? ==>
              (r.Ok? <==> forall i :: 0 <= i < |Subtypes(n).value| ==> ToS(Subtypes(n).value[i]).Ok?)
  {
    if !Dispatches(n.kind) then Ok(ShortName(n))
    else
      match Subtypes(n)
      case Err(e) => Err(e)
      case Ok(subs) =>
        var rs := seq(|subs|, i requires 0 <= i < |subs| => ToS(subs[i]));
        assert forall i :: 0 <= i < |subs| ==> rs[i] == ToS(subs[i]);
        match Collect(rs)
        case Err(e) => Err(e)
        case Ok(parts) => Ok(Render(DisplayName(n), parts))
  }

  /** A dispatching class's rendering is `Render` over its variants'
      renderings, in resolution order. */
  lemma ToSRenders(n: Node)
    requires Dispatches(n.kind) && ToS(n).Ok?
    ensures exists parts: seq<string> ::
              && |parts| == |Subtypes(n).value|
              && (forall i :: 0 <= i < |parts| ==> Ok(parts[i]) == ToS(Subtypes(n).value[i]))
              && ToS(n).value == Render(DisplayName(n), parts)
  {
    var subs := Subtypes(n).value;
    var rs := seq(|subs|, i requires 0 <= i < |subs| => ToS(subs[i]));
    assert forall i :: 0 <= i < |subs| ==> rs[i] == ToS(subs[i]);
    var parts := Collect(rs).value;
    assert forall i :: 0 <= i < |parts| ==> Ok(parts[i]) == ToS(subs[i]);
    assert ToS(n).value == Render(DisplayName(n), parts);
  }

  /** Each part shows up in the rendering, in order, after the brackets. */
  lemma RenderContains(name: string, parts: seq<string>, i: nat)
    requires i < |parts|
    ensures OccursAt(Render(name, parts), parts[i], |name| + 2 + PartOffset(parts, " | ", i))
  {
    JoinContains(parts, " | ", i);
    OccursInside(name + "<[", Join(parts, " | "), "]>", parts[i], PartOffset(parts, " | ", i));
  }

  /** A dispatching class's rendering contains the rendering of each of its
      variants. */
  lemma ToSIncludesVariants(n: Node, i: nat)
    requires Dispatches(n.kind) && ToS(n).Ok?
    requires i < |Subtypes(n).value|
    ensures ToS(Subtypes(n).value[i]).Ok?
    ensures exists k :: OccursAt(ToS(n).value, ToS(Subtypes(n).value[i]).value, k)
  {
    ToSRenders(n);
    var parts: seq<string> :| && |parts| == |Subtypes(n).value|
                              && (forall j :: 0 <= j < |parts| ==> Ok(parts[j]) == ToS(Subtypes(n).value[j]))
                              && ToS(n).value == Render(DisplayName(n), parts);
    assert Ok(parts[i]) == ToS(Subtypes(n).value[i]);
    RenderContains(DisplayName(n), parts, i);
  }

  /** Two parts are shown separated by `" | "`. */
  lemma RenderTwo(name: string, parts: seq<string>)
    requires |parts| == 2
    ensures Render(name, parts) == name + "<[" + parts[0] + " | " + parts[1] + "]>"
  {
    assert parts[1..] == [parts[1]];
  }

  /** Two variants render as `Name<[a | b]>`, in resolution order. */
  lemma TwoVariantRendering(n: Node, g: Node, h: Node, a: string, b: string)
    requires Dispatches(n.kind) && Subtypes(n) == Ok([g, h])
    requires ToS(g) == Ok(a) && ToS(h) == Ok(b)
    ensures ToS(n) == Ok(DisplayName(n) + "<[" + a + " | " + b + "]>")
  {
    assert ToS(n).Ok?;
    ToSRenders(n);
    var parts: seq<string> :| && |parts| == 2 && Ok(parts[0]) == ToS(g) && Ok(parts[1]) == ToS(h)
                              && ToS(n).value == Render(DisplayName(n), parts);
    RenderTwo(DisplayName(n), parts);
  }

  /** A dispatching class with a single variant renders as that variant's
      rendering in brackets. */
  lemma SingleVariantRendering(n: Node, g: Node, text: string)
    requires Dispatches(n.kind) && Subtypes(n) == Ok([g]) && ToS(g) == Ok(text)
    ensures ToS(n) == Ok(DisplayName(n) + "<[" + text + "]>")
    ensures ToS(n).Ok? && ToS(n).value == DisplayName(n) + "<[" + text + "]>"
  {
    assert ToS(n).Ok?;
    ToSRenders(n);
    var parts: seq<string> :| |parts| == 1 && Ok(parts[0]) == ToS(g)
                              && ToS(n).value == Render(DisplayName(n), parts);
    assert parts == [text];
  }

  // The hierarchy of spec/dry/interface/integration/abstract_spec.rb:62-75:
  // `Person` with an abstract variant `Runner`, which has the unit variant
  // `Slow`.

  function SlowExample(): Node {
    Node("Slow", UnitKind, [], [], map[])
  }

  function RunnerExample(): Node {
    Node("Runner", AbstractKind, [], [Node("Runner::Unit", UnitKind, [], [SlowExample()], map[])], map[])
  }

  function PersonExample(): Node {
    Node("Person", RootKind, [], [Node("Person::Abstract", AbstractKind, [], [RunnerExample()], map[])], map[])
  }

  /** Each example class has its one variant as its subtypes. */
  lemma ExampleSubtypes()
    ensures Subtypes(RunnerExample()) == Ok([SlowExample()])
    ensures Subtypes(PersonExample()) == Ok([RunnerExample()])
  {
    var runner := RunnerExample();
    var person := PersonExample();
    assert runner.children[1..] == [] && person.children[1..] == [];
    assert Flatten([]) == [];
    assert Grandchildren(runner) == [SlowExample()] + Flatten([]) == [SlowExample()];
    assert Grandchildren(person) == [runner] + Flatten([]) == [runner];
  }

  lemma RunnerRendering(runner: Node)
    requires runner == RunnerExample()
    ensures ToS(runner) == Ok("Runner<[Slow]>")
  {
    ExampleSubtypes();
    assert !HasSep("Slow") && !HasSep("Runner");
    SingleVariantRendering(runner, SlowExample(), "Slow");
    assert "Runner" + "<[" + "Slow" + "]>" == "Runner<[Slow]>";
  }

  lemma NestedRendering(person: Node)
    requires person == PersonExample()
    ensures ToS(person) == Ok("Person<[Runner<[Slow]>]>")
  {
    ExampleSubtypes();
    RunnerRendering(RunnerExample());
    SingleVariantRendering(person, RunnerExample(), "Runner<[Slow]>");
    PersonText();
  }

  lemma PersonText()
    ensures "Person" + "<[" + "Runner<[Slow]>" + "]>" == "Person<[Runner<[Slow]>]>"
  {
  }
}
