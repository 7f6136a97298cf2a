/** Runtime values, errors and the Result wrapper shared by every module.

    A `Value` is what a caller hands to a constructor: a scalar, an array, a
    hash (an ordered list of key/value pairs, as Ruby hashes are ordered) or an
    already-built struct instance, which remembers the qualified name of its
    class and its attribute pairs. Floating point numbers are not modelled.
 */
module Values {

  datatype Value =
    | Str(s: string)
    | Sym(name: string)
    | Int(i: int)
    | Nil
    | Arr(items: seq<Value>)
    | Hash(entries: seq<(Value, Value)>)
    | Instance(cls: string, attrs: seq<(Value, Value)>)

  /** A scalar is anything that is neither a hash nor a struct instance. */
  predicate IsScalar(v: Value) {
    !v.Hash? && !v.Instance?
  }

  /** Why an ArgumentError was raised. */
  datatype ArgReason =
    | NoAttributes                    // a promoting class declares no attribute
    | ManyAttributes(count: nat)      // a promoting class declares two or more
    | AttributeCount(count: nat)      // a Value class without exactly one attribute name
    | UnknownTypeRef(ref: string)     // a type reference missing from the registry
    | NotConvertible(v: Value)        // a descriptor that no conversion accepts
    | NoType                          // an attribute declared without any type

  /** The exceptions of the library and of the libraries it builds on.
      The first six are, in dry-types and dry-struct, subclasses of
      `Dry::Types::CoercionError`; the others are not. */
  datatype Error =
    | StructError(cls: string, input: Value)  // Dry::Struct::Error
    | ConstraintError(input: Value)           // Dry::Types::ConstraintError
    | CoercionError(input: Value)             // Dry::Types::CoercionError
    | MultipleError(errors: seq<Error>)       // Dry::Types::MultipleError
    | MissingKey(key: string)                 // Dry::Types::MissingKeyError
    | UnknownKey(extra: Value)                // Dry::Types::UnknownKeysError
    | NotImplemented(cls: string)             // NotImplementedError
    | ArgumentError(reason: ArgReason)        // ArgumentError
    | KeyError(key: string)                   // KeyError from Hash#fetch
    | RuntimeError(cls: string)               // RuntimeError from a bare `raise`
    | UndefinedMethod(name: string)           // NameError: `alias_method` of a missing
                                              // method, or a method called on nil

  /** True for the errors a `rescue Dry::Types::CoercionError` catches. */
  predicate IsCoercion(e: Error) {
    e.StructError? || e.ConstraintError? || e.CoercionError? || e.MultipleError?
    || e.MissingKey? || e.UnknownKey?
  }

  datatype Option<+T> = None | Some(value: T)

  datatype Result<+T> = Ok(value: T) | Err(error: Error) {
    predicate IsFailure() {
      Err?
    }

    function PropagateFailure<U>(): Result<U>
      requires Err?
    {
      Err(error)
    }

    function Extract(): T
      requires Ok?
    {
      value
    }
  }

  /** An error handler given to a `call_safe`-style entry point: either the
      default one, which raises, or a block whose return value is used as the
      result in place of the failure. */
  datatype Handler = Raise | Rescue(block: Error -> Value)

  function Handle(h: Handler, e: Error): (r: Result<Value>)
    ensures h.Raise? ==> r == Err(e)
    ensures h.Rescue? ==> r == Ok(h.block(e))
  {
    match h
    case Raise => Err(e)
    case Rescue(f) => Ok(f(e))
  }

  /** Evaluates a list of results left to right and stops at the first
      failure, the way a Ruby `map` stops at the first exception. */
  function Collect<T>(rs: seq<Result<T>>): (r: Result<seq<T>>)
    ensures r.Ok? <==> forall i :: 0 <= i < |rs| ==> rs[i].Ok?
    ensures r.Ok? ==> |r.value| == |rs| && forall i :: 0 <= i < |rs| ==> r.value[i] == rs[i].value
    ensures r.Err? ==> exists i :: 0 <= i < |rs| && rs[i] == Err(r.error) && forall j :: 0 <= j < i ==> rs[j].Ok?
  {
    if |rs| == 0 then Ok([])
    else
      match rs[0]
      case Err(e) => Err(e)
      case Ok(x) =>
        match Collect(rs[1..])
        case Ok(xs) => Ok([x] + xs)
        case Err(e) => Err(e)
  }

  /** Looks a key up in an ordered list of pairs; the first pair wins. */
  function Lookup(entries: seq<(Value, Value)>, key: Value): (r: Option<Value>)
    ensures r.None? <==> forall i :: 0 <= i < |entries| ==> entries[i].0 != key
    ensures r.Some? ==> exists i :: 0 <= i < |entries| && entries[i] == (key, r.value)
                                    && forall j :: 0 <= j < i ==> entries[j].0 != key
  {
    if |entries| == 0 then None
    else if entries[0].0 == key then Some(entries[0].1)
    else
      var rest := Lookup(entries[1..], key);
      assert forall i :: 1 <= i < |entries| ==> entries[i] == entries[1..][i - 1];
      rest
  }
}
