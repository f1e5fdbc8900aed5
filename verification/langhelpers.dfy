/** Typing helpers of oao/langhelpers.py: the shape of a field annotation,
    detection and unwrapping of `Optional[...]`, and the `reify` cached property.
 */
module Langhelpers {
  import opened Wrappers

  /** A builtin class used as a field annotation. */
  datatype Prim = Int | Str | Bool | OtherPrim(name: string)

  /** A field annotation, as `typing.get_type_hints` hands it over. */
  datatype Type =
    | PrimT(p: Prim)                              // a builtin class such as `int`
    | SchemaT(cls: nat)                           // a class deriving `Object` or `Array`, by its index in the class table
    | NoneT                                       // `type(None)`
    | UnionT(args: seq<Type>)                     // `typing.Union[...]`, arguments in declaration order
    | GenericT(origin: string, args: seq<Type>)   // any other subscripted alias such as `List[int]`

  /** `typing.Optional[x]`, which typing spells `Union[x, None]`. */
  function Optional(x: Type): Type {
    UnionT([x, NoneT])
  }

  /** `is_optional`: a Union of exactly two arguments, one of them `NoneType`. */
  predicate IsOptional(t: Type) {
    t.UnionT? && NoneT in t.args && |t.args| == 2
  }

  /** `get_primitive_from_optional`: the first argument that is not `NoneType`.
      None stands for the IndexError of `[...][0]` on `Union[None, None]`, a
      value typing itself never builds (it collapses the Union to `NoneType`). */
  function PrimitiveFromOptional(t: Type): (r: Option<Type>)
    requires IsOptional(t)
    ensures r.Some? <==> (t.args[0] != NoneT || t.args[1] != NoneT)
    ensures r.Some? ==> r.value != NoneT && r.value in t.args
    ensures t.args[0] != NoneT ==> r == Some(t.args[0])
  {
    if t.args[0] != NoneT then Some(t.args[0])
    else if t.args[1] != NoneT then Some(t.args[1])
    else None
  }

  /** `Optional[x]` and `Union[None, x]` are both recognised and both unwrap to `x`. */
  lemma OptionalRoundTrip(x: Type)
    requires x != NoneT
    ensures IsOptional(Optional(x)) && PrimitiveFromOptional(Optional(x)) == Some(x)
    ensures IsOptional(UnionT([NoneT, x])) && PrimitiveFromOptional(UnionT([NoneT, x])) == Some(x)
  {
    assert Optional(x).args[1] == NoneT;
    assert UnionT([NoneT, x]).args[0] == NoneT;
  }

  /** Exactly the two-argument Unions that mention `NoneType` are optional:
      a wider Union with `NoneType`, and anything that is not a Union, is not. */
  lemma OptionalExactly(t: Type)
    ensures IsOptional(t) <==> exists x :: t == UnionT([x, NoneT]) || t == UnionT([NoneT, x])
    ensures t.UnionT? && |t.args| >= 3 ==> !IsOptional(t)
    ensures !t.UnionT? ==> !IsOptional(t)
  {
    if IsOptional(t) {
      if t.args[0] == NoneT {
        assert t == UnionT([NoneT, t.args[1]]);
      } else {
        assert t == UnionT([t.args[0], NoneT]);
      }
    }
    if exists x :: t == UnionT([x, NoneT]) || t == UnionT([NoneT, x]) {
      var x :| t == UnionT([x, NoneT]) || t == UnionT([NoneT, x]);
      assert NoneT in t.args;
    }
  }

  /** What attribute access through a `reify` descriptor yields. */
  datatype Access<+V> = TheDescriptor | Value(v: V)

  /** `reify.__get__`. `inst` is None for access on the class; `slot` is the
      instance's own attribute of the wrapped function's name. A non-data
      descriptor is consulted only when that attribute is absent, so a stored
      value shadows it. Returns the access result and the slot afterwards. */
  function ReifyGet<I, V>(wrapped: I -> V, inst: Option<I>, slot: Option<V>): (r: (Access<V>, Option<V>))
    ensures inst.None? ==> r == (TheDescriptor, slot)
    ensures inst.Some? ==> r.0.Value? && r.1 == Some(r.0.v)
    ensures inst.Some? && slot.Some? ==> r.0 == Value(slot.value)
    ensures inst.Some? && slot.None? ==> r.0 == Value(wrapped(inst.value))
  {
    match inst
    case None => (TheDescriptor, slot)
    case Some(i) =>
      match slot
      case Some(v) => (Value(v), slot)
      case None =>
        var v := wrapped(i);
        (Value(v), Some(v))
  }

  /** The wrapped function runs once per instance: a second access returns the
      first result even when the function would now compute something else. */
  lemma ReifyOnce<I, V>(wrapped: I -> V, other: I -> V, inst: I)
    ensures var first := ReifyGet(wrapped, Some(inst), None);
            ReifyGet(other, Some(inst), first.1) == first
  {
  }
}
