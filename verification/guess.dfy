/** oao/guess.py: a registry from a type to a fixed schema fragment. Lookup is
    by exact key; there is no fallback from a subclass to its base.
 */
module Guess {
  import opened Wrappers
  import opened Dicts
  import opened Langhelpers

  datatype TypeGuesser = TypeGuesser(mapping: map<Type, Json>)

  /** `TypeGuesser()`. */
  function NewGuesser(): (g: TypeGuesser)
    ensures forall t :: Call(g, t).Err?
  {
    TypeGuesser(map[])
  }

  /** `guesser(typ)`: the registered fragment, or TypeError. */
  function Call(g: TypeGuesser, t: Type): (r: Result<Json>)
    ensures r.Ok? <==> t in g.mapping
    ensures r.Ok? ==> r.value == g.mapping[t]
    ensures r.Err? ==> r.error.TypeError?
  {
    if t in g.mapping then Ok(g.mapping[t]) else Err(TypeError("is not supported"))
  }

  /** `guesser.register(typ, val)`: installs or overwrites one entry. */
  function Register(g: TypeGuesser, t: Type, v: Json): (g': TypeGuesser)
    ensures g'.mapping.Keys == g.mapping.Keys + {t}
    ensures g'.mapping[t] == v
    ensures forall u :: u in g.mapping && u != t ==> g'.mapping[u] == g.mapping[u]
  {
    TypeGuesser(g.mapping[t := v])
  }

  /** `{"type": name}`. */
  function TypeDoc(name: string): Json {
    JObj([("type", JStr(name))])
  }

  /** `setup(guesser)`: seeds int, str and bool. */
  function Setup(g: TypeGuesser): (g': TypeGuesser)
    ensures g'.mapping.Keys == g.mapping.Keys + {PrimT(Int), PrimT(Str), PrimT(Bool)}
    ensures Call(g', PrimT(Int)) == Ok(TypeDoc("integer"))
    ensures Call(g', PrimT(Str)) == Ok(TypeDoc("string"))
    ensures Call(g', PrimT(Bool)) == Ok(TypeDoc("boolean"))
    ensures forall u :: u != PrimT(Int) && u != PrimT(Str) && u != PrimT(Bool) ==> Call(g', u) == Call(g, u)
  {
    var g1 := Register(g, PrimT(Int), TypeDoc("integer"));
    var g2 := Register(g1, PrimT(Str), TypeDoc("string"));
    Register(g2, PrimT(Bool), TypeDoc("boolean"))
  }

  /** After `register(t, v)` the guesser answers `v` for `t`, whatever was there before,
      and answers every other type exactly as before. */
  lemma RegisterThenCall(g: TypeGuesser, t: Type, v: Json, u: Type)
    ensures Call(Register(g, t, v), t) == Ok(v)
    ensures u != t ==> Call(Register(g, t, v), u) == Call(g, u)
  {
  }

  /** A fresh guesser after `setup` knows exactly int, str and bool. */
  lemma SetupExactly(t: Type)
    ensures Call(Setup(NewGuesser()), PrimT(Int)) == Ok(TypeDoc("integer"))
    ensures Call(Setup(NewGuesser()), PrimT(Str)) == Ok(TypeDoc("string"))
    ensures Call(Setup(NewGuesser()), PrimT(Bool)) == Ok(TypeDoc("boolean"))
    ensures t !in {PrimT(Int), PrimT(Str), PrimT(Bool)} ==> Call(Setup(NewGuesser()), t).Err?
  {
  }

  /** Exact matching: a schema class is never answered through a registered type. */
  lemma NoSubclassFallback(c: nat)
    ensures Call(Setup(NewGuesser()), SchemaT(c)).Err?
  {
  }
}
