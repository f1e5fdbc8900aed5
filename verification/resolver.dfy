/** The `Resolver` of oao/objects.py and the `as_dict` renderings it serves:
    field descriptors, properties merged over the ancestor chain, the `$ref`
    path cached on a class the first time it is resolved, and the rendering
    of `Object` classes, `Array` classes and namespaces.

    Every rendering threads the cached refs: a `_ref` set before an exception
    stays set, so an `Effect` carries the refs on both paths.
 */
module Resolver {
  import opened Wrappers
  import opened Dicts
  import opened Langhelpers
  import opened Paths
  import opened Arena
  import Guess

  /* ---------- primitive annotations ---------- */

  /** `guess_type(typ())`: the `singledispatch` table of objects.py knows `int`
      and `str`; `bool` reaches the `int` entry as a subclass of `int`. Any
      other annotation fails with TypeError, in `guess_type` or already when
      it is instantiated. */
  function GuessType(t: Type): (r: Result<string>)
    ensures r.Ok? <==> t == PrimT(Int) || t == PrimT(Str) || t == PrimT(Bool)
    ensures r.Ok? ==> r.value in {"integer", "string"}
    ensures r.Err? ==> r.error.TypeError?
  {
    match t
    case PrimT(Int) => Ok("integer")
    case PrimT(Bool) => Ok("integer")
    case PrimT(Str) => Ok("string")
    case _ => Err(TypeError("is not supported"))
  }

  /* ---------- the `_ref` cache ---------- */

  /** The `_ref` attributes set so far, by class index, each as the
      `Ref.fullpath` it answers. A `Ref` computes its path once and the names
      it is built from never change, so the path stands for the `Ref`. */
  type Refs = map<nat, string>

  /** Later refs keep every entry of earlier ones: a `_ref` is never unset. */
  predicate Grows(refs: Refs, refs': Refs) {
    forall c :: c in refs ==> c in refs' && refs'[c] == refs[c]
  }

  /** The class followed by its ancestors, nearest first: `cls.mro()` restricted to the class table. */
  function Mro(h: Heap, c: nat): (chain: seq<nat>)
    requires h.ClassesValid() && c < |h.classes|
    ensures |chain| >= 1 && chain[0] == c
    ensures forall i :: 0 <= i < |chain| ==> chain[i] < |h.classes|
  {
    assert h.ValidClass(h.classes[c]);
    [c] + h.classes[c].ancestors
  }

  /** The `_ref` attribute lookup finds along `chain`: the first class of the chain that holds one. */
  function FirstRef(refs: Refs, chain: seq<nat>): (r: Option<string>)
    ensures r.None? <==> forall i :: 0 <= i < |chain| ==> chain[i] !in refs
    ensures r.Some? ==> exists i :: 0 <= i < |chain| && chain[i] in refs && r.value == refs[chain[i]] &&
                                   forall j :: 0 <= j < i ==> chain[j] !in refs
  {
    if |chain| == 0 then None
    else if chain[0] in refs then Some(refs[chain[0]])
    else
      var r := FirstRef(refs, chain[1..]);
      assert forall i :: 1 <= i < |chain| ==> chain[i] == chain[1..][i - 1];
      r
  }

  /** `getattr(cls, "_ref", None)`: attribute lookup on a class walks its MRO,
      so a class that has no `_ref` of its own answers an ancestor's. */
  function CachedRef(h: Heap, refs: Refs, c: nat): Option<string>
    requires h.ClassesValid() && c < |h.classes|
  {
    FirstRef(refs, Mro(h, c))
  }

  /** Every class's chain continues with the chain of each of its
      ancestors: the MRO of single inheritance. */
  ghost predicate LinearMro(h: Heap)
    requires h.ClassesValid()
  {
    forall c, j :: 0 <= c < |h.classes| && 0 <= j < |Mro(h, c)| ==> Mro(h, Mro(h, c)[j]) == Mro(h, c)[j..]
  }

  /** Every class that answers a `_ref` path in `refs` answers the same path in `refs'`. */
  ghost predicate Settles(h: Heap, refs: Refs, refs': Refs)
    requires h.ClassesValid()
  {
    forall c :: 0 <= c < |h.classes| && CachedRef(h, refs, c).Some? ==> CachedRef(h, refs', c) == CachedRef(h, refs, c)
  }

  lemma SettlesTrans(h: Heap, r1: Refs, r2: Refs, r3: Refs)
    requires h.ClassesValid() && Settles(h, r1, r2) && Settles(h, r2, r3)
    ensures Settles(h, r1, r3)
  {
  }

  /** Setting `_ref` on `c` changes no answer along a chain in which every
      occurrence of `c` comes after a class that already holds a `_ref`. */
  lemma {:induction false} FirstRefKeep(refs: Refs, chain: seq<nat>, c: nat, p: string)
    requires c !in refs
    requires forall j :: 0 <= j < |chain| && chain[j] == c ==> exists i :: 0 <= i < j && chain[i] in refs
    ensures FirstRef(refs[c := p], chain) == FirstRef(refs, chain)
  {
    if |chain| > 0 && chain[0] !in refs {
      assert chain[0] != c;
      forall j | 0 <= j < |chain[1..]| && chain[1..][j] == c
        ensures exists i :: 0 <= i < j && chain[1..][i] in refs
      {
        assert chain[j + 1] == c;
        var i :| 0 <= i < j + 1 && chain[i] in refs;
        assert chain[1..][i - 1] == chain[i];
      }
      FirstRefKeep(refs, chain[1..], c, p);
    }
  }

  /** With single inheritance, the first touch of a class that answered no
      path leaves every path already answered as it was. */
  lemma FirstTouchSettles(h: Heap, refs: Refs, c: nat, p: string)
    requires h.ClassesValid() && c < |h.classes| && CachedRef(h, refs, c).None?
    ensures LinearMro(h) ==> Settles(h, refs, refs[c := p])
  {
    if !LinearMro(h) {
      return;
    }
    assert Mro(h, c)[0] == c;
    forall s | 0 <= s < |h.classes| && CachedRef(h, refs, s).Some?
      ensures CachedRef(h, refs[c := p], s) == CachedRef(h, refs, s)
    {
      var chain := Mro(h, s);
      forall j | 0 <= j < |chain| && chain[j] == c
        ensures exists i :: 0 <= i < j && chain[i] in refs
      {
        assert Mro(h, chain[j]) == chain[j..];
        forall k | j <= k < |chain| ensures chain[k] !in refs {
          assert chain[k] == Mro(h, c)[k - j];
        }
        var i :| 0 <= i < |chain| && chain[i] in refs && FirstRef(refs, chain).value == refs[chain[i]];
        assert i < j;
      }
      FirstRefKeep(refs, chain, c, p);
    }
  }

  /** The traversal history: the namespaces and classes whose `as_dict` is running, outermost first. */
  predicate ValidHistory(h: Heap, history: seq<Obj>) {
    forall i :: 0 <= i < |history| ==> h.ValidObj(history[i])
  }

  /** The names of the namespace entries of `history`, in order: `ns_list` of `resolve_type`. */
  function NsNames(h: Heap, history: seq<Obj>): (names: seq<string>)
    requires ValidHistory(h, history)
    ensures |names| <= |history|
  {
    if |history| == 0 then []
    else
      var rest := NsNames(h, history[1..]);
      if h.IsNamespace(history[0]) then [h.NameOf(history[0])] + rest else rest
  }

  /** `Ref.fullpath`: `#/` and then the namespace names and the class name, joined by `/`. */
  function FullPath(h: Heap, history: seq<Obj>, c: nat): string
    requires ValidHistory(h, history) && c < |h.classes|
  {
    "#/" + Join(NsNames(h, history) + [h.classes[c].name], '/')
  }

  /* ---------- `resolve_type` and `resolve_field` ---------- */

  /** `resolver.resolve_type(typ, history=history)`. A schema class always
      renders as `{"$ref": path}`: the path of the `_ref` lookup finds along
      its MRO or, on first touch, a new path built from `history`, which is
      then cached on the class itself. Anything else renders as the bare name
      `guess_type` gives it and leaves the cache alone. */
  function ResolveType(h: Heap, refs: Refs, history: seq<Obj>, t: Type): (r: Effect<Json, Refs>)
    requires h.ClassesValid() && ValidHistory(h, history) && h.ValidType(t)
    ensures Grows(refs, r.state)
    ensures !t.SchemaT? ==> r.state == refs && r.result == (if GuessType(t).Ok? then Ok(JStr(GuessType(t).value)) else Err(GuessType(t).error))
    ensures t.SchemaT? ==> r.result.Ok? && CachedRef(h, r.state, t.cls).Some? &&
                           r.result.value == RefDoc(CachedRef(h, r.state, t.cls).value)
    ensures t.SchemaT? && CachedRef(h, refs, t.cls).Some? ==> r.state == refs
    ensures t.SchemaT? && CachedRef(h, refs, t.cls).None? ==>
              r.state == refs[t.cls := FullPath(h, history, t.cls)] &&
              r.result.value == RefDoc(FullPath(h, history, t.cls))
    ensures LinearMro(h) ==> Settles(h, refs, r.state)
  {
    if t.SchemaT? then
      var c := t.cls;
      var cached := CachedRef(h, refs, c);
      if cached.Some? then Effect(Ok(RefDoc(cached.value)), refs)
      else
        var p := FullPath(h, history, c);
        assert Mro(h, c)[0] == c;
        FirstTouchSettles(h, refs, c, p);
        Effect(Ok(RefDoc(p)), refs[c := p])
    else
      match GuessType(t)
      case Ok(name) => Effect(Ok(JStr(name)), refs)
      case Err(e) => Effect(Err(e), refs)
  }

  /** The annotation `resolve_field` resolves: the argument of an Optional,
      or the annotation itself. None where `get_primitive_from_optional`
      raises IndexError. */
  function Unwrap(t: Type): (r: Option<Type>)
    ensures !IsOptional(t) ==> r == Some(t)
    ensures r.Some? && IsOptional(t) ==> r.value in t.args && r.value != NoneT
  {
    if IsOptional(t) then PrimitiveFromOptional(t) else Some(t)
  }

  /** `d` is, apart from its `required` marker, the descriptor
      `resolve_field` gives the annotation `t` when the refs are `refs`: the
      `{"$ref": path}` of the path the class answers for a schema class, or
      `{"type": name}` with the name `guess_type` gives; nothing else. */
  ghost predicate Describes(h: Heap, refs: Refs, t: Type, d: Json)
    requires h.ClassesValid()
  {
    && d.JObj?
    && Unwrap(t).Some?
    && (forall k :: k != "type" && k != "$ref" && k != "required" ==> Field(d, k).None?)
    && match Unwrap(t).value
       case SchemaT(s) =>
         && s < |h.classes| && CachedRef(h, refs, s).Some?
         && Field(d, "$ref") == Some(JStr(CachedRef(h, refs, s).value)) && Field(d, "type").None?
       case v =>
         && GuessType(v).Ok?
         && Field(d, "type") == Some(JStr(GuessType(v).value)) && Field(d, "$ref").None?
  }

  /** A descriptor stays right while the answered paths stay as they are. */
  lemma DescribesSettles(h: Heap, refs: Refs, refs': Refs, t: Type, d: Json)
    requires h.ClassesValid() && Describes(h, refs, t, d) && Settles(h, refs, refs')
    ensures Describes(h, refs', t, d)
  {
  }

  /** `resolver.resolve_field(typ, history=history)`: the descriptor of one
      field, carrying the marker `required`, which is true exactly when the
      annotation is not Optional. A schema class gives `{"$ref": ...}`, any
      other annotation `{"type": name}`. */
  function ResolveField(h: Heap, refs: Refs, history: seq<Obj>, t: Type): (r: Effect<Json, Refs>)
    requires h.ClassesValid() && ValidHistory(h, history) && h.ValidType(t)
    ensures Grows(refs, r.state)
    ensures r.result.Ok? ==> r.result.value.JObj? && Field(r.result.value, "required") == Some(JBool(!IsOptional(t)))
    ensures Unwrap(t).None? ==> r == Effect(Err(IndexError), refs)
    ensures Unwrap(t).Some? && !Unwrap(t).value.SchemaT? ==>
              r.state == refs &&
              (r.result.Ok? <==> GuessType(Unwrap(t).value).Ok?) &&
              (r.result.Ok? ==> Field(r.result.value, "type") == Some(JStr(GuessType(Unwrap(t).value).value)))
    ensures Unwrap(t).Some? && Unwrap(t).value.SchemaT? ==>
              && Unwrap(t).value.cls < |h.classes| && CachedRef(h, r.state, Unwrap(t).value.cls).Some?
              && r.result.Ok? && Field(r.result.value, "$ref") == Some(JStr(CachedRef(h, r.state, Unwrap(t).value.cls).value))
              && Field(r.result.value, "type").None?
    ensures r.result.Ok? <==> Supported(t)
    ensures r.result.Ok? ==> Describes(h, r.state, t, r.result.value)
    ensures r.result.Err? ==> r.result.error.TypeError? || r.result.error == IndexError
    ensures LinearMro(h) ==> Settles(h, refs, r.state)
  {
    match Unwrap(t)
    case None => Effect(Err(IndexError), refs)
    case Some(v) =>
      assert TypeIn(v, |h.classes|);
      var d := ResolveType(h, refs, history, v);
      if d.result.Err? then Effect(Err(d.result.error), d.state)
      else
        var doc := if v.SchemaT? then d.result.value else JObj([("type", d.result.value)]);
        var out := WithField(doc, "required", JBool(!IsOptional(t)));
        FieldDoc(h, d.state, t, v, d.result.value, out);
        Effect(Ok(out), d.state)
  }

  /** The descriptor `resolve_field` builds from what `resolve_type` gave
      for the unwrapped annotation `v`. */
  lemma FieldDoc(h: Heap, refs: Refs, t: Type, v: Type, res: Json, out: Json)
    requires h.ClassesValid() && Unwrap(t) == Some(v)
    requires v.SchemaT? ==> v.cls < |h.classes| && CachedRef(h, refs, v.cls).Some? &&
                            res == RefDoc(CachedRef(h, refs, v.cls).value)
    requires !v.SchemaT? ==> GuessType(v).Ok? && res == JStr(GuessType(v).value)
    requires out == WithField(if v.SchemaT? then res else JObj([("type", res)]), "required", JBool(!IsOptional(t)))
    ensures out.JObj? && Field(out, "required") == Some(JBool(!IsOptional(t)))
    ensures !v.SchemaT? ==> Field(out, "type") == Some(JStr(GuessType(v).value))
    ensures v.SchemaT? ==> Field(out, "$ref") == Some(JStr(CachedRef(h, refs, v.cls).value)) && Field(out, "type").None?
    ensures Describes(h, refs, t, out)
  {
  }

  /* ---------- `resolve_object_properties` ---------- */

  /** A field name that is neither among the attributes of the base `Object`
      (`ignore`) nor private. */
  predicate Eligible(k: string, ignore: set<string>) {
    k !in ignore && !(|k| > 0 && k[0] == '_')
  }

  /** Reference definition on names alone: the eligible names of `entries`
      that are not in `taken`, each at its first occurrence, in order. */
  function NewNames(entries: Dict<Type>, ignore: set<string>, taken: seq<string>): seq<string> {
    if |entries| == 0 then []
    else
      var k := entries[0].0;
      if k in taken || !Eligible(k, ignore) then NewNames(entries[1..], ignore, taken)
      else [k] + NewNames(entries[1..], ignore, taken + [k])
  }

  /** Reference definition: those `NewNames` whose annotation at that first
      occurrence is not Optional. */
  function RequiredNames(entries: Dict<Type>, ignore: set<string>, taken: seq<string>): seq<string> {
    if |entries| == 0 then []
    else
      var k := entries[0].0;
      if k in taken || !Eligible(k, ignore) then RequiredNames(entries[1..], ignore, taken)
      else (if IsOptional(entries[0].1) then [] else [k]) + RequiredNames(entries[1..], ignore, taken + [k])
  }

  /** `resolve_field` succeeds on the annotation `t`: an Optional has an
      argument other than `None`, and what is left is a schema class or a
      type `guess_type` names. */
  predicate Supported(t: Type) {
    Unwrap(t).Some? && (Unwrap(t).value.SchemaT? || GuessType(Unwrap(t).value).Ok?)
  }

  /** Reference definition, walked as `NewNames` walks: the annotation of
      every new name, at its first occurrence, is `Supported`. */
  predicate AllSupported(entries: Dict<Type>, ignore: set<string>, taken: seq<string>) {
    if |entries| == 0 then true
    else
      var k := entries[0].0;
      if k in taken || !Eligible(k, ignore) then AllSupported(entries[1..], ignore, taken)
      else Supported(entries[0].1) && AllSupported(entries[1..], ignore, taken + [k])
  }

  /** Every new name has a winning annotation, and `resolve_field` succeeds
      on it. */
  ghost predicate WinnersSupported(entries: Dict<Type>, ignore: set<string>, taken: seq<string>) {
    forall x :: x in NewNames(entries, ignore, taken) ==> Get(entries, x).Some? && Supported(Get(entries, x).value)
  }

  /** A descriptor whose `required` marker is present and truthy. */
  predicate Marked(j: Json) {
    Field(j, "required").Some? && Truthy(Field(j, "required").value)
  }

  /** The names of `d` whose descriptor is marked, in order. */
  function MarkedNames(d: Dict<Json>): seq<string> {
    if |d| == 0 then [] else (if Marked(d[0].1) then [d[0].0] else []) + MarkedNames(d[1..])
  }

  lemma {:induction false} MarkedNamesSnoc(d: Dict<Json>, k: string, v: Json)
    ensures MarkedNames(d + [(k, v)]) == MarkedNames(d) + (if Marked(v) then [k] else [])
    ensures Keys(d + [(k, v)]) == Keys(d) + [k]
  {
    if |d| > 0 {
      assert (d + [(k, v)])[1..] == d[1..] + [(k, v)];
      MarkedNamesSnoc(d[1..], k, v);
    }
  }

  /** `t.get_type_hints(target)` for every `target` of `chain`, in turn. */
  function HintsOf(h: Heap, chain: seq<nat>): (entries: Dict<Type>)
    requires h.ClassesValid() && forall i :: 0 <= i < |chain| ==> chain[i] < |h.classes|
    ensures forall i :: 0 <= i < |entries| ==> h.ValidType(entries[i].1)
  {
    if |chain| == 0 then []
    else
      var own := h.classes[chain[0]].hints;
      assert h.ValidClass(h.classes[chain[0]]);
      var rest := HintsOf(h, chain[1..]);
      assert forall i :: |own| <= i < |own + rest| ==> (own + rest)[i] == rest[i - |own|];
      own + rest
  }

  /** From position `from` on, every entry of `props` is the descriptor of
      the first annotation `entries` gives its name, for the refs `refs`. */
  ghost predicate DescribedFrom(h: Heap, refs: Refs, entries: Dict<Type>, props: Dict<Json>, from: nat)
    requires h.ClassesValid()
  {
    forall i :: from <= i < |props| ==>
      Get(entries, props[i].0).Some? && Describes(h, refs, Get(entries, props[i].0).value, props[i].1)
  }

  /** The loop of `resolve_object_properties` from `entries` on, with
      `props` built so far: a name already present, ignored or private is
      skipped; any other is handled by `CollectField`. */
  function CollectFrom(h: Heap, refs: Refs, history: seq<Obj>, entries: Dict<Type>, ignore: set<string>, props: Dict<Json>)
    : (r: Effect<Dict<Json>, Refs>)
    requires h.ClassesValid() && ValidHistory(h, history)
    requires forall i :: 0 <= i < |entries| ==> h.ValidType(entries[i].1)
    ensures Grows(refs, r.state)
    ensures r.result.Ok? ==> Keys(r.result.value) == Keys(props) + NewNames(entries, ignore, Keys(props))
    ensures r.result.Ok? ==> MarkedNames(r.result.value) == MarkedNames(props) + RequiredNames(entries, ignore, Keys(props))
    ensures r.result.Ok? <==> AllSupported(entries, ignore, Keys(props))
    ensures r.result.Err? ==> r.result.error.TypeError? || r.result.error == IndexError
    ensures r.result.Ok? ==> |props| <= |r.result.value| && r.result.value[..|props|] == props
    ensures LinearMro(h) ==> Settles(h, refs, r.state)
    ensures r.result.Ok? && LinearMro(h) ==> DescribedFrom(h, r.state, entries, r.result.value, |props|)
    decreases |entries|, 1
  {
    if |entries| == 0 then Effect(Ok(props), refs)
    else if entries[0].0 in Keys(props) || !Eligible(entries[0].0, ignore) then
      assert forall i :: 1 <= i < |entries| ==> entries[1..][i - 1] == entries[i];
      var r := CollectFrom(h, refs, history, entries[1..], ignore, props);
      assert r.result.Ok? && LinearMro(h) ==> DescribedFrom(h, r.state, entries, r.result.value, |props|) by {
        if r.result.Ok? && LinearMro(h) {
          SkipDescribed(h, r.state, entries, ignore, props, r.result.value);
        }
      }
      r
    else CollectField(h, refs, history, entries, ignore, props)
  }

  /** A skipped head entry cannot be the first annotation of any new name. */
  lemma SkipDescribed(h: Heap, refs: Refs, entries: Dict<Type>, ignore: set<string>, props: Dict<Json>, r: Dict<Json>)
    requires h.ClassesValid() && |entries| > 0
    requires entries[0].0 in Keys(props) || !Eligible(entries[0].0, ignore)
    requires |props| <= |r| && Keys(r) == Keys(props) + NewNames(entries[1..], ignore, Keys(props))
    requires DescribedFrom(h, refs, entries[1..], r, |props|)
    ensures DescribedFrom(h, refs, entries, r, |props|)
  {
    var k := entries[0].0;
    NewNamesFresh(entries[1..], ignore, Keys(props), k);
    forall i | |props| <= i < |r|
      ensures Get(entries, r[i].0).Some? && Describes(h, refs, Get(entries, r[i].0).value, r[i].1)
    {
      NewNameAt(r, props, NewNames(entries[1..], ignore, Keys(props)), i);
      GetPastHead(entries, r[i].0);
    }
  }

  /** An entry of `r` past `props` carries one of the new names. */
  lemma NewNameAt(r: Dict<Json>, props: Dict<Json>, names: seq<string>, i: nat)
    requires Keys(r) == Keys(props) + names && |props| <= i < |r|
    ensures r[i].0 in names
  {
    assert r[i].0 == Keys(r)[i] == names[i - |props|];
  }

  /** A name other than the head's is looked up in the tail. */
  lemma GetPastHead<V>(d: Dict<V>, k: string)
    requires |d| > 0 && d[0].0 != k
    ensures Get(d, k) == Get(d[1..], k)
  {
  }

  /** The new head name gets the descriptor of its own annotation, and every
      later new name is not that head name. */
  lemma FieldDescribed(h: Heap, refs: Refs, refs': Refs, entries: Dict<Type>, ignore: set<string>, props: Dict<Json>,
                       f: Json, r: Dict<Json>)
    requires h.ClassesValid() && |entries| > 0
    requires Describes(h, refs, entries[0].1, f) && Settles(h, refs, refs')
    requires |props| + 1 <= |r| && r[..|props| + 1] == props + [(entries[0].0, f)]
    requires forall i :: |props| < i < |r| ==> r[i].0 != entries[0].0
    requires DescribedFrom(h, refs', entries[1..], r, |props| + 1)
    ensures DescribedFrom(h, refs', entries, r, |props|)
  {
    var k := entries[0].0;
    assert r[|props|] == r[..|props| + 1][|props|];
    DescribesSettles(h, refs, refs', entries[0].1, f);
    forall i | |props| <= i < |r|
      ensures Get(entries, r[i].0).Some? && Describes(h, refs', Get(entries, r[i].0).value, r[i].1)
    {
      if i > |props| {
        assert Get(entries, r[i].0) == Get(entries[1..], r[i].0);
      }
    }
  }

  /** Names collected after the head name differ from it. */
  lemma AfterHead(entries: Dict<Type>, ignore: set<string>, props': Dict<Json>, r: Dict<Json>, k: string)
    requires k in Keys(props') && |props'| <= |r|
    requires Keys(r) == Keys(props') + NewNames(entries, ignore, Keys(props'))
    ensures forall i :: |props'| <= i < |r| ==> r[i].0 != k
  {
    NewNamesFresh(entries, ignore, Keys(props'), k);
    forall i | |props'| <= i < |r| ensures r[i].0 != k {
      assert r[i].0 == Keys(r)[i] == NewNames(entries, ignore, Keys(props'))[i - |props'|];
    }
  }

  lemma PrefixSnoc(props: Dict<Json>, p: (string, Json), r: Dict<Json>)
    requires |props| + 1 <= |r| && r[..|props| + 1] == props + [p]
    ensures |props| <= |r| && r[..|props|] == props
  {
    assert r[..|props|] == r[..|props| + 1][..|props|];
  }

  /** One new name: `resolve_field` describes it, and since the name is not
      yet a key, `properties[k] = ...` appends it. */
  function CollectField(h: Heap, refs: Refs, history: seq<Obj>, entries: Dict<Type>, ignore: set<string>, props: Dict<Json>)
    : (r: Effect<Dict<Json>, Refs>)
    requires h.ClassesValid() && ValidHistory(h, history)
    requires forall i :: 0 <= i < |entries| ==> h.ValidType(entries[i].1)
    requires |entries| > 0 && entries[0].0 !in Keys(props) && Eligible(entries[0].0, ignore)
    ensures Grows(refs, r.state)
    ensures r.result.Ok? ==> Keys(r.result.value) == Keys(props) + NewNames(entries, ignore, Keys(props))
    ensures r.result.Ok? ==> MarkedNames(r.result.value) == MarkedNames(props) + RequiredNames(entries, ignore, Keys(props))
    ensures r.result.Ok? <==> AllSupported(entries, ignore, Keys(props))
    ensures r.result.Err? ==> r.result.error.TypeError? || r.result.error == IndexError
    ensures r.result.Ok? ==> |props| <= |r.result.value| && r.result.value[..|props|] == props
    ensures LinearMro(h) ==> Settles(h, refs, r.state)
    ensures r.result.Ok? && LinearMro(h) ==> DescribedFrom(h, r.state, entries, r.result.value, |props|)
    decreases |entries|, 0
  {
    var k := entries[0].0;
    var f := ResolveField(h, refs, history, entries[0].1);
    if f.result.Err? then Effect(Err(f.result.error), f.state)
    else
      var props' := props + [(k, f.result.value)];
      assert forall i :: 1 <= i < |entries| ==> entries[1..][i - 1] == entries[i];
      var r := CollectFrom(h, f.state, history, entries[1..], ignore, props');
      FieldStep(h, refs, history, entries, ignore, props, f, r);
      r
  }

  /** What `CollectField` promises, from what `resolve_field` and the rest
      of the loop promise. */
  lemma FieldStep(h: Heap, refs: Refs, history: seq<Obj>, entries: Dict<Type>, ignore: set<string>, props: Dict<Json>,
                  f: Effect<Json, Refs>, r: Effect<Dict<Json>, Refs>)
    requires h.ClassesValid() && ValidHistory(h, history) && |entries| > 0 && h.ValidType(entries[0].1)
    requires entries[0].0 !in Keys(props) && Eligible(entries[0].0, ignore)
    requires f == ResolveField(h, refs, history, entries[0].1) && f.result.Ok?
    requires var props' := props + [(entries[0].0, f.result.value)];
             && Grows(f.state, r.state)
             && (r.result.Ok? ==> Keys(r.result.value) == Keys(props') + NewNames(entries[1..], ignore, Keys(props')))
             && (r.result.Ok? ==> MarkedNames(r.result.value) == MarkedNames(props') + RequiredNames(entries[1..], ignore, Keys(props')))
             && (r.result.Ok? <==> AllSupported(entries[1..], ignore, Keys(props')))
             && (r.result.Ok? ==> |props'| <= |r.result.value| && r.result.value[..|props'|] == props')
             && (LinearMro(h) ==> Settles(h, f.state, r.state))
             && (r.result.Ok? && LinearMro(h) ==> DescribedFrom(h, r.state, entries[1..], r.result.value, |props'|))
    ensures Grows(refs, r.state)
    ensures r.result.Ok? ==> Keys(r.result.value) == Keys(props) + NewNames(entries, ignore, Keys(props))
    ensures r.result.Ok? ==> MarkedNames(r.result.value) == MarkedNames(props) + RequiredNames(entries, ignore, Keys(props))
    ensures r.result.Ok? <==> AllSupported(entries, ignore, Keys(props))
    ensures r.result.Ok? ==> |props| <= |r.result.value| && r.result.value[..|props|] == props
    ensures LinearMro(h) ==> Settles(h, refs, r.state)
    ensures r.result.Ok? && LinearMro(h) ==> DescribedFrom(h, r.state, entries, r.result.value, |props|)
  {
    var k := entries[0].0;
    var fv := f.result.value;
    var props' := props + [(k, fv)];
    MarkedNamesSnoc(props, k, fv);
    if LinearMro(h) {
      SettlesTrans(h, refs, f.state, r.state);
    }
    if r.result.Ok? {
      var rv := r.result.value;
      FieldNames(entries, ignore, props, fv, rv);
      PrefixSnoc(props, (k, fv), rv);
      if LinearMro(h) {
        AfterHead(entries[1..], ignore, props', rv, k);
        FieldDescribed(h, f.state, r.state, entries, ignore, props, fv, rv);
      }
    }
  }

  /** The names `CollectField` adds: the head name, then those of the rest. */
  lemma FieldNames(entries: Dict<Type>, ignore: set<string>, props: Dict<Json>, fv: Json, rv: Dict<Json>)
    requires |entries| > 0 && entries[0].0 !in Keys(props) && Eligible(entries[0].0, ignore)
    requires Field(fv, "required") == Some(JBool(!IsOptional(entries[0].1)))
    requires var props' := props + [(entries[0].0, fv)];
             && Keys(rv) == Keys(props') + NewNames(entries[1..], ignore, Keys(props'))
             && MarkedNames(rv) == MarkedNames(props') + RequiredNames(entries[1..], ignore, Keys(props'))
    ensures Keys(rv) == Keys(props) + NewNames(entries, ignore, Keys(props))
    ensures MarkedNames(rv) == MarkedNames(props) + RequiredNames(entries, ignore, Keys(props))
  {
    var k := entries[0].0;
    var props' := props + [(k, fv)];
    assert Marked(fv) <==> !IsOptional(entries[0].1);
    MarkedNamesSnoc(props, k, fv);
    NamesHead(entries, ignore, Keys(props));
    Assoc(Keys(props), [k], NewNames(entries[1..], ignore, Keys(props')));
    var x := if IsOptional(entries[0].1) then [] else [k];
    assert MarkedNames(props') == MarkedNames(props) + x;
    Assoc(MarkedNames(props), x, RequiredNames(entries[1..], ignore, Keys(props')));
  }

  /** How both reference definitions take a new, eligible name at the head. */
  lemma NamesHead(entries: Dict<Type>, ignore: set<string>, taken: seq<string>)
    requires |entries| > 0 && entries[0].0 !in taken && Eligible(entries[0].0, ignore)
    ensures NewNames(entries, ignore, taken) == [entries[0].0] + NewNames(entries[1..], ignore, taken + [entries[0].0])
    ensures RequiredNames(entries, ignore, taken) ==
              (if IsOptional(entries[0].1) then [] else [entries[0].0]) + RequiredNames(entries[1..], ignore, taken + [entries[0].0])
  {
  }

  lemma Assoc(a: seq<string>, x: seq<string>, b: seq<string>)
    ensures (a + x) + b == a + (x + b)
  {
  }

  /** `resolver.resolve_object_properties(cls, history=history)`: merged over
      the MRO, most derived first, the first occurrence of a name winning. */
  function CollectProperties(h: Heap, refs: Refs, history: seq<Obj>, c: nat, ignore: set<string>): (r: Effect<Dict<Json>, Refs>)
    requires h.ClassesValid() && ValidHistory(h, history) && c < |h.classes|
    ensures Grows(refs, r.state)
    ensures r.result.Ok? ==> Keys(r.result.value) == NewNames(HintsOf(h, Mro(h, c)), ignore, [])
    ensures r.result.Ok? ==> MarkedNames(r.result.value) == RequiredNames(HintsOf(h, Mro(h, c)), ignore, [])
    ensures r.result.Ok? <==> AllSupported(HintsOf(h, Mro(h, c)), ignore, [])
    ensures r.result.Ok? <==> WinnersSupported(HintsOf(h, Mro(h, c)), ignore, [])
    ensures r.result.Err? ==> r.result.error.TypeError? || r.result.error == IndexError
    ensures LinearMro(h) ==> Settles(h, refs, r.state)
    ensures r.result.Ok? && LinearMro(h) ==> DescribedFrom(h, r.state, HintsOf(h, Mro(h, c)), r.result.value, 0)
  {
    AllSupportedExactly(HintsOf(h, Mro(h, c)), ignore, []);
    CollectFrom(h, refs, history, HintsOf(h, Mro(h, c)), ignore, [])
  }

  /** The errors a rendering of classes can raise: TypeError from `guess_type`
      and IndexError from `get_primitive_from_optional`. */
  predicate FieldError(e: Error) {
    e.TypeError? || e == IndexError
  }

  /** What `RequiredNames` keeps is among `NewNames`. */
  lemma {:induction false} RequiredAreNew(entries: Dict<Type>, ignore: set<string>, taken: seq<string>)
    ensures forall x :: x in RequiredNames(entries, ignore, taken) ==> x in NewNames(entries, ignore, taken)
  {
    if |entries| > 0 {
      var k := entries[0].0;
      if k in taken || !Eligible(k, ignore) {
        RequiredAreNew(entries[1..], ignore, taken);
      } else {
        RequiredAreNew(entries[1..], ignore, taken + [k]);
      }
    }
  }

  /** A name already taken, or not eligible, is never listed again. */
  lemma {:induction false} NewNamesFresh(entries: Dict<Type>, ignore: set<string>, taken: seq<string>, x: string)
    requires x in taken || !Eligible(x, ignore)
    ensures x !in NewNames(entries, ignore, taken) && x !in RequiredNames(entries, ignore, taken)
  {
    if |entries| > 0 {
      var k := entries[0].0;
      if k in taken || !Eligible(k, ignore) {
        NewNamesFresh(entries[1..], ignore, taken, x);
      } else {
        NewNamesFresh(entries[1..], ignore, taken + [k], x);
      }
    }
  }

  /** The new names are exactly the eligible names of `entries` not yet taken. */
  lemma {:induction false} NewNamesExactly(entries: Dict<Type>, ignore: set<string>, taken: seq<string>, x: string)
    ensures x in NewNames(entries, ignore, taken) <==> x in Keys(entries) && Eligible(x, ignore) && x !in taken
  {
    if |entries| > 0 {
      var k := entries[0].0;
      assert Keys(entries) == [k] + Keys(entries[1..]);
      if k in taken || !Eligible(k, ignore) {
        NewNamesExactly(entries[1..], ignore, taken, x);
      } else {
        NewNamesExactly(entries[1..], ignore, taken + [k], x);
      }
    }
  }

  /** No new name is listed twice, nor is any taken name listed. */
  lemma {:induction false} NewNamesDistinct(entries: Dict<Type>, ignore: set<string>, taken: seq<string>)
    ensures Distinct(NewNames(entries, ignore, taken))
  {
    if |entries| > 0 {
      var k := entries[0].0;
      if k in taken || !Eligible(k, ignore) {
        NewNamesDistinct(entries[1..], ignore, taken);
      } else {
        NewNamesDistinct(entries[1..], ignore, taken + [k]);
        NewNamesFresh(entries[1..], ignore, taken + [k], k);
      }
    }
  }

  /** The walk and the per-name statement agree. */
  lemma {:induction false} AllSupportedExactly(entries: Dict<Type>, ignore: set<string>, taken: seq<string>)
    ensures AllSupported(entries, ignore, taken) <==> WinnersSupported(entries, ignore, taken)
  {
    if |entries| > 0 {
      var k := entries[0].0;
      var rest := entries[1..];
      if k in taken || !Eligible(k, ignore) {
        AllSupportedExactly(rest, ignore, taken);
        NewNamesFresh(rest, ignore, taken, k);
        forall x | x in NewNames(rest, ignore, taken) ensures Get(entries, x) == Get(rest, x) {
          GetPastHead(entries, x);
        }
      } else {
        AllSupportedExactly(rest, ignore, taken + [k]);
        NewNamesFresh(rest, ignore, taken + [k], k);
        forall x | x in NewNames(rest, ignore, taken + [k]) ensures Get(entries, x) == Get(rest, x) {
          GetPastHead(entries, x);
        }
        var names := NewNames(entries, ignore, taken);
        assert names == [k] + NewNames(rest, ignore, taken + [k]);
        assert Get(entries, k) == Some(entries[0].1);
        if WinnersSupported(entries, ignore, taken) {
          assert k in names;
          forall x | x in NewNames(rest, ignore, taken + [k])
            ensures Get(rest, x).Some? && Supported(Get(rest, x).value)
          {
            assert x in names;
          }
        }
      }
    }
  }

  /** A collected property is required exactly when the annotation that wins
      for it, its first occurrence along the MRO, is not Optional. */
  lemma {:induction false} RequiredIffNotOptional(entries: Dict<Type>, ignore: set<string>, taken: seq<string>, x: string)
    ensures x in RequiredNames(entries, ignore, taken) <==>
              x in NewNames(entries, ignore, taken) && Get(entries, x).Some? && !IsOptional(Get(entries, x).value)
  {
    if |entries| > 0 {
      var k := entries[0].0;
      if x in taken || !Eligible(x, ignore) {
        NewNamesFresh(entries, ignore, taken, x);
      } else if k in taken || !Eligible(k, ignore) {
        assert Get(entries, x) == Get(entries[1..], x);
        RequiredIffNotOptional(entries[1..], ignore, taken, x);
      } else if k == x {
        NewNamesFresh(entries[1..], ignore, taken + [k], x);
      } else {
        assert Get(entries, x) == Get(entries[1..], x);
        RequiredIffNotOptional(entries[1..], ignore, taken + [k], x);
      }
    }
  }

  /* ---------- `Object.as_dict` and `Array.as_dict` ---------- */

  /** `props.pop("required", False)` on one descriptor. */
  function Pop(j: Json): (r: Json)
    ensures Field(r, "required").None?
    ensures forall k :: k != "required" ==> Field(r, k) == Field(j, k)
  {
    if j.JObj? then JObj(Remove(j.fields, "required")) else j
  }

  /** The loop over `properties.items()`: pops the marker from every
      descriptor and lists, in property order, the names whose popped marker
      was truthy. */
  function StripRequired(props: Dict<Json>): (r: (Dict<Json>, seq<string>))
    ensures Keys(r.0) == Keys(props)
    ensures forall i :: 0 <= i < |r.0| ==> Field(r.0[i].1, "required").None?
    ensures forall i, k :: 0 <= i < |r.0| && k != "required" ==> Field(r.0[i].1, k) == Field(props[i].1, k)
    ensures forall i :: 0 <= i < |r.0| ==> (r.0[i].1.JObj? <==> props[i].1.JObj?)
    ensures r.1 == MarkedNames(props)
  {
    if |props| == 0 then ([], [])
    else
      var rest := StripRequired(props[1..]);
      ([(props[0].0, Pop(props[0].1))] + rest.0, (if Marked(props[0].1) then [props[0].0] else []) + rest.1)
  }

  /** A JSON list of strings. */
  function Strs(names: seq<string>): (r: seq<Json>)
    ensures |r| == |names| && forall i :: 0 <= i < |r| ==> r[i] == JStr(names[i])
  {
    if |names| == 0 then [] else [JStr(names[0])] + Strs(names[1..])
  }

  /** `if description:` on `cls.__doc__`. */
  predicate Described(doc: Option<string>) {
    doc.Some? && doc.value != ""
  }

  /** The `description` entry a class renders with, if any. */
  function Description(doc: Option<string>): Option<Json> {
    if Described(doc) then Some(JStr(doc.value)) else None
  }

  /** What `Object.as_dict` promises about the schema of class `c`, stated
      through the reference definitions. */
  ghost predicate ObjectRendered(h: Heap, c: nat, ignore: set<string>, d: Json)
    requires h.ClassesValid() && c < |h.classes|
  {
    Shaped(h.classes[c].doc, NewNames(HintsOf(h, Mro(h, c)), ignore, []), RequiredNames(HintsOf(h, Mro(h, c)), ignore, []), d)
  }

  /** An object schema with docstring `doc`, property names `names` and
      required names `req`. */
  ghost predicate Shaped(doc: Option<string>, names: seq<string>, req: seq<string>, d: Json) {
    && d.JObj?
    && Field(d, "type") == Some(JStr("object"))
    && Field(d, "description") == Description(doc)
    && PropsShaped(names, req, d)
    && forall k :: k != "type" && k != "description" && k != "properties" && k != "required" ==> Field(d, k).None?
  }

  /** `properties` is present exactly when there are names and lists them in
      order, no descriptor keeps its marker, and `required` is present
      exactly when some name is required, listing those names in order. */
  predicate PropsShaped(names: seq<string>, req: seq<string>, d: Json) {
    && (Field(d, "properties").Some? <==> names != [])
    && (names != [] ==>
          var ps := Field(d, "properties").value;
          && ps.JObj? && Keys(ps.fields) == names
          && forall i :: 0 <= i < |ps.fields| ==> Field(ps.fields[i].1, "required").None?)
    && Field(d, "required") == (if req == [] then None else Some(JArr(Strs(req))))
  }

  /** The header both class renderings start from: `type` and, when the
      docstring is truthy, `description`. */
  function Header(kind: string, doc: Option<string>): (d: Json)
    ensures d.JObj? && Field(d, "type") == Some(JStr(kind)) && Field(d, "description") == Description(doc)
    ensures forall k :: k != "type" && k != "description" ==> Field(d, k).None?
  {
    var d := JObj([("type", JStr(kind))]);
    if Described(doc) then WithField(d, "description", JStr(doc.value)) else d
  }

  /** `cls.as_dict(resolver=r, history=history)` for an `Object` subclass:
      properties are resolved with the class appended to the history. */
  function ObjectAsDict(h: Heap, refs: Refs, history: seq<Obj>, c: nat, ignore: set<string>): (r: Effect<Json, Refs>)
    requires h.ClassesValid() && ValidHistory(h, history) && c < |h.classes|
    ensures Grows(refs, r.state)
    ensures r.result.Ok? <==> WinnersSupported(HintsOf(h, Mro(h, c)), ignore, [])
    ensures r.result.Err? ==> FieldError(r.result.error)
    ensures r.result.Ok? ==> ObjectRendered(h, c, ignore, r.result.value)
    ensures LinearMro(h) ==> Settles(h, refs, r.state)
    ensures r.result.Ok? && LinearMro(h) ==> PropsDescribed(h, r.state, HintsOf(h, Mro(h, c)), r.result.value)
  {
    var p := CollectProperties(h, refs, history + [ClassRef(c)], c, ignore);
    if p.result.Err? then Effect(Err(p.result.error), p.state)
    else
      var d := ObjectDoc(h.classes[c].doc, p.result.value);
      assert LinearMro(h) ==> PropsDescribed(h, p.state, HintsOf(h, Mro(h, c)), d) by {
        if LinearMro(h) && p.result.value != [] {
          StripDescribed(h, p.state, HintsOf(h, Mro(h, c)), p.result.value);
        }
      }
      Effect(Ok(d), p.state)
  }

  /** The `properties` of `d`, when present, describe every name by its
      first annotation in `entries`, for the refs `refs`. */
  ghost predicate PropsDescribed(h: Heap, refs: Refs, entries: Dict<Type>, d: Json)
    requires h.ClassesValid()
  {
    Field(d, "properties").Some? ==>
      Field(d, "properties").value.JObj? && DescribedFrom(h, refs, entries, Field(d, "properties").value.fields, 0)
  }

  /** Popping the markers keeps every descriptor right. */
  lemma StripDescribed(h: Heap, refs: Refs, entries: Dict<Type>, props: Dict<Json>)
    requires h.ClassesValid() && DescribedFrom(h, refs, entries, props, 0)
    ensures DescribedFrom(h, refs, entries, StripRequired(props).0, 0)
  {
    var stripped := StripRequired(props).0;
    forall i | 0 <= i < |stripped|
      ensures Get(entries, stripped[i].0).Some? && Describes(h, refs, Get(entries, stripped[i].0).value, stripped[i].1)
    {
      assert stripped[i].0 == Keys(stripped)[i] == Keys(props)[i] == props[i].0;
      assert forall k :: k != "required" ==> Field(stripped[i].1, k) == Field(props[i].1, k);
    }
  }

  /** The document `Object.as_dict` builds from the collected properties. */
  function ObjectDoc(doc: Option<string>, props: Dict<Json>): (d: Json)
    ensures Shaped(doc, Keys(props), MarkedNames(props), d)
    ensures props != [] ==> Field(d, "properties") == Some(JObj(StripRequired(props).0))
  {
    var d := Header("object", doc);
    var r := WithProperties(d, props);
    assert Field(r, "type") == Field(d, "type") && Field(r, "description") == Field(d, "description");
    r
  }

  /** The `if properties:` block of `Object.as_dict`. */
  function WithProperties(d: Json, props: Dict<Json>): (r: Json)
    requires d.JObj? && Field(d, "properties").None? && Field(d, "required").None?
    ensures r.JObj?
    ensures forall k :: k != "properties" && k != "required" ==> Field(r, k) == Field(d, k)
    ensures PropsShaped(Keys(props), MarkedNames(props), r)
    ensures props != [] ==> Field(r, "properties") == Some(JObj(StripRequired(props).0))
  {
    if props == [] then d
    else
      var (stripped, required) := StripRequired(props);
      var d2 := WithField(d, "properties", JObj(stripped));
      if required != [] then WithField(d2, "required", JArr(Strs(required))) else d2
  }

  /** `cls.as_dict(...)` for an `Array` subclass: `items` always renders as a
      `$ref`, resolved with the array class appended to the history. */
  function ArrayAsDict(h: Heap, refs: Refs, history: seq<Obj>, c: nat): (r: Effect<Json, Refs>)
    requires h.ClassesValid() && ValidHistory(h, history) && c < |h.classes| && h.classes[c].shape.ArrayShape?
    ensures Grows(refs, r.state) && r.result.Ok? && r.result.value.JObj?
    ensures Field(r.result.value, "type") == Some(JStr("array"))
    ensures Field(r.result.value, "description") == Description(h.classes[c].doc)
    ensures h.classes[c].shape.items < |h.classes| && CachedRef(h, r.state, h.classes[c].shape.items).Some?
    ensures Field(r.result.value, "items") == Some(RefDoc(CachedRef(h, r.state, h.classes[c].shape.items).value))
    ensures forall k :: k != "type" && k != "description" && k != "items" ==> Field(r.result.value, k).None?
    ensures ArrayRendered(h, r.state, c, r.result.value)
    ensures LinearMro(h) ==> Settles(h, refs, r.state)
  {
    assert h.ValidClass(h.classes[c]);
    var items := ResolveType(h, refs, history + [ClassRef(c)], SchemaT(h.classes[c].shape.items));
    Effect(Ok(WithField(Header("array", h.classes[c].doc), "items", items.result.value)), items.state)
  }

  /* ---------- `Namespace.as_dict` ---------- */

  /** The errors a rendering can raise; RecursionLimit stands for the
      RecursionError of namespaces nested deeper than the fuel. */
  predicate RenderError(e: Error) {
    FieldError(e) || e == RecursionLimit
  }

  /** `r.resolve_name(m)` for every member, in order. */
  function Names(h: Heap, ms: seq<Obj>): (names: seq<string>)
    requires forall i :: 0 <= i < |ms| ==> h.ValidObj(ms[i])
    ensures |names| == |ms| && forall i :: 0 <= i < |ms| ==> names[i] == h.NameOf(ms[i])
  {
    if |ms| == 0 then [] else [h.NameOf(ms[0])] + Names(h, ms[1..])
  }

  lemma MembersValid(h: Heap, n: nat)
    requires h.Valid() && n < |h.spaces|
    ensures forall i :: 0 <= i < |h.Members(n)| ==> h.ValidObj(h.Members(n)[i])
  {
    assert h.ValidBody(h.bodies[h.spaces[n].body]);
  }

  /** The key order of a dict with key order `ks` after `d[k] = ...` for
      each `k` of `names` in turn: a new key goes last, a present one stays. */
  function Inserted(ks: seq<string>, names: seq<string>): (r: seq<string>)
    ensures forall x :: x in r <==> x in ks || x in names
    ensures Distinct(ks) ==> Distinct(r)
    decreases names
  {
    if |names| == 0 then ks
    else
      var ks' := if names[0] in ks then ks else ks + [names[0]];
      assert Distinct(ks) ==> Distinct(ks');
      Inserted(ks', names[1..])
  }

  /** With distinct names, none present yet, every name is appended in order. */
  lemma {:induction false} InsertedDistinct(ks: seq<string>, names: seq<string>)
    requires Distinct(names) && forall x :: x in names ==> x !in ks
    ensures Inserted(ks, names) == ks + names
    decreases names
  {
    if |names| > 0 {
      assert names[0] !in ks;
      assert forall x :: x in names[1..] ==> x !in ks + [names[0]];
      InsertedDistinct(ks + [names[0]], names[1..]);
      assert ks + [names[0]] + names[1..] == ks + names;
    }
  }

  /** The keys of a namespace's rendering: each member name once, in the
      order the names first occur among the members. */
  predicate Listed(h: Heap, n: nat, fields: Dict<Json>)
    requires h.Valid() && n < |h.spaces|
  {
    MembersValid(h, n);
    UniqueKeys(fields) && Keys(fields) == Inserted([], Names(h, h.Members(n)))
  }

  /** No member after position `i` carries the name of `ms[i]`. */
  predicate LastNamed(h: Heap, ms: seq<Obj>, i: nat)
    requires i < |ms| && forall j :: 0 <= j < |ms| ==> h.ValidObj(ms[j])
  {
    forall j :: i < j < |ms| ==> h.NameOf(ms[j]) != h.NameOf(ms[i])
  }

  /** `d` is what `Array.as_dict` gives array class `c` when the refs are `refs`. */
  ghost predicate ArrayRendered(h: Heap, refs: Refs, c: nat, d: Json)
    requires h.ClassesValid() && c < |h.classes|
  {
    && h.classes[c].shape.ArrayShape?
    && h.classes[c].shape.items < |h.classes|
    && d.JObj?
    && Field(d, "type") == Some(JStr("array"))
    && Field(d, "description") == Description(h.classes[c].doc)
    && CachedRef(h, refs, h.classes[c].shape.items).Some?
    && Field(d, "items") == Some(RefDoc(CachedRef(h, refs, h.classes[c].shape.items).value))
    && forall k :: k != "type" && k != "description" && k != "items" ==> Field(d, k).None?
  }

  /** `d` is what member `m` renders to inline, when the refs are `refs` and
      at most `fuel` namespaces are still to be entered: a class renders its
      own schema (never a `$ref`), a namespace its members' mapping. */
  ghost predicate MemberRendered(h: Heap, refs: Refs, m: Obj, ignore: set<string>, fuel: nat, d: Json)
    requires h.Valid() && h.ValidObj(m)
    decreases fuel, 0
  {
    match h.Deref(m)
    case TClass(c) =>
      if h.classes[c].shape.ArrayShape? then ArrayRendered(h, refs, c, d)
      else ObjectRendered(h, c, ignore, d) && PropsDescribed(h, refs, HintsOf(h, Mro(h, c)), d)
    case TNs(k) => fuel > 0 && NsRendered(h, refs, k, ignore, fuel - 1, d)
  }

  /** `d` is what namespace record `n` renders to: the mapping of its
      members, wrapped under its name when it has no parent. */
  ghost predicate NsRendered(h: Heap, refs: Refs, n: nat, ignore: set<string>, fuel: nat, d: Json)
    requires h.Valid() && n < |h.spaces|
    decreases fuel, 3
  {
    MembersValid(h, n);
    && d.JObj?
    && if h.spaces[n].parent.Some? then MembersRendered(h, refs, h.Members(n), ignore, fuel, d.fields)
       else
         && |d.fields| == 1 && d.fields[0].0 == h.spaces[n].name && d.fields[0].1.JObj?
         && MembersRendered(h, refs, h.Members(n), ignore, fuel, d.fields[0].1.fields)
  }

  /** The dict comprehension over `ms`: one key per name, in order of first
      occurrence, each holding the rendering of the last member of that name. */
  ghost predicate MembersRendered(h: Heap, refs: Refs, ms: seq<Obj>, ignore: set<string>, fuel: nat, fields: Dict<Json>)
    requires h.Valid() && forall i :: 0 <= i < |ms| ==> h.ValidObj(ms[i])
    decreases fuel, 2
  {
    && UniqueKeys(fields)
    && Keys(fields) == Inserted([], Names(h, ms))
    && ValuesRendered(h, refs, ms, ignore, fuel, fields)
  }

  /** Each name maps to the rendering of the last member that carries it. */
  ghost predicate ValuesRendered(h: Heap, refs: Refs, ms: seq<Obj>, ignore: set<string>, fuel: nat, fields: Dict<Json>)
    requires h.Valid() && forall i :: 0 <= i < |ms| ==> h.ValidObj(ms[i])
    decreases fuel, 1
  {
    forall i :: 0 <= i < |ms| && LastNamed(h, ms, i) ==>
      Get(fields, h.NameOf(ms[i])).Some? && MemberRendered(h, refs, ms[i], ignore, fuel, Get(fields, h.NameOf(ms[i])).value)
  }

  /** Every namespace reached from member `m` lies within `fuel` levels:
      entering a namespace takes one level. */
  ghost predicate MemberFits(h: Heap, m: Obj, fuel: nat)
    requires h.Valid() && h.ValidObj(m)
    decreases fuel, 0
  {
    match h.Deref(m)
    case TClass(_) => true
    case TNs(k) => fuel > 0 && NsFits(h, k, fuel - 1)
  }

  ghost predicate MembersFit(h: Heap, ms: seq<Obj>, fuel: nat)
    requires h.Valid() && forall i :: 0 <= i < |ms| ==> h.ValidObj(ms[i])
    decreases fuel, 1
  {
    forall i :: 0 <= i < |ms| ==> MemberFits(h, ms[i], fuel)
  }

  ghost predicate NsFits(h: Heap, n: nat, fuel: nat)
    requires h.Valid() && n < |h.spaces|
    decreases fuel, 2
  {
    MembersValid(h, n);
    MembersFit(h, h.Members(n), fuel)
  }

  /** Every object class reached from member `m` within `fuel` levels has
      only `Supported` winning annotations. Array classes always render,
      and what lies past the fuel is never rendered. */
  ghost predicate MemberSupported(h: Heap, m: Obj, ignore: set<string>, fuel: nat)
    requires h.Valid() && h.ValidObj(m)
    decreases fuel, 0
  {
    match h.Deref(m)
    case TClass(c) => h.classes[c].shape.ArrayShape? || WinnersSupported(HintsOf(h, Mro(h, c)), ignore, [])
    case TNs(k) => fuel > 0 ==> NsSupported(h, k, ignore, fuel - 1)
  }

  ghost predicate MembersSupported(h: Heap, ms: seq<Obj>, ignore: set<string>, fuel: nat)
    requires h.Valid() && forall i :: 0 <= i < |ms| ==> h.ValidObj(ms[i])
    decreases fuel, 1
  {
    forall i :: 0 <= i < |ms| ==> MemberSupported(h, ms[i], ignore, fuel)
  }

  ghost predicate NsSupported(h: Heap, n: nat, ignore: set<string>, fuel: nat)
    requires h.Valid() && n < |h.spaces|
    decreases fuel, 2
  {
    MembersValid(h, n);
    MembersSupported(h, h.Members(n), ignore, fuel)
  }

  /** Both conditions hold of a list exactly when they hold of its head and
      of its tail. */
  lemma MembersSplit(h: Heap, ms: seq<Obj>, ignore: set<string>, fuel: nat)
    requires h.Valid() && |ms| > 0 && forall i :: 0 <= i < |ms| ==> h.ValidObj(ms[i])
    ensures MembersFit(h, ms, fuel) <==> MemberFits(h, ms[0], fuel) && MembersFit(h, ms[1..], fuel)
    ensures MembersSupported(h, ms, ignore, fuel) <==> MemberSupported(h, ms[0], ignore, fuel) && MembersSupported(h, ms[1..], ignore, fuel)
  {
    assert forall i :: 1 <= i < |ms| ==> ms[1..][i - 1] == ms[i];
  }

  /** A rendering stays right while the answered paths stay as they are. */
  lemma {:induction false} MemberRenderedSettles(h: Heap, refs: Refs, refs': Refs, m: Obj, ignore: set<string>, fuel: nat, d: Json)
    requires h.Valid() && h.ValidObj(m) && Settles(h, refs, refs')
    requires MemberRendered(h, refs, m, ignore, fuel, d)
    ensures MemberRendered(h, refs', m, ignore, fuel, d)
    decreases fuel, 0
  {
    match h.Deref(m)
    case TClass(c) =>
      if h.classes[c].shape.ArrayShape? {
        assert ArrayRendered(h, refs', c, d);
      } else {
        PropsSettle(h, refs, refs', HintsOf(h, Mro(h, c)), d);
      }
    case TNs(k) =>
      NsRenderedSettles(h, refs, refs', k, ignore, fuel - 1, d);
  }

  /** Property descriptors stay right while the answered paths stay as they are. */
  lemma PropsSettle(h: Heap, refs: Refs, refs': Refs, entries: Dict<Type>, d: Json)
    requires h.ClassesValid() && Settles(h, refs, refs') && PropsDescribed(h, refs, entries, d)
    ensures PropsDescribed(h, refs', entries, d)
  {
    if Field(d, "properties").Some? {
      var ps := Field(d, "properties").value.fields;
      forall i | 0 <= i < |ps|
        ensures Get(entries, ps[i].0).Some? && Describes(h, refs', Get(entries, ps[i].0).value, ps[i].1)
      {
        DescribesSettles(h, refs, refs', Get(entries, ps[i].0).value, ps[i].1);
      }
    }
  }

  lemma {:induction false} NsRenderedSettles(h: Heap, refs: Refs, refs': Refs, n: nat, ignore: set<string>, fuel: nat, d: Json)
    requires h.Valid() && n < |h.spaces| && Settles(h, refs, refs')
    requires NsRendered(h, refs, n, ignore, fuel, d)
    ensures NsRendered(h, refs', n, ignore, fuel, d)
    decreases fuel, 3
  {
    MembersValid(h, n);
    var fs := if h.spaces[n].parent.Some? then d.fields else d.fields[0].1.fields;
    ValuesRenderedSettles(h, refs, refs', h.Members(n), ignore, fuel, fs);
  }

  lemma {:induction false} ValuesRenderedSettles(h: Heap, refs: Refs, refs': Refs, ms: seq<Obj>, ignore: set<string>, fuel: nat, fields: Dict<Json>)
    requires h.Valid() && (forall i :: 0 <= i < |ms| ==> h.ValidObj(ms[i])) && Settles(h, refs, refs')
    requires ValuesRendered(h, refs, ms, ignore, fuel, fields)
    ensures ValuesRendered(h, refs', ms, ignore, fuel, fields)
    decreases fuel, 1
  {
    forall i | 0 <= i < |ms| && LastNamed(h, ms, i)
      ensures Get(fields, h.NameOf(ms[i])).Some? &&
              MemberRendered(h, refs', ms[i], ignore, fuel, Get(fields, h.NameOf(ms[i])).value)
    {
      MemberRenderedSettles(h, refs, refs', ms[i], ignore, fuel, Get(fields, h.NameOf(ms[i])).value);
    }
  }

  /** `self.as_dict(resolver=r, history=history)` for namespace record `n`:
      each member rendered with the namespace appended to the history; a
      root namespace (no `ns`) wraps the result under its own name. `fuel`
      bounds the nesting of namespaces. */
  function NsAsDict(h: Heap, refs: Refs, history: seq<Obj>, n: nat, ignore: set<string>, fuel: nat): (r: Effect<Json, Refs>)
    requires h.Valid() && ValidHistory(h, history) && n < |h.spaces|
    ensures Grows(refs, r.state)
    ensures r.result.Err? ==> RenderError(r.result.error)
    ensures r.result.Ok? && h.spaces[n].parent.Some? ==> r.result.value.JObj? && Listed(h, n, r.result.value.fields)
    ensures r.result.Ok? && h.spaces[n].parent.None? ==>
              && r.result.value.JObj? && |r.result.value.fields| == 1
              && r.result.value.fields[0].0 == h.spaces[n].name
              && r.result.value.fields[0].1.JObj? && Listed(h, n, r.result.value.fields[0].1.fields)
    ensures LinearMro(h) ==> Settles(h, refs, r.state)
    ensures r.result.Ok? <==> NsFits(h, n, fuel) && NsSupported(h, n, ignore, fuel)
    ensures NsFits(h, n, fuel) && r.result.Err? ==> r.result.error != RecursionLimit
    ensures NsSupported(h, n, ignore, fuel) && r.result.Err? ==> r.result.error == RecursionLimit
    ensures r.result.Ok? && LinearMro(h) ==> NsRendered(h, r.state, n, ignore, fuel, r.result.value)
    decreases fuel, 2, 0
  {
    MembersValid(h, n);
    var d := RenderMembers(h, refs, history + [NsRef(n)], h.Members(n), ignore, fuel, []);
    if d.result.Err? then Effect(Err(d.result.error), d.state)
    else if h.spaces[n].parent.Some? then Effect(Ok(JObj(d.result.value)), d.state)
    else Effect(Ok(JObj([(h.spaces[n].name, JObj(d.result.value))])), d.state)
  }

  /** The dict comprehension over `ms`, into `acc`: a later member with the
      same name overwrites the value in the earlier position. */
  function RenderMembers(h: Heap, refs: Refs, history: seq<Obj>, ms: seq<Obj>, ignore: set<string>, fuel: nat, acc: Dict<Json>)
    : (r: Effect<Dict<Json>, Refs>)
    requires h.Valid() && ValidHistory(h, history)
    requires forall i :: 0 <= i < |ms| ==> h.ValidObj(ms[i])
    ensures Grows(refs, r.state)
    ensures r.result.Err? ==> RenderError(r.result.error)
    ensures r.result.Ok? ==> Keys(r.result.value) == Inserted(Keys(acc), Names(h, ms))
    ensures r.result.Ok? && UniqueKeys(acc) ==> UniqueKeys(r.result.value)
    ensures r.result.Ok? ==> forall k :: k !in Names(h, ms) ==> Get(r.result.value, k) == Get(acc, k)
    ensures LinearMro(h) ==> Settles(h, refs, r.state)
    ensures r.result.Ok? <==> MembersFit(h, ms, fuel) && MembersSupported(h, ms, ignore, fuel)
    ensures MembersFit(h, ms, fuel) && r.result.Err? ==> r.result.error != RecursionLimit
    ensures MembersSupported(h, ms, ignore, fuel) && r.result.Err? ==> r.result.error == RecursionLimit
    ensures r.result.Ok? && LinearMro(h) ==> ValuesRendered(h, r.state, ms, ignore, fuel, r.result.value)
    decreases fuel, 1, |ms|
  {
    if |ms| == 0 then Effect(Ok(acc), refs)
    else
      MembersSplit(h, ms, ignore, fuel);
      var v := MemberAsDict(h, refs, history, ms[0], ignore, fuel);
      if v.result.Err? then Effect(Err(v.result.error), v.state)
      else
        assert forall i :: 1 <= i < |ms| ==> ms[1..][i - 1] == ms[i];
        var r := RenderMembers(h, v.state, history, ms[1..], ignore, fuel, Put(acc, h.NameOf(ms[0]), v.result.value));
        RenderStep(h, refs, ms, ignore, fuel, acc, v, r);
        r
  }

  /** What `RenderMembers` promises, from what the first member's rendering
      and the rest of the comprehension promise. */
  lemma RenderStep(h: Heap, refs: Refs, ms: seq<Obj>, ignore: set<string>, fuel: nat, acc: Dict<Json>,
                   v: Effect<Json, Refs>, r: Effect<Dict<Json>, Refs>)
    requires h.Valid() && |ms| > 0 && forall i :: 0 <= i < |ms| ==> h.ValidObj(ms[i])
    requires v.result.Ok? && Grows(refs, v.state)
    requires LinearMro(h) ==> Settles(h, refs, v.state) && MemberRendered(h, v.state, ms[0], ignore, fuel, v.result.value)
    requires MemberFits(h, ms[0], fuel) && MemberSupported(h, ms[0], ignore, fuel)
    requires var acc' := Put(acc, h.NameOf(ms[0]), v.result.value);
             && Grows(v.state, r.state)
             && (r.result.Ok? ==> Keys(r.result.value) == Inserted(Keys(acc'), Names(h, ms[1..])))
             && (r.result.Ok? && UniqueKeys(acc') ==> UniqueKeys(r.result.value))
             && (r.result.Ok? ==> forall k :: k !in Names(h, ms[1..]) ==> Get(r.result.value, k) == Get(acc', k))
             && (LinearMro(h) ==> Settles(h, v.state, r.state))
             && (r.result.Ok? <==> MembersFit(h, ms[1..], fuel) && MembersSupported(h, ms[1..], ignore, fuel))
             && (MembersFit(h, ms[1..], fuel) && r.result.Err? ==> r.result.error != RecursionLimit)
             && (MembersSupported(h, ms[1..], ignore, fuel) && r.result.Err? ==> r.result.error == RecursionLimit)
             && (r.result.Ok? && LinearMro(h) ==> ValuesRendered(h, r.state, ms[1..], ignore, fuel, r.result.value))
    ensures Grows(refs, r.state)
    ensures r.result.Ok? <==> MembersFit(h, ms, fuel) && MembersSupported(h, ms, ignore, fuel)
    ensures MembersFit(h, ms, fuel) && r.result.Err? ==> r.result.error != RecursionLimit
    ensures MembersSupported(h, ms, ignore, fuel) && r.result.Err? ==> r.result.error == RecursionLimit
    ensures r.result.Ok? ==> Keys(r.result.value) == Inserted(Keys(acc), Names(h, ms))
    ensures r.result.Ok? && UniqueKeys(acc) ==> UniqueKeys(r.result.value)
    ensures r.result.Ok? ==> forall k :: k !in Names(h, ms) ==> Get(r.result.value, k) == Get(acc, k)
    ensures LinearMro(h) ==> Settles(h, refs, r.state)
    ensures r.result.Ok? && LinearMro(h) ==> ValuesRendered(h, r.state, ms, ignore, fuel, r.result.value)
  {
    var n0 := h.NameOf(ms[0]);
    assert Names(h, ms) == [n0] + Names(h, ms[1..]);
    MembersSplit(h, ms, ignore, fuel);
    if LinearMro(h) {
      SettlesTrans(h, refs, v.state, r.state);
    }
    if r.result.Ok? && LinearMro(h) {
      MemberRenderedSettles(h, v.state, r.state, ms[0], ignore, fuel, v.result.value);
      RenderValues(h, r.state, ms, ignore, fuel, Put(acc, n0, v.result.value), v.result.value, r.result.value);
    }
  }

  /** The values half of `RenderStep`: the head's rendering survives unless a
      later member of the same name overwrites it. */
  lemma RenderValues(h: Heap, refs: Refs, ms: seq<Obj>, ignore: set<string>, fuel: nat, acc': Dict<Json>, v: Json, rv: Dict<Json>)
    requires h.Valid() && |ms| > 0 && forall i :: 0 <= i < |ms| ==> h.ValidObj(ms[i])
    requires Get(acc', h.NameOf(ms[0])) == Some(v)
    requires MemberRendered(h, refs, ms[0], ignore, fuel, v)
    requires forall k :: k !in Names(h, ms[1..]) ==> Get(rv, k) == Get(acc', k)
    requires ValuesRendered(h, refs, ms[1..], ignore, fuel, rv)
    ensures ValuesRendered(h, refs, ms, ignore, fuel, rv)
  {
    forall i | 0 <= i < |ms| && LastNamed(h, ms, i)
      ensures Get(rv, h.NameOf(ms[i])).Some? && MemberRendered(h, refs, ms[i], ignore, fuel, Get(rv, h.NameOf(ms[i])).value)
    {
      if i == 0 {
        HeadValue(h, ms, acc', v, rv);
      } else {
        TailValue(h, refs, ms, ignore, fuel, rv, i);
      }
    }
  }

  /** The head's value is not overwritten when no later member shares its name. */
  lemma HeadValue(h: Heap, ms: seq<Obj>, acc': Dict<Json>, v: Json, rv: Dict<Json>)
    requires |ms| > 0 && forall i :: 0 <= i < |ms| ==> h.ValidObj(ms[i])
    requires Get(acc', h.NameOf(ms[0])) == Some(v)
    requires forall k :: k !in Names(h, ms[1..]) ==> Get(rv, k) == Get(acc', k)
    requires LastNamed(h, ms, 0)
    ensures Get(rv, h.NameOf(ms[0])) == Some(v)
  {
    forall j | 0 <= j < |ms[1..]| ensures Names(h, ms[1..])[j] != h.NameOf(ms[0]) {
      assert ms[1..][j] == ms[j + 1];
    }
  }

  /** A later member that is last of its name is last of it in the tail too. */
  lemma TailValue(h: Heap, refs: Refs, ms: seq<Obj>, ignore: set<string>, fuel: nat, rv: Dict<Json>, i: nat)
    requires h.Valid() && 0 < i < |ms| && forall j :: 0 <= j < |ms| ==> h.ValidObj(ms[j])
    requires ValuesRendered(h, refs, ms[1..], ignore, fuel, rv)
    requires LastNamed(h, ms, i)
    ensures Get(rv, h.NameOf(ms[i])).Some? && MemberRendered(h, refs, ms[i], ignore, fuel, Get(rv, h.NameOf(ms[i])).value)
  {
    assert ms[1..][i - 1] == ms[i];
    forall j | i - 1 < j < |ms[1..]| ensures h.NameOf(ms[1..][j]) != h.NameOf(ms[1..][i - 1]) {
      assert ms[1..][j] == ms[j + 1];
    }
    assert LastNamed(h, ms[1..], i - 1);
  }

  /** When the member names are distinct and none is in `acc` yet, the
      rendering lists `acc`'s keys and then the member names, in order. */
  lemma RenderDistinct(h: Heap, refs: Refs, history: seq<Obj>, ms: seq<Obj>, ignore: set<string>, fuel: nat, acc: Dict<Json>)
    requires h.Valid() && ValidHistory(h, history)
    requires forall i :: 0 <= i < |ms| ==> h.ValidObj(ms[i])
    requires Distinct(Names(h, ms)) && forall k :: k in Names(h, ms) ==> k !in Keys(acc)
    ensures var r := RenderMembers(h, refs, history, ms, ignore, fuel, acc);
            r.result.Ok? ==> Keys(r.result.value) == Keys(acc) + Names(h, ms)
  {
    InsertedDistinct(Keys(acc), Names(h, ms));
  }

  /** `m.as_dict(resolver=r, history=history)` for one member, through
      whatever the member forwards to. */
  function MemberAsDict(h: Heap, refs: Refs, history: seq<Obj>, m: Obj, ignore: set<string>, fuel: nat): (r: Effect<Json, Refs>)
    requires h.Valid() && ValidHistory(h, history) && h.ValidObj(m)
    ensures Grows(refs, r.state)
    ensures r.result.Err? ==> RenderError(r.result.error)
    ensures r.result.Ok? ==> r.result.value.JObj?
    ensures h.Deref(m).TClass? && h.classes[h.Deref(m).c].shape.ArrayShape? ==> r.result.Ok?
    ensures h.Deref(m).TClass? && h.classes[h.Deref(m).c].shape.ObjectShape? && r.result.Ok? ==>
              ObjectRendered(h, h.Deref(m).c, ignore, r.result.value)
    ensures h.Deref(m).TClass? && r.result.Ok? ==> Field(r.result.value, "$ref").None?
    ensures h.Deref(m).TNs? && fuel == 0 ==> r == Effect(Err(RecursionLimit), refs)
    ensures LinearMro(h) ==> Settles(h, refs, r.state)
    ensures r.result.Ok? <==> MemberFits(h, m, fuel) && MemberSupported(h, m, ignore, fuel)
    ensures MemberFits(h, m, fuel) && r.result.Err? ==> r.result.error != RecursionLimit
    ensures MemberSupported(h, m, ignore, fuel) && r.result.Err? ==> r.result.error == RecursionLimit
    ensures r.result.Ok? && LinearMro(h) ==> MemberRendered(h, r.state, m, ignore, fuel, r.result.value)
    decreases fuel, 0, 0
  {
    if h.Deref(m).TNs? then
      if fuel == 0 then Effect(Err(RecursionLimit), refs)
      else
        var r := NsAsDict(h, refs, history, h.Deref(m).n, ignore, fuel - 1);
        NsMember(h, refs, m, ignore, fuel, r);
        r
    else
      var c := h.Deref(m).c;
      if h.classes[c].shape.ArrayShape? then
        var r := ArrayAsDict(h, refs, history, c);
        ArrayMember(h, r.state, m, ignore, fuel, r.result.value);
        r
      else
        var r := ObjectAsDict(h, refs, history, c, ignore);
        ObjectMember(h, m, ignore, fuel, r);
        r
  }

  /** A namespace member renders as the namespace it forwards to. */
  lemma NsMember(h: Heap, refs: Refs, m: Obj, ignore: set<string>, fuel: nat, r: Effect<Json, Refs>)
    requires h.Valid() && h.ValidObj(m) && h.Deref(m).TNs? && fuel > 0
    requires Grows(refs, r.state)
    requires r.result.Err? ==> RenderError(r.result.error)
    requires r.result.Ok? ==> r.result.value.JObj?
    requires LinearMro(h) ==> Settles(h, refs, r.state)
    requires r.result.Ok? && LinearMro(h) ==> NsRendered(h, r.state, h.Deref(m).n, ignore, fuel - 1, r.result.value)
    requires r.result.Ok? <==> NsFits(h, h.Deref(m).n, fuel - 1) && NsSupported(h, h.Deref(m).n, ignore, fuel - 1)
    requires NsFits(h, h.Deref(m).n, fuel - 1) && r.result.Err? ==> r.result.error != RecursionLimit
    requires NsSupported(h, h.Deref(m).n, ignore, fuel - 1) && r.result.Err? ==> r.result.error == RecursionLimit
    ensures r.result.Ok? && LinearMro(h) ==> MemberRendered(h, r.state, m, ignore, fuel, r.result.value)
    ensures r.result.Ok? <==> MemberFits(h, m, fuel) && MemberSupported(h, m, ignore, fuel)
    ensures MemberFits(h, m, fuel) && r.result.Err? ==> r.result.error != RecursionLimit
    ensures MemberSupported(h, m, ignore, fuel) && r.result.Err? ==> r.result.error == RecursionLimit
  {
  }

  /** A class member renders inline, as its own `as_dict` document. */
  lemma ArrayMember(h: Heap, refs: Refs, m: Obj, ignore: set<string>, fuel: nat, d: Json)
    requires h.Valid() && h.ValidObj(m) && h.Deref(m).TClass? && h.classes[h.Deref(m).c].shape.ArrayShape?
    requires ArrayRendered(h, refs, h.Deref(m).c, d)
    ensures d.JObj? && Field(d, "$ref").None?
    ensures MemberRendered(h, refs, m, ignore, fuel, d)
    ensures MemberFits(h, m, fuel) && MemberSupported(h, m, ignore, fuel)
  {
  }

  lemma ObjectMember(h: Heap, m: Obj, ignore: set<string>, fuel: nat, r: Effect<Json, Refs>)
    requires h.Valid() && h.ValidObj(m) && h.Deref(m).TClass? && h.classes[h.Deref(m).c].shape.ObjectShape?
    requires r.result.Ok? <==> WinnersSupported(HintsOf(h, Mro(h, h.Deref(m).c)), ignore, [])
    requires r.result.Err? ==> FieldError(r.result.error)
    requires r.result.Ok? ==> ObjectRendered(h, h.Deref(m).c, ignore, r.result.value)
    requires r.result.Ok? && LinearMro(h) ==> PropsDescribed(h, r.state, HintsOf(h, Mro(h, h.Deref(m).c)), r.result.value)
    ensures r.result.Ok? ==> r.result.value.JObj? && Field(r.result.value, "$ref").None?
    ensures r.result.Ok? && LinearMro(h) ==> MemberRendered(h, r.state, m, ignore, fuel, r.result.value)
    ensures r.result.Ok? <==> MemberFits(h, m, fuel) && MemberSupported(h, m, ignore, fuel)
    ensures MemberFits(h, m, fuel) && r.result.Err? ==> r.result.error != RecursionLimit
    ensures MemberSupported(h, m, ignore, fuel) && r.result.Err? ==> r.result.error == RecursionLimit
  {
  }

  /* ---------- properties of the `_ref` cache ---------- */

  /** Resolving a schema class a second time, from any history, answers the
      document of the first time and leaves the cache alone: the path built
      on first touch sticks. */
  lemma ResolveTwice(h: Heap, refs: Refs, history: seq<Obj>, history': seq<Obj>, c: nat)
    requires h.ClassesValid() && ValidHistory(h, history) && ValidHistory(h, history') && c < |h.classes|
    ensures var first := ResolveType(h, refs, history, SchemaT(c));
            ResolveType(h, first.state, history', SchemaT(c)) == first
  {
    var first := ResolveType(h, refs, history, SchemaT(c));
    var second := ResolveType(h, first.state, history', SchemaT(c));
    assert second.state == first.state;
    assert second.result == Ok(RefDoc(CachedRef(h, first.state, c).value)) == first.result;
  }

  /** A subclass whose own `_ref` is unset but whose nearest ancestor holds
      one is rendered with the ancestor's path, and gets no `_ref` of its own. */
  lemma SubclassSeesAncestorRef(h: Heap, refs: Refs, history: seq<Obj>, c: nat)
    requires h.ClassesValid() && ValidHistory(h, history) && c < |h.classes|
    requires c !in refs && |h.classes[c].ancestors| > 0 && h.classes[c].ancestors[0] in refs
    ensures ResolveType(h, refs, history, SchemaT(c)) == Effect(Ok(RefDoc(refs[h.classes[c].ancestors[0]])), refs)
  {
    var chain := Mro(h, c);
    assert chain[1..][0] == h.classes[c].ancestors[0];
    assert FirstRef(refs, chain) == FirstRef(refs, chain[1..]);
  }

  /** The package has two `guess_type` tables: the one objects.py uses and
      the `TypeGuesser` that guess.py seeds with `setup`. They agree on `int`
      and `str`, both reject what neither knows, and disagree on `bool`,
      which objects.py describes as "integer". */
  lemma GuessTables(t: Type)
    ensures t == PrimT(Int) || t == PrimT(Str) ==>
              Guess.Call(Guess.Setup(Guess.NewGuesser()), t) == Ok(Guess.TypeDoc(GuessType(t).value))
    ensures GuessType(PrimT(Bool)) == Ok("integer")
    ensures Guess.Call(Guess.Setup(Guess.NewGuesser()), PrimT(Bool)) == Ok(Guess.TypeDoc("boolean"))
    ensures GuessType(t).Err? <==> Guess.Call(Guess.Setup(Guess.NewGuesser()), t).Err?
  {
    Guess.SetupExactly(t);
  }
}
