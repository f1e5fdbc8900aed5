/** `Namespace` of oao/objects.py: mounting with identity-keyed deduplication,
    copy-on-mount of namespaces, the item-first mount of arrays, lazily created
    child namespaces, and the recursive membership test.
 */
module Namespaces {
  import opened Wrappers
  import opened Dicts
  import opened Arena

  /* ---------- the membership test `x in ns` ---------- */

  /** Reference definition: `x` was mounted into the body `b`, or into a body
      reached from it through at most `depth` links of `children` that are
      plain namespaces. */
  ghost predicate InSubtree(h: Heap, b: nat, x: Obj, depth: nat)
    requires h.Valid() && b < |h.bodies|
    decreases depth, 1
  {
    x in h.bodies[b].seen ||
    exists i :: 0 <= i < |h.bodies[b].children| && ChildHas(h, h.bodies[b].children[i].1, x, depth)
  }

  ghost predicate ChildHas(h: Heap, o: Obj, x: Obj, depth: nat)
    requires h.Valid() && h.ValidObj(o)
    decreases depth, 0
  {
    o.NsRef? && depth > 0 && InSubtree(h, h.spaces[o.n].body, x, depth - 1)
  }

  /** Every child met within `depth` levels below `cs` is a plain
      namespace, so `x in child` never meets an alias. */
  ghost predicate AliasFree(h: Heap, cs: Dict<Obj>, depth: nat)
    requires h.Valid() && forall i :: 0 <= i < |cs| ==> h.ValidObj(cs[i].1)
    decreases depth
  {
    forall i :: 0 <= i < |cs| ==>
      && cs[i].1.NsRef?
      && (depth > 0 ==> AliasFree(h, h.Children(cs[i].1.n), depth - 1))
  }

  /** No namespace below `cs` sits more than `depth` links of `children` down. */
  ghost predicate Shallow(h: Heap, cs: Dict<Obj>, depth: nat)
    requires h.Valid() && forall i :: 0 <= i < |cs| ==> h.ValidObj(cs[i].1)
    decreases depth
  {
    forall i :: 0 <= i < |cs| && cs[i].1.NsRef? ==>
      depth > 0 && Shallow(h, h.Children(cs[i].1.n), depth - 1)
  }

  /** `Namespace.__contains__` on the body `b`: the own `_seen` first, then each
      child in `children` order, stopping at the first hit. `x in child` raises
      TypeError when the child is an alias (the `in` operator does not look
      through `__getattr__`); a nesting deeper than `depth` is reported as
      RecursionLimit. */
  function ContainsBody(h: Heap, b: nat, x: Obj, depth: nat): (r: Result<bool>)
    requires h.Valid() && b < |h.bodies|
    ensures r.Ok? ==> (r.value <==> InSubtree(h, b, x, depth))
    ensures x in h.bodies[b].seen ==> r == Ok(true)
    ensures r.Err? ==> r.error.TypeError? || r.error == RecursionLimit
    ensures AliasFree(h, h.bodies[b].children, depth) ==> !(r.Err? && r.error.TypeError?)
    ensures Shallow(h, h.bodies[b].children, depth) ==> r != Err(RecursionLimit)
    decreases depth, 1, 0
  {
    if x in h.bodies[b].seen then Ok(true)
    else ContainsChildren(h, h.bodies[b].children, x, depth)
  }

  function ContainsChildren(h: Heap, cs: Dict<Obj>, x: Obj, depth: nat): (r: Result<bool>)
    requires h.Valid() && forall i :: 0 <= i < |cs| ==> h.ValidObj(cs[i].1)
    ensures r.Ok? ==> (r.value <==> exists i :: 0 <= i < |cs| && ChildHas(h, cs[i].1, x, depth))
    ensures r.Err? ==> r.error.TypeError? || r.error == RecursionLimit
    ensures AliasFree(h, cs, depth) ==> !(r.Err? && r.error.TypeError?)
    ensures Shallow(h, cs, depth) ==> r != Err(RecursionLimit)
    decreases depth, 0, |cs|
  {
    if |cs| == 0 then Ok(false)
    else
      assert h.ValidObj(cs[0].1);
      match cs[0].1
      case NsRef(k) =>
        if depth == 0 then Err(RecursionLimit)
        else
          var first := ContainsBody(h, h.spaces[k].body, x, depth - 1);
          if first.Err? || first.value then first
          else
            var rest := ContainsChildren(h, cs[1..], x, depth);
            assert forall i :: 1 <= i < |cs| ==> cs[i] == cs[1..][i - 1];
            rest
      case _ => Err(TypeError("argument is not iterable"))
  }

  /** `x in ns`. Without a cycle no chain of children is longer than the number of bodies. */
  function Contains(h: Heap, n: nat, x: Obj): (r: Result<bool>)
    requires h.Valid() && n < |h.spaces|
    ensures r.Ok? ==> (r.value <==> InSubtree(h, h.spaces[n].body, x, |h.bodies|))
    ensures x in h.Seen(n) ==> r == Ok(true)
    ensures r.Err? ==> r.error.TypeError? || r.error == RecursionLimit
    ensures AliasFree(h, h.Children(n), |h.bodies|) ==> !(r.Err? && r.error.TypeError?)
    ensures Shallow(h, h.Children(n), |h.bodies|) ==> r != Err(RecursionLimit)
    ensures AliasFree(h, h.Children(n), |h.bodies|) && Shallow(h, h.Children(n), |h.bodies|) ==> r.Ok?
  {
    ContainsBody(h, h.spaces[n].body, x, |h.bodies|)
  }

  /** Every `x in ns` on record `n` answers: no alias is met below it and
      no namespace sits deeper than the bound `Contains` uses. */
  ghost predicate Answers(h: Heap, n: nat)
    requires h.Valid() && n < |h.spaces|
  {
    AliasFree(h, h.Children(n), |h.bodies|) && Shallow(h, h.Children(n), |h.bodies|)
  }

  /** A heap change that keeps every namespace's children and the number of
      bodies keeps every `in` test on `n` answering. */
  lemma AnswersKept(h: Heap, h': Heap, n: nat)
    requires h.Valid() && h'.Valid() && Extends(h, h') && |h'.bodies| == |h.bodies| && n < |h.spaces|
    requires forall k :: 0 <= k < |h.spaces| ==> h'.Children(k) == h.Children(k)
    requires Answers(h, n)
    ensures Answers(h', n)
  {
    AliasFreeKept(h, h', h.Children(n), |h.bodies|);
    ShallowKept(h, h', h.Children(n), |h.bodies|);
  }

  lemma {:induction false} AliasFreeKept(h: Heap, h': Heap, cs: Dict<Obj>, depth: nat)
    requires h.Valid() && h'.Valid() && Extends(h, h') && forall i :: 0 <= i < |cs| ==> h.ValidObj(cs[i].1)
    requires forall k :: 0 <= k < |h.spaces| ==> h'.Children(k) == h.Children(k)
    requires AliasFree(h, cs, depth)
    ensures (forall i :: 0 <= i < |cs| ==> h'.ValidObj(cs[i].1)) && AliasFree(h', cs, depth)
    decreases depth
  {
    forall i | 0 <= i < |cs| ensures h'.ValidObj(cs[i].1) {
      ObjStable(h, h', cs[i].1);
    }
    forall i | 0 <= i < |cs| && depth > 0
      ensures AliasFree(h', h'.Children(cs[i].1.n), depth - 1)
    {
      AliasFreeKept(h, h', h.Children(cs[i].1.n), depth - 1);
    }
  }

  lemma {:induction false} ShallowKept(h: Heap, h': Heap, cs: Dict<Obj>, depth: nat)
    requires h.Valid() && h'.Valid() && Extends(h, h') && forall i :: 0 <= i < |cs| ==> h.ValidObj(cs[i].1)
    requires forall k :: 0 <= k < |h.spaces| ==> h'.Children(k) == h.Children(k)
    requires Shallow(h, cs, depth)
    ensures (forall i :: 0 <= i < |cs| ==> h'.ValidObj(cs[i].1)) && Shallow(h', cs, depth)
    decreases depth
  {
    forall i | 0 <= i < |cs| ensures h'.ValidObj(cs[i].1) {
      ObjStable(h, h', cs[i].1);
    }
    forall i | 0 <= i < |cs| && cs[i].1.NsRef?
      ensures Shallow(h', h'.Children(cs[i].1.n), depth - 1)
    {
      ShallowKept(h, h', h.Children(cs[i].1.n), depth - 1);
    }
  }

  /** Only the body of `n` changed, and not its children: no namespace's
      children changed. */
  lemma ChildrenKept(h: Heap, h': Heap, n: nat)
    requires h.Valid() && Extends(h, h') && OnlyBody(h, h', n) && h'.Children(n) == h.Children(n)
    ensures forall k :: 0 <= k < |h.spaces| ==> h'.Children(k) == h.Children(k)
  {
    forall k | 0 <= k < |h.spaces| ensures h'.Children(k) == h.Children(k) {
      assert h'.spaces[k] == h'.spaces[..|h.spaces|][k];
      assert h'.spaces[n] == h'.spaces[..|h.spaces|][n];
    }
  }

  /* ---------- heap updates ---------- */

  /** Between `h` and `h'` no body changed except the one of namespace record `n`. */
  predicate OnlyBody(h: Heap, h': Heap, n: nat) {
    n < |h.spaces| && h.spaces[n].body < |h.bodies| && |h'.bodies| == |h.bodies| &&
    h'.bodies == h.bodies[h.spaces[n].body := h'.bodies[h.spaces[n].body]]
  }

  lemma OnlyBodyTrans(h: Heap, h1: Heap, h2: Heap, n: nat)
    requires Extends(h, h1) && OnlyBody(h, h1, n) && OnlyBody(h1, h2, n)
    ensures OnlyBody(h, h2, n)
  {
    assert h1.spaces[n] == h1.spaces[..|h.spaces|][n];
  }

  lemma ExtendsTrans(h: Heap, h1: Heap, h2: Heap)
    requires Extends(h, h1) && Extends(h1, h2)
    ensures Extends(h, h2)
  {
    assert h2.spaces[..|h.spaces|] == h2.spaces[..|h1.spaces|][..|h.spaces|];
    assert h2.aliases[..|h.aliases|] == h2.aliases[..|h1.aliases|][..|h.aliases|];
  }

  function SetBody(h: Heap, b: nat, body: Body): (h': Heap)
    requires h.Valid() && b < |h.bodies| && h.ValidBody(body)
    ensures h'.Valid() && Extends(h, h') && |h'.bodies| == |h.bodies|
    ensures h'.bodies == h.bodies[b := body] && h'.spaces == h.spaces && h'.aliases == h.aliases
  {
    var h' := h.(bodies := h.bodies[b := body]);
    BodiesStable(h, h', b, body);
    h'
  }

  /** `_Alias(member, name=name)`: a fresh identity. */
  function AllocAlias(h: Heap, target: Target, name: string): (r: (Heap, Obj))
    requires h.Valid() && h.ValidTarget(target)
    ensures r.0.Valid() && Extends(h, r.0)
    ensures r.1 == AliasRef(|h.aliases|) && r.0.ValidObj(r.1)
    ensures r.0.Deref(r.1) == target && r.0.NameOf(r.1) == name
    ensures r.0.bodies == h.bodies && r.0.spaces == h.spaces
  {
    var h' := h.(aliases := h.aliases + [AliasRec(target, name)]);
    BodiesStable(h, h', 0, Body([], {}, []));
    (h', AliasRef(|h.aliases|))
  }

  /** A namespace record pointing at the existing body `body`. */
  function AllocNs(h: Heap, name: string, parent: Option<Obj>, body: nat): (r: (Heap, nat))
    requires h.Valid() && body < |h.bodies| && (parent.Some? ==> h.ValidObj(parent.value))
    ensures r.0.Valid() && Extends(h, r.0)
    ensures r.1 == |h.spaces| && r.0.spaces == h.spaces + [NsRec(name, parent, body)]
    ensures r.0.bodies == h.bodies && r.0.aliases == h.aliases
  {
    var h' := h.(spaces := h.spaces + [NsRec(name, parent, body)]);
    BodiesStable(h, h', 0, Body([], {}, []));
    assert parent.Some? ==> h'.ValidObj(parent.value);
    (h', |h.spaces|)
  }

  /** Record `o` in the `_seen` of namespace `n`. */
  function AddSeen(h: Heap, n: nat, o: Obj): (h': Heap)
    requires h.Valid() && n < |h.spaces| && h.ValidObj(o)
    ensures h'.Valid() && Extends(h, h') && |h'.bodies| == |h.bodies|
    ensures h'.spaces == h.spaces && h'.aliases == h.aliases
    ensures h'.Seen(n) == h.Seen(n) + {o} && h'.Members(n) == h.Members(n) && h'.Children(n) == h.Children(n)
    ensures OnlyBody(h, h', n)
  {
    var body := h.BodyOf(n);
    SetBody(h, h.spaces[n].body, body.(seen := body.seen + {o}))
  }

  lemma AppendValid(h: Heap, ms: seq<Obj>, o: Obj)
    requires (forall i :: 0 <= i < |ms| ==> h.ValidObj(ms[i])) && h.ValidObj(o)
    ensures forall i :: 0 <= i < |ms + [o]| ==> h.ValidObj((ms + [o])[i])
  {
    forall i | 0 <= i < |ms + [o]| ensures h.ValidObj((ms + [o])[i]) {
      if i < |ms| {
        assert (ms + [o])[i] == ms[i];
      }
    }
  }

  lemma PutChildValid(h: Heap, cs: Dict<Obj>, k: string, o: Obj)
    requires forall i :: 0 <= i < |cs| ==> h.ValidObj(cs[i].1) && h.IsNamespace(cs[i].1)
    requires h.ValidObj(o) && h.IsNamespace(o)
    ensures forall i :: 0 <= i < |Put(cs, k, o)| ==> h.ValidObj(Put(cs, k, o)[i].1) && h.IsNamespace(Put(cs, k, o)[i].1)
  {
    var cs' := Put(cs, k, o);
    PutEntries(cs, k, o);
    forall i | 0 <= i < |cs'| ensures h.ValidObj(cs'[i].1) && h.IsNamespace(cs'[i].1) {
      assert cs'[i] in cs';
      if cs'[i] != (k, o) {
        var j :| 0 <= j < |cs| && cs[j] == cs'[i];
      }
    }
  }

  /** The body `Finish` builds is valid. */
  lemma FinishBodyValid(h: Heap, body: Body, member: Obj, result: Obj)
    requires h.Valid() && h.ValidBody(body) && h.ValidObj(member) && h.ValidObj(result)
    ensures h.ValidBody(body.(members := body.members + [result]))
    ensures h.IsNamespace(member) ==>
              h.ValidBody(Body(body.members + [result], body.seen, Put(body.children, h.NameOf(member), member)))
  {
    AppendValid(h, body.members, result);
    if h.IsNamespace(member) {
      PutChildValid(h, body.children, h.NameOf(member), member);
    }
  }

  /** The tail of `mount`: append the `on_mount` result `result` to `members`
      and, when the mounted `member` is a namespace, register `member` in
      `children` under its name. */
  function Finish(h: Heap, n: nat, member: Obj, result: Obj): (h': Heap)
    requires h.Valid() && n < |h.spaces| && h.ValidObj(member) && h.ValidObj(result)
    ensures h'.Valid() && Extends(h, h') && |h'.bodies| == |h.bodies|
    ensures h'.spaces == h.spaces && h'.aliases == h.aliases
    ensures h'.Members(n) == h.Members(n) + [result] && h'.Seen(n) == h.Seen(n)
    ensures h.IsNamespace(member) ==> h'.Children(n) == Put(h.Children(n), h.NameOf(member), member)
    ensures !h.IsNamespace(member) ==> h'.Children(n) == h.Children(n)
    ensures OnlyBody(h, h', n)
  {
    var b := h.spaces[n].body;
    var body := h.bodies[b];
    var children := if h.IsNamespace(member) then Put(body.children, h.NameOf(member), member) else body.children;
    FinishBodyValid(h, body, member, result);
    SetBody(h, b, Body(body.members + [result], body.seen, children))
  }

  /* ---------- mount ---------- */

  /** `o` is the last element of `s`. */
  predicate EndsWith(s: seq<Obj>, o: Obj) {
    |s| > 0 && s[|s| - 1] == o
  }

  /** `a` and then `b` are the last two elements of `s`. */
  predicate EndsWithPair(s: seq<Obj>, a: Obj, b: Obj) {
    |s| >= 2 && s[|s| - 2] == a && s[|s| - 1] == b
  }

  function ClassIds(h: Heap): set<Obj> {
    set c | 0 <= c < |h.classes| :: ClassRef(c)
  }

  /** Classes not yet in the `_seen` of `n`: only they can still be mounted as array items. */
  function Unseen(h: Heap, n: nat): nat
    requires h.Valid() && n < |h.spaces|
  {
    |ClassIds(h) - h.Seen(n)|
  }

  lemma UnseenShrinks(h: Heap, h': Heap, n: nat, o: Obj)
    requires h.Valid() && h'.Valid() && n < |h.spaces| && n < |h'.spaces|
    requires h'.classes == h.classes && h'.Seen(n) == h.Seen(n) + {o}
    ensures Unseen(h', n) <= Unseen(h, n)
    ensures o in ClassIds(h) && o !in h.Seen(n) ==> Unseen(h', n) < Unseen(h, n)
  {
    var before := ClassIds(h) - h.Seen(n);
    var after := ClassIds(h') - h'.Seen(n);
    if o in before {
      assert after == before - {o};
      assert before == after + {o};
    } else {
      assert after == before;
    }
  }

  /** What `on_mount` hands back for a member standing for `t`, when namespace
      records up to `fresh` exist: a class returns itself, a namespace returns a
      copy allocated at index `next`. */
  function MountResult(t: Target, next: nat): Obj {
    match t
    case TClass(c) => ClassRef(c)
    case TNs(_) => NsRef(next)
  }

  /** `ns.mount(member, name=name)` with `ns` the namespace record `n`.
      A member already in `_seen` (by identity) changes nothing. Otherwise the
      member, wrapped in a fresh alias when `name` is given, enters `_seen`
      before its `on_mount` runs; the `on_mount` result is appended to
      `members`; and a namespace member is registered in `children`. */
  function Mount(h: Heap, n: nat, m: Obj, name: Option<string>): (r: Effect<(), Heap>)
    requires h.Valid() && n < |h.spaces| && h.ValidObj(m)
    ensures r.state.Valid() && Extends(h, r.state) && |r.state.bodies| == |h.bodies|
    ensures OnlyBody(h, r.state, n)
    ensures h.Seen(n) <= r.state.Seen(n) && h.Members(n) <= r.state.Members(n)
    ensures m in h.Seen(n) ==> r == Effect(Ok(()), h)
    ensures m !in h.Seen(n) ==> (if name.Some? then AliasRef(|h.aliases|) else m) in r.state.Seen(n)
    ensures r.result.Err? ==> h.Deref(m).TClass? && h.classes[h.Deref(m).c].shape.ArrayShape?
    ensures m !in h.Seen(n) && r.result.Ok? ==>
              |r.state.Members(n)| > |h.Members(n)| && EndsWith(r.state.Members(n), MountResult(h.Deref(m), |h.spaces|))
    ensures r.result.Err? ==> r.result.error.TypeError? || r.result.error == RecursionLimit
    ensures Answers(h, n) ==> r.result.Ok?
    decreases Unseen(h, n), if m.ClassRef? && name.None? then 0 else 1, 2
  {
    if m in h.Seen(n) then Effect(Ok(()), h) else MountNew(h, n, m, name)
  }

  /** `mount` of a member not yet in `_seen`. */
  function MountNew(h: Heap, n: nat, m: Obj, name: Option<string>): (r: Effect<(), Heap>)
    requires h.Valid() && n < |h.spaces| && h.ValidObj(m) && m !in h.Seen(n)
    ensures r.state.Valid() && Extends(h, r.state) && |r.state.bodies| == |h.bodies|
    ensures OnlyBody(h, r.state, n)
    ensures h.Seen(n) <= r.state.Seen(n) && h.Members(n) <= r.state.Members(n)
    ensures (if name.Some? then AliasRef(|h.aliases|) else m) in r.state.Seen(n)
    ensures r.result.Err? ==> h.Deref(m).TClass? && h.classes[h.Deref(m).c].shape.ArrayShape?
    ensures r.result.Ok? ==>
              |r.state.Members(n)| > |h.Members(n)| && EndsWith(r.state.Members(n), MountResult(h.Deref(m), |h.spaces|))
    ensures r.result.Err? ==> r.result.error.TypeError? || r.result.error == RecursionLimit
    ensures Answers(h, n) ==> r.result.Ok?
    decreases Unseen(h, n), if m.ClassRef? && name.None? then 0 else 1, 1
  {
    var (h2, member) := Admit(h, n, m, name);
    assert Answers(h, n) ==> Answers(h2, n) by {
      if Answers(h, n) {
        ChildrenKept(h, h2, n);
        AnswersKept(h, h2, n);
      }
    }
    var r := OnMount(h2, n, member, h.Deref(m));
    MountCompose(h, h2, r.state, n);
    r
  }

  /** Chaining the guarantees of `Admit` and `OnMount`. */
  lemma MountCompose(h: Heap, h1: Heap, h2: Heap, n: nat)
    requires Extends(h, h1) && Extends(h1, h2) && OnlyBody(h, h1, n) && OnlyBody(h1, h2, n)
    requires h1.spaces == h.spaces
    ensures Extends(h, h2) && OnlyBody(h, h2, n) && |h2.bodies| == |h.bodies|
  {
    ExtendsTrans(h, h1, h2);
    OnlyBodyTrans(h, h1, h2, n);
  }

  /** The head of `mount` for a member not yet seen: wrap it in a fresh alias
      when a name is given, and add what results to `_seen`. */
  function Admit(h: Heap, n: nat, m: Obj, name: Option<string>): (r: (Heap, Obj))
    requires h.Valid() && n < |h.spaces| && h.ValidObj(m) && m !in h.Seen(n)
    ensures r.0.Valid() && Extends(h, r.0) && |r.0.bodies| == |h.bodies| && r.0.spaces == h.spaces
    ensures OnlyBody(h, r.0, n)
    ensures r.1 == (if name.Some? then AliasRef(|h.aliases|) else m)
    ensures r.0.ValidObj(r.1) && r.0.Deref(r.1) == h.Deref(m)
    ensures r.0.Seen(n) == h.Seen(n) + {r.1} && r.0.Members(n) == h.Members(n) && r.0.Children(n) == h.Children(n)
    ensures r.0.NameOf(r.1) == (if name.Some? then name.value else h.NameOf(m))
    ensures Unseen(r.0, n) <= Unseen(h, n)
    ensures m.ClassRef? && name.None? ==> Unseen(r.0, n) < Unseen(h, n)
  {
    var target := h.Deref(m);
    var (h1, member) := if name.Some? then AllocAlias(h, target, name.value) else (h, m);
    ObjStable(h, h1, m);
    var h2 := AddSeen(h1, n, member);
    ObjStable(h1, h2, member);
    UnseenShrinks(h, h2, n, member);
    (h2, member)
  }

  /** `member.on_mount(ns)` followed by the tail of `mount`. A class hands back
      itself; a namespace hands back a copy that shares its containers and has
      `ns` as parent; an array class is handled by `OnMountArray`. */
  function OnMount(h: Heap, n: nat, member: Obj, target: Target): (r: Effect<(), Heap>)
    requires h.Valid() && n < |h.spaces| && h.ValidObj(member) && h.Deref(member) == target
    ensures r.state.Valid() && Extends(h, r.state) && |r.state.bodies| == |h.bodies|
    ensures OnlyBody(h, r.state, n)
    ensures h.Seen(n) <= r.state.Seen(n) && h.Members(n) <= r.state.Members(n)
    ensures r.result.Err? ==> target.TClass? && h.classes[target.c].shape.ArrayShape?
    ensures r.result.Ok? ==>
              |r.state.Members(n)| > |h.Members(n)| && EndsWith(r.state.Members(n), MountResult(target, |h.spaces|))
    ensures r.result.Err? ==> r.result.error.TypeError? || r.result.error == RecursionLimit
    ensures Answers(h, n) ==> r.result.Ok?
    decreases Unseen(h, n), 0, 4
  {
    match target
    case TNs(k) =>
      var (h1, copy) := AllocNs(h, h.spaces[k].name, Some(NsRef(n)), h.spaces[k].body);
      ObjStable(h, h1, member);
      Effect(Ok(()), Finish(h1, n, member, NsRef(copy)))
    case TClass(c) =>
      match h.classes[c].shape
      case ObjectShape => Effect(Ok(()), Finish(h, n, member, ClassRef(c)))
      case ArrayShape(items) => OnMountArray(h, n, member, c, items)
  }

  /** `Array.on_mount(ns)` followed by the tail of `mount`: unless
      `items in ns` already holds, `items` is mounted into the same namespace
      first, so it lands in `members` ahead of the array. That test and that
      nested mount are the only sources of failure of `mount`. */
  function OnMountArray(h: Heap, n: nat, member: Obj, c: nat, items: nat): (r: Effect<(), Heap>)
    requires h.Valid() && n < |h.spaces| && h.ValidObj(member) && c < |h.classes| && items < |h.classes|
    ensures r.state.Valid() && Extends(h, r.state) && |r.state.bodies| == |h.bodies|
    ensures OnlyBody(h, r.state, n)
    ensures h.Seen(n) <= r.state.Seen(n) && h.Members(n) <= r.state.Members(n)
    ensures r.result.Ok? ==>
              |r.state.Members(n)| > |h.Members(n)| && EndsWith(r.state.Members(n), ClassRef(c))
    ensures r.result.Err? ==> r.result.error.TypeError? || r.result.error == RecursionLimit
    ensures Answers(h, n) ==> r.result.Ok?
    ensures Contains(h, n, ClassRef(items)) == Ok(false) && h.classes[items].shape.ObjectShape? ==> r.result.Ok?
    decreases Unseen(h, n), 0, 3
  {
    var present := Contains(h, n, ClassRef(items));
    if present.Err? then Effect(Err(present.error), h)
    else if present.value then Effect(Ok(()), Finish(h, n, member, ClassRef(c)))
    else
      var inner := Mount(h, n, ClassRef(items), None);
      if inner.result.Err? then inner
      else Effect(Ok(()), FinishAfter(h, inner.state, n, member, c))
  }

  /** The tail of `mount` for an array, run on `h1`, the heap after its items were mounted. */
  function FinishAfter(h: Heap, h1: Heap, n: nat, member: Obj, c: nat): (h': Heap)
    requires h.Valid() && h1.Valid() && Extends(h, h1) && n < |h.spaces| && h.ValidObj(member) && c < |h.classes|
    requires OnlyBody(h, h1, n) && h.Seen(n) <= h1.Seen(n) && h.Members(n) <= h1.Members(n)
    ensures h'.Valid() && Extends(h, h') && |h'.bodies| == |h.bodies|
    ensures OnlyBody(h, h', n)
    ensures h.Seen(n) <= h'.Seen(n) && h.Members(n) <= h'.Members(n)
    ensures |h'.Members(n)| > |h.Members(n)| && EndsWith(h'.Members(n), ClassRef(c))
    ensures h'.Members(n) == h1.Members(n) + [ClassRef(c)] && h'.Seen(n) == h1.Seen(n) && h'.spaces == h1.spaces
  {
    ObjStable(h, h1, member);
    var h' := Finish(h1, n, member, ClassRef(c));
    assert h.Members(n) <= h1.Members(n) + [ClassRef(c)];
    h'
  }

  /* ---------- creating namespaces ---------- */

  /** A namespace record with fresh, empty containers of its own. */
  function AllocFresh(h: Heap, name: string, parent: Option<Obj>): (r: (Heap, nat))
    requires h.Valid() && (parent.Some? ==> h.ValidObj(parent.value))
    ensures r.0.Valid() && Extends(h, r.0) && r.1 == |h.spaces|
    ensures r.0.spaces == h.spaces + [NsRec(name, parent, |h.bodies|)]
    ensures r.0.bodies == h.bodies + [Body([], {}, [])] && r.0.aliases == h.aliases
  {
    var h1 := h.(spaces := h.spaces + [NsRec(name, parent, |h.bodies|)], bodies := h.bodies + [Body([], {}, [])]);
    assert Extends(h, h1);
    assert h1.ValidBody(Body([], {}, []));
    forall b | 0 <= b < |h.bodies| ensures h1.ValidBody(h1.bodies[b]) {
      BodyStable(h, h1, h.bodies[b]);
    }
    assert parent.Some? ==> h1.ValidObj(parent.value);
    (h1, |h.spaces|)
  }

  /** `Namespace(name, ns=parent)`: a record with fresh, empty containers and,
      when a parent is given, the immediate `parent.mount(self)`. That mount
      cannot fail, since only arrays fail to mount. */
  function NewNamespace(h: Heap, name: string, parent: Option<nat>): (r: (Heap, nat))
    requires h.Valid() && (parent.Some? ==> parent.value < |h.spaces|)
    ensures r.0.Valid() && Extends(h, r.0) && r.1 == |h.spaces|
    ensures |r.0.bodies| == |h.bodies| + 1 && r.0.bodies[|h.bodies|] == Body([], {}, [])
    ensures parent.None? ==> r.0.spaces == h.spaces + [NsRec(name, None, |h.bodies|)]
    ensures parent.Some? ==> Attached(h, r.0, name, parent.value)
  {
    if parent.None? then AllocFresh(h, name, None)
    else
      var p := parent.value;
      var (h1, k) := AllocFresh(h, name, Some(NsRef(p)));
      AttachNew(h, name, p);
      (Mount(h1, p, NsRef(k), None).state, k)
  }

  /** What `Namespace(name, ns=p)` leaves behind, from `h` to `h'`: the new
      record and, right after it, the copy its mount into `p` made, both over
      the new containers; the copy last in the `members` of `p`; the new record
      in the `_seen` of `p` and in its `children` under `name`. */
  ghost predicate Attached(h: Heap, h': Heap, name: string, p: nat)
    requires h.Valid() && p < |h.spaces|
  {
    var rec := NsRec(name, Some(NsRef(p)), |h.bodies|);
    && h'.spaces == h.spaces + [rec, rec]
    && h'.Members(p) == h.Members(p) + [NsRef(|h.spaces| + 1)]
    && h'.Seen(p) == h.Seen(p) + {NsRef(|h.spaces|)}
    && h'.Children(p) == Put(h.Children(p), name, NsRef(|h.spaces|))
  }

  lemma AttachNew(h: Heap, name: string, p: nat)
    requires h.Valid() && p < |h.spaces|
    ensures var (h1, k) := AllocFresh(h, name, Some(NsRef(p)));
            h1.ValidObj(NsRef(k)) && NsRef(k) !in h1.Seen(p) &&
            Attached(h, Mount(h1, p, NsRef(k), None).state, name, p)
  {
    var (h1, k) := AllocFresh(h, name, Some(NsRef(p)));
    NewIsUnseen(h, h1, p);
    AttachSpaces(h, h1, name, p);
    AttachBody(h, h1, name, p);
  }

  lemma AttachBody(h: Heap, h1: Heap, name: string, p: nat)
    requires h.Valid() && p < |h.spaces|
    requires (h1, |h.spaces|) == AllocFresh(h, name, Some(NsRef(p)))
    requires NsRef(|h.spaces|) !in h1.Seen(p) && h1.BodyOf(p) == h.BodyOf(p)
    ensures var h2 := Mount(h1, p, NsRef(|h.spaces|), None).state;
            && h2.Members(p) == h.Members(p) + [NsRef(|h.spaces| + 1)]
            && h2.Seen(p) == h.Seen(p) + {NsRef(|h.spaces|)}
            && h2.Children(p) == Put(h.Children(p), name, NsRef(|h.spaces|))
  {
    MountNamespace(h1, p, NsRef(|h.spaces|), None);
    assert h1.NameOf(NsRef(|h.spaces|)) == name;
  }

  lemma AttachSpaces(h: Heap, h1: Heap, name: string, p: nat)
    requires h.Valid() && p < |h.spaces|
    requires (h1, |h.spaces|) == AllocFresh(h, name, Some(NsRef(p)))
    requires NsRef(|h.spaces|) !in h1.Seen(p)
    ensures var rec := NsRec(name, Some(NsRef(p)), |h.bodies|);
            Mount(h1, p, NsRef(|h.spaces|), None).state.spaces == h.spaces + [rec, rec]
  {
    var k := |h.spaces|;
    var rec := NsRec(name, Some(NsRef(p)), |h.bodies|);
    MountNamespace(h1, p, NsRef(k), None);
    assert h1.spaces[k] == rec;
    SnocTwice(h.spaces, rec);
  }

  lemma SnocTwice<T>(s: seq<T>, x: T)
    ensures s + [x] + [x] == s + [x, x]
  {
  }

  /** The record about to be allocated is in no `_seen` yet. */
  lemma NewIsUnseen(h: Heap, h1: Heap, p: nat)
    requires h.Valid() && p < |h.spaces| && |h.spaces| <= |h1.spaces| && |h.bodies| <= |h1.bodies|
    requires h1.spaces[..|h.spaces|] == h.spaces && h1.bodies[..|h.bodies|] == h.bodies
    ensures NsRef(|h.spaces|) !in h1.Seen(p) && h1.BodyOf(p) == h.BodyOf(p) && h1.spaces[p].body < |h.bodies|
  {
    assert h1.spaces[p] == h1.spaces[..|h.spaces|][p];
    assert h1.bodies[h.spaces[p].body] == h1.bodies[..|h.bodies|][h.spaces[p].body];
    assert h.ValidBody(h.bodies[h.spaces[p].body]);
  }

  /** `mount` of an unseen member is `Admit` followed by `OnMount`. */
  lemma MountUnfold(h: Heap, n: nat, m: Obj, name: Option<string>)
    requires h.Valid() && n < |h.spaces| && h.ValidObj(m) && m !in h.Seen(n)
    ensures Mount(h, n, m, name) == OnMount(Admit(h, n, m, name).0, n, Admit(h, n, m, name).1, h.Deref(m))
  {
  }

  /** `on_mount` of a namespace and the tail of `mount`. */
  lemma OnMountNamespace(h: Heap, n: nat, member: Obj, k: nat)
    requires h.Valid() && n < |h.spaces| && h.ValidObj(member) && h.Deref(member) == TNs(k)
    ensures var r := OnMount(h, n, member, TNs(k));
            && r.result.Ok?
            && r.state.spaces == h.spaces + [NsRec(h.spaces[k].name, Some(NsRef(n)), h.spaces[k].body)]
            && r.state.Members(n) == h.Members(n) + [NsRef(|h.spaces|)]
            && r.state.Seen(n) == h.Seen(n)
            && r.state.ValidObj(member) && r.state.IsNamespace(member) && r.state.NameOf(member) == h.NameOf(member)
            && r.state.Children(n) == Put(h.Children(n), h.NameOf(member), member)
  {
    var (h1, copy) := AllocNs(h, h.spaces[k].name, Some(NsRef(n)), h.spaces[k].body);
    ObjStable(h, h1, member);
    assert h1.BodyOf(n) == h.BodyOf(n);
    var h2 := Finish(h1, n, member, NsRef(copy));
    ObjStable(h1, h2, member);
  }

  /** Mounting a namespace not yet seen cannot fail. The copy `on_mount` hands
      back is a new record whose parent is `ns` and which shares the containers
      of the original; it ends `members`; the mounted object itself (the alias,
      when a name is given) enters `_seen` and is registered in `children`
      under its own name. */
  lemma MountNamespace(h: Heap, n: nat, m: Obj, name: Option<string>)
    requires h.Valid() && n < |h.spaces| && h.ValidObj(m) && m !in h.Seen(n) && h.IsNamespace(m)
    ensures var r := Mount(h, n, m, name);
            var member := if name.Some? then AliasRef(|h.aliases|) else m;
            var k := h.Deref(m).n;
            && r.result.Ok?
            && r.state.spaces == h.spaces + [NsRec(h.spaces[k].name, Some(NsRef(n)), h.spaces[k].body)]
            && r.state.Members(n) == h.Members(n) + [NsRef(|h.spaces|)]
            && r.state.Seen(n) == h.Seen(n) + {member}
            && r.state.ValidObj(member) && r.state.IsNamespace(member)
            && r.state.NameOf(member) == (if name.Some? then name.value else h.NameOf(m))
            && r.state.Children(n) == Put(h.Children(n), r.state.NameOf(member), member)
  {
    MountUnfold(h, n, m, name);
    var (h2, member) := Admit(h, n, m, name);
    OnMountNamespace(h2, n, member, h.Deref(m).n);
  }

  /** `ns.namespace(name)`: the child registered under `name` (possibly an
      alias), or else a new namespace whose parent is `ns`. */
  function Child(h: Heap, n: nat, name: string): (r: (Heap, Obj))
    requires h.Valid() && n < |h.spaces|
    ensures r.0.Valid() && Extends(h, r.0) && r.0.ValidObj(r.1) && r.0.IsNamespace(r.1)
    ensures name in Keys(h.Children(n)) ==> r == (h, Get(h.Children(n), name).value)
    ensures name !in Keys(h.Children(n)) ==> r.1 == NsRef(|h.spaces|) && Attached(h, r.0, name, n)
    ensures Get(r.0.Children(n), name) == Some(r.1)
  {
    match Get(h.Children(n), name)
    case Some(o) =>
      assert h.ValidBody(h.bodies[h.spaces[n].body]);
      var i :| 0 <= i < |h.Children(n)| && h.Children(n)[i] == (name, o);
      (h, o)
    case None =>
      var (h', k) := NewNamespace(h, name, Some(n));
      (h', NsRef(k))
  }

  /** `namespace(name)` asked twice gives the identical child, and the second
      call changes nothing; the first adds at most one entry to `members`. */
  lemma ChildTwice(h: Heap, n: nat, name: string)
    requires h.Valid() && n < |h.spaces|
    ensures var (h1, c1) := Child(h, n, name);
            && Child(h1, n, name) == (h1, c1)
            && |h1.Members(n)| <= |h.Members(n)| + 1
  {
    var (h1, c1) := Child(h, n, name);
    assert n < |h1.spaces|;
  }

  /** Mounting a plain `Object` class not yet seen: its `on_mount` hands back
      the class itself, which ends `members`; `children` is untouched. */
  lemma MountObject(h: Heap, n: nat, m: Obj, name: Option<string>)
    requires h.Valid() && n < |h.spaces| && h.ValidObj(m) && m !in h.Seen(n)
    requires h.Deref(m).TClass? && h.classes[h.Deref(m).c].shape.ObjectShape?
    ensures var r := Mount(h, n, m, name);
            var member := if name.Some? then AliasRef(|h.aliases|) else m;
            && r.result.Ok?
            && r.state.spaces == h.spaces
            && r.state.Members(n) == h.Members(n) + [ClassRef(h.Deref(m).c)]
            && r.state.Seen(n) == h.Seen(n) + {member}
            && r.state.Children(n) == h.Children(n)
  {
    MountUnfold(h, n, m, name);
    var (h2, member) := Admit(h, n, m, name);
    var c := h.Deref(m).c;
    assert OnMount(h2, n, member, TClass(c)) == Effect(Ok(()), Finish(h2, n, member, ClassRef(c)));
  }

  /* ---------- arrays ---------- */

  /** Adding objects other than `x` to `_seen` sets, without touching any
      `children`, changes no answer to `x in ...`. */
  lemma {:induction false} ContainsBodyFrame(h: Heap, h': Heap, b: nat, x: Obj, depth: nat)
    requires h.Valid() && h'.Valid() && Extends(h, h') && h'.spaces == h.spaces && |h'.bodies| == |h.bodies|
    requires forall i :: 0 <= i < |h.bodies| ==>
               h'.bodies[i].children == h.bodies[i].children && (x in h'.bodies[i].seen <==> x in h.bodies[i].seen)
    requires b < |h.bodies|
    ensures ContainsBody(h', b, x, depth) == ContainsBody(h, b, x, depth)
    decreases depth, 1, 0
  {
    if x !in h.bodies[b].seen {
      ContainsChildrenFrame(h, h', h.bodies[b].children, x, depth);
    }
  }

  lemma {:induction false} ContainsChildrenFrame(h: Heap, h': Heap, cs: Dict<Obj>, x: Obj, depth: nat)
    requires h.Valid() && h'.Valid() && Extends(h, h') && h'.spaces == h.spaces && |h'.bodies| == |h.bodies|
    requires forall i :: 0 <= i < |h.bodies| ==>
               h'.bodies[i].children == h.bodies[i].children && (x in h'.bodies[i].seen <==> x in h.bodies[i].seen)
    requires forall i :: 0 <= i < |cs| ==> h.ValidObj(cs[i].1)
    ensures forall i :: 0 <= i < |cs| ==> h'.ValidObj(cs[i].1)
    ensures ContainsChildren(h', cs, x, depth) == ContainsChildren(h, cs, x, depth)
    decreases depth, 0, |cs|
  {
    forall i | 0 <= i < |cs| ensures h'.ValidObj(cs[i].1) {
      ObjStable(h, h', cs[i].1);
    }
    if |cs| > 0 && cs[0].1.NsRef? && depth > 0 {
      ContainsBodyFrame(h, h', h.spaces[cs[0].1.n].body, x, depth - 1);
      ContainsChildrenFrame(h, h', cs[1..], x, depth);
    }
  }

  /** After `Admit` put `member` into `_seen`, the test `x in ns` for any
      other `x` answers as it did before. */
  lemma AdmitKeepsContains(h: Heap, n: nat, m: Obj, name: Option<string>, x: Obj)
    requires h.Valid() && n < |h.spaces| && h.ValidObj(m) && m !in h.Seen(n)
    requires x != Admit(h, n, m, name).1
    ensures Contains(Admit(h, n, m, name).0, n, x) == Contains(h, n, x)
  {
    var (h2, member) := Admit(h, n, m, name);
    var b := h.spaces[n].body;
    forall i | 0 <= i < |h.bodies|
      ensures h2.bodies[i].children == h.bodies[i].children && (x in h2.bodies[i].seen <==> x in h.bodies[i].seen)
    {
      if i != b {
        assert h2.bodies[i] == h.bodies[i];
      }
    }
    ContainsBodyFrame(h, h2, b, x, |h.bodies|);
  }

  /** The nested mount of `items` inside `OnMountArray`, when `items in ns` was false. */
  lemma OnMountArrayInner(h: Heap, n: nat, member: Obj, c: nat, items: nat)
    requires h.Valid() && n < |h.spaces| && h.ValidObj(member) && c < |h.classes| && items < |h.classes|
    requires Contains(h, n, ClassRef(items)) == Ok(false)
    ensures ClassRef(items) !in h.Seen(n)
    ensures var r := OnMountArray(h, n, member, c, items);
            r.result.Ok? ==>
              && ClassRef(items) in r.state.Seen(n)
              && |r.state.Members(n)| >= |h.Members(n)| + 2
              && EndsWithPair(r.state.Members(n), ClassRef(items), ClassRef(c))
  {
    var x := ClassRef(items);
    var inner := Mount(h, n, x, None);
    if inner.result.Ok? {
      var h' := FinishAfter(h, inner.state, n, member, c);
      assert OnMountArray(h, n, member, c, items) == Effect(Ok(()), h');
      PairAfter(inner.state.Members(n), x, ClassRef(c));
    } else {
      assert OnMountArray(h, n, member, c, items) == inner;
    }
  }

  lemma PairAfter(ms: seq<Obj>, a: Obj, b: Obj)
    requires EndsWith(ms, a)
    ensures EndsWithPair(ms + [b], a, b)
  {
  }

  /** `Array.on_mount`: the array's `items` class is mounted into the same
      namespace first, unless `items in ns` already holds, so it lands in
      `members` right before the array and is never mounted a second time.
      A failing `items in ns` makes the whole mount fail with that error.
      The test runs after the array itself entered `_seen`. */
  lemma MountArray(h: Heap, n: nat, m: Obj, name: Option<string>)
    requires h.Valid() && n < |h.spaces| && h.ValidObj(m) && m !in h.Seen(n)
    requires h.Deref(m).TClass? && h.classes[h.Deref(m).c].shape.ArrayShape?
    ensures var r := Mount(h, n, m, name);
            var c := h.Deref(m).c;
            var x := ClassRef(h.classes[c].shape.items);
            var member := if name.Some? then AliasRef(|h.aliases|) else m;
            var present := if x == member then Ok(true) else Contains(h, n, x);
            && (present.Err? ==> r.result == Err(present.error))
            && (present == Ok(true) ==> r.result.Ok? && r.state.Members(n) == h.Members(n) + [ClassRef(c)])
            && (present == Ok(false) && h.classes[x.c].shape.ObjectShape? ==> r.result.Ok?)
            && (Answers(h, n) ==> r.result.Ok?)
            && (present == Ok(false) ==>
                  && x !in h.Seen(n)
                  && (r.result.Ok? ==>
                        && x in r.state.Seen(n)
                        && |r.state.Members(n)| >= |h.Members(n)| + 2
                        && EndsWithPair(r.state.Members(n), x, ClassRef(c))))
  {
    MountUnfold(h, n, m, name);
    var (h2, member) := Admit(h, n, m, name);
    var c := h.Deref(m).c;
    var items := h.classes[c].shape.items;
    var x := ClassRef(items);
    assert Mount(h, n, m, name) == OnMountArray(h2, n, member, c, items);
    if x != member {
      AdmitKeepsContains(h, n, m, name, x);
    }
    if Contains(h2, n, x) == Ok(false) {
      OnMountArrayInner(h2, n, member, c, items);
    }
  }

  /** Records that share containers answer alike, in every later heap: a
      later mount into the original is visible through each of its copies. */
  lemma SharedBody(h: Heap, h': Heap, j: nat, k: nat, x: Obj)
    requires h.Valid() && h'.Valid() && Extends(h, h')
    requires j < |h.spaces| && k < |h.spaces| && h.spaces[j].body == h.spaces[k].body
    ensures h'.Members(j) == h'.Members(k) && h'.Seen(j) == h'.Seen(k) && h'.Children(j) == h'.Children(k)
    ensures Contains(h', j, x) == Contains(h', k, x)
  {
    assert h'.spaces[j] == h'.spaces[..|h.spaces|][j];
    assert h'.spaces[k] == h'.spaces[..|h.spaces|][k];
  }
}
