/** `Lookup.lookup` of oao/objects.py: a `/`-separated query walks the
    children of a namespace and picks the first member with the last name.
    Hits are cached by path alone, whatever namespace the query starts from.
 */
module Lookups {
  import opened Wrappers
  import opened Dicts
  import opened Paths
  import opened Arena
  import Resolver

  /** `Lookup._cache`: parsed query paths to the members found for them. */
  type Cache = map<seq<string>, Obj>

  /** Every cached member is an object of the arena. */
  predicate CacheValid(h: Heap, cache: Cache) {
    forall p :: p in cache ==> h.ValidObj(cache[p])
  }

  /** `tuple(query.strip("/").split("/"))`: never empty, and no segment holds a `/`. */
  function ParsePath(query: string): (path: seq<string>)
    ensures |path| >= 1
    ensures forall i :: 0 <= i < |path| ==> '/' !in path[i]
  {
    Split(Strip(query, '/'), '/')
  }

  /** A child entry is a namespace of the arena. */
  lemma ChildValid(h: Heap, n: nat, k: string)
    requires h.Valid() && n < |h.spaces| && Get(h.Children(n), k).Some?
    ensures h.ValidObj(Get(h.Children(n), k).value) && h.IsNamespace(Get(h.Children(n), k).value)
  {
    var cs := h.Children(n);
    var o := Get(cs, k).value;
    assert h.ValidBody(h.bodies[h.spaces[n].body]);
    var i :| 0 <= i < |cs| && cs[i] == (k, o);
    assert cs[i].1 == o;
  }

  /** `ns.children[k]` from record `n`: KeyError when `k` is not a child;
      otherwise the record of the child, an alias being dereferenced. */
  function Step(h: Heap, n: nat, k: string): (r: Result<nat>)
    requires h.Valid() && n < |h.spaces|
    ensures r.Err? <==> k !in Keys(h.Children(n))
    ensures r.Err? ==> r.error == KeyError(k)
    ensures r.Ok? ==> && r.value < |h.spaces| && Get(h.Children(n), k).Some?
                      && h.IsNamespace(Get(h.Children(n), k).value)
                      && r.value == h.Deref(Get(h.Children(n), k).value).n
  {
    if Get(h.Children(n), k).None? then Err(KeyError(k))
    else
      ChildValid(h, n, k);
      Ok(h.Deref(Get(h.Children(n), k).value).n)
  }

  /** `for k in path: ns = ns.children[k]`: KeyError at the first missing
      name. An aliased child forwards `children` to the namespace it wraps. */
  function Walk(h: Heap, n: nat, path: seq<string>): (r: Result<nat>)
    requires h.Valid() && n < |h.spaces|
    ensures r.Ok? ==> r.value < |h.spaces|
    ensures r.Err? ==> r.error.KeyError? && r.error.key in path
    ensures |path| == 0 ==> r == Ok(n)
    ensures |path| > 0 && path[0] !in Keys(h.Children(n)) ==> r == Err(KeyError(path[0]))
    decreases |path|
  {
    if |path| == 0 then Ok(n)
    else
      var s := Step(h, n, path[0]);
      if s.Err? then Err(s.error)
      else
        var r := Walk(h, s.value, path[1..]);
        assert r.Err? ==> r.error.key in path[1..];
        r
  }

  /** The walk is the loop it models: one more segment is one more step
      from wherever the walk so far has got to. */
  lemma {:induction false} WalkSnoc(h: Heap, n: nat, path: seq<string>, k: string)
    requires h.Valid() && n < |h.spaces|
    ensures var w := Walk(h, n, path);
            Walk(h, n, path + [k]) == if w.Err? then w else Step(h, w.value, k)
    decreases |path|
  {
    if |path| > 0 {
      assert (path + [k])[0] == path[0] && (path + [k])[1..] == path[1..] + [k];
      var s := Step(h, n, path[0]);
      if s.Ok? {
        WalkSnoc(h, s.value, path[1..], k);
      }
    }
  }

  /** Segment `i` of `path` is the first the walk cannot take: the walk
      got as far as it, and it is not a child of the namespace reached. */
  predicate Missing(h: Heap, n: nat, path: seq<string>, i: nat)
    requires h.Valid() && n < |h.spaces| && i < |path|
  {
    Walk(h, n, path[..i]).Ok? && Step(h, Walk(h, n, path[..i]).value, path[i]).Err?
  }

  /** The walk fails exactly when some segment is missing along it, and it
      fails with that segment's KeyError. */
  lemma {:induction false} WalkFails(h: Heap, n: nat, path: seq<string>)
    requires h.Valid() && n < |h.spaces|
    ensures Walk(h, n, path).Err? <==> exists i :: 0 <= i < |path| && Missing(h, n, path, i)
    ensures Walk(h, n, path).Err? ==>
              exists i :: 0 <= i < |path| && Missing(h, n, path, i) && Walk(h, n, path).error == KeyError(path[i])
    decreases |path|
  {
    if |path| > 0 {
      var p, k := path[..|path| - 1], path[|path| - 1];
      assert path == p + [k];
      WalkSnoc(h, n, p, k);
      WalkFails(h, n, p);
      forall i | 0 <= i < |p| ensures path[..i] == p[..i] && path[i] == p[i] {}
      assert Missing(h, n, path, |p|) <==> Missing(h, n, p + [k], |p|);
      assert (p + [k])[..|p|] == p;
      forall i | 0 <= i < |p| ensures Missing(h, n, path, i) <==> Missing(h, n, p, i) {}
      if Walk(h, n, p).Err? {
        var i :| 0 <= i < |p| && Missing(h, n, p, i) && Walk(h, n, p).error == KeyError(p[i]);
        assert Missing(h, n, path, i);
      } else if Walk(h, n, path).Err? {
        assert Missing(h, n, path, |p|);
      }
    }
  }

  /** `ns.members` of record `n`, every one an object of the arena. */
  function MembersOf(h: Heap, n: nat): (ms: seq<Obj>)
    requires h.Valid() && n < |h.spaces|
    ensures ms == h.Members(n)
    ensures forall i :: 0 <= i < |ms| ==> h.ValidObj(ms[i])
  {
    Resolver.MembersValid(h, n);
    h.Members(n)
  }

  /** The first of `ms` whose `get_name()` is `name`. */
  function FindMember(h: Heap, ms: seq<Obj>, name: string): (r: Option<Obj>)
    requires forall i :: 0 <= i < |ms| ==> h.ValidObj(ms[i])
    ensures r.None? <==> forall i :: 0 <= i < |ms| ==> h.NameOf(ms[i]) != name
    ensures r.Some? ==> exists i :: 0 <= i < |ms| && ms[i] == r.value && h.NameOf(ms[i]) == name &&
                                   forall j :: 0 <= j < i ==> h.NameOf(ms[j]) != name
  {
    if |ms| == 0 then None
    else if h.NameOf(ms[0]) == name then Some(ms[0])
    else
      var r := FindMember(h, ms[1..], name);
      assert forall i :: 1 <= i < |ms| ==> ms[1..][i - 1] == ms[i];
      r
  }

  /** What a lookup of `path` from record `root` answers when the cache has
      nothing for it: the walk's KeyError, or the first member of the
      namespace reached that carries the last name. */
  function Answer(h: Heap, root: nat, path: seq<string>): (r: Result<Option<Obj>>)
    requires h.Valid() && root < |h.spaces| && |path| >= 1
    ensures Walk(h, root, path[..|path| - 1]).Err? ==> r == Err(Walk(h, root, path[..|path| - 1]).error)
    ensures Walk(h, root, path[..|path| - 1]).Ok? ==>
              r == Ok(FindMember(h, MembersOf(h, Walk(h, root, path[..|path| - 1]).value), path[|path| - 1]))
  {
    var w := Walk(h, root, path[..|path| - 1]);
    if w.Err? then Err(w.error) else Ok(FindMember(h, MembersOf(h, w.value), path[|path| - 1]))
  }

  /** `lookup.lookup(ns, query)` from namespace record `root`. A cached path
      answers at once; otherwise the walk and the search run, and only a
      member actually found is cached. */
  function Lookup(h: Heap, cache: Cache, root: nat, query: string): (r: Effect<Option<Obj>, Cache>)
    requires h.Valid() && CacheValid(h, cache) && root < |h.spaces|
    ensures CacheValid(h, r.state)
    ensures ParsePath(query) in cache ==> r == Effect(Ok(Some(cache[ParsePath(query)])), cache)
    ensures r.result.Err? ==> r.result.error.KeyError? && r.state == cache
    ensures r.result.Ok? && r.result.value.None? ==> r.state == cache
    ensures r.result.Ok? && r.result.value.Some? ==>
              r.state == cache[ParsePath(query) := r.result.value.value]
    ensures ParsePath(query) !in cache && r.result.Ok? && r.result.value.Some? ==>
              h.ValidObj(r.result.value.value) && h.NameOf(r.result.value.value) == ParsePath(query)[|ParsePath(query)| - 1]
    ensures ParsePath(query) !in cache ==> r.result == Answer(h, root, ParsePath(query))
  {
    var path := ParsePath(query);
    if path in cache then Effect(Ok(Some(cache[path])), cache)
    else
      var w := Walk(h, root, path[..|path| - 1]);
      if w.Err? then Effect(Err(w.error), cache)
      else Search(h, cache, w.value, path)
  }

  /** The search of `ns.members` once the walk has reached record `n`. */
  function Search(h: Heap, cache: Cache, n: nat, path: seq<string>): (r: Effect<Option<Obj>, Cache>)
    requires h.Valid() && CacheValid(h, cache) && n < |h.spaces| && |path| >= 1
    ensures CacheValid(h, r.state) && r.result.Ok?
    ensures r.result.value.None? ==> r.state == cache
    ensures r.result.value.Some? ==>
              && r.state == cache[path := r.result.value.value]
              && h.ValidObj(r.result.value.value) && h.NameOf(r.result.value.value) == path[|path| - 1]
              && r.result.value.value in h.Members(n)
    ensures r.result.value == FindMember(h, MembersOf(h, n), path[|path| - 1])
  {
    var ms := MembersOf(h, n);
    var found := FindMember(h, ms, path[|path| - 1]);
    if found.None? then Effect(Ok(None), cache)
    else Effect(Ok(found), cache[path := found.value])
  }

  /** The lookup answered a member. */
  predicate Found(r: Effect<Option<Obj>, Cache>) {
    r.result.Ok? && r.result.value.Some?
  }

  /** A member found once is answered again for the same query from any
      namespace at all, and the cache no longer changes: the cache key
      leaves out where the walk started. */
  lemma CacheIgnoresRoot(h: Heap, cache: Cache, root: nat, other: nat, query: string)
    requires h.Valid() && CacheValid(h, cache) && root < |h.spaces| && other < |h.spaces|
    requires Found(Lookup(h, cache, root, query))
    ensures var first := Lookup(h, cache, root, query);
            Lookup(h, first.state, other, query) == Effect(first.result, first.state)
  {
    var first := Lookup(h, cache, root, query);
    var path := ParsePath(query);
    assert path in first.state && first.state[path] == first.result.value.value;
  }

  /** The query spellings `a/b`, `/a/b` and `a/b/` name the same path. */
  lemma SlashesIgnored(query: string)
    requires |query| > 0 && query[0] != '/' && query[|query| - 1] != '/'
    ensures ParsePath("/" + query) == ParsePath(query)
    ensures ParsePath(query + "/") == ParsePath(query)
  {
    assert ("/" + query)[1..] == query;
    assert Strip(query, '/') == query;
    var q := query + "/";
    assert q[..|q| - 1] == query;
    assert TrimLeft(q, '/') == q;
    assert TrimRight(q, '/') == TrimRight(query, '/');
  }

  /** The first and last characters of a join of non-empty segments. */
  lemma {:induction false} JoinEnds(segs: seq<string>, sep: char)
    requires |segs| >= 1 && forall i :: 0 <= i < |segs| ==> segs[i] != []
    ensures |Join(segs, sep)| > 0
    ensures Join(segs, sep)[0] == segs[0][0]
    ensures Join(segs, sep)[|Join(segs, sep)| - 1] == segs[|segs| - 1][|segs[|segs| - 1]| - 1]
  {
    if |segs| > 1 {
      JoinEnds(segs[1..], sep);
      var rest := Join(segs[1..], sep);
      assert Join(segs, sep) == segs[0] + [sep] + rest;
      assert segs[1..][|segs[1..]| - 1] == segs[|segs| - 1];
    }
  }

  /** Segments free of `/` and not empty come back from their joined query,
      with or without a leading `/`. */
  lemma {:induction false} QueryRoundTrip(segs: seq<string>)
    requires |segs| >= 1
    requires forall i :: 0 <= i < |segs| ==> segs[i] != [] && '/' !in segs[i]
    ensures ParsePath(Join(segs, '/')) == segs
    ensures ParsePath("/" + Join(segs, '/')) == segs
  {
    var q := Join(segs, '/');
    JoinEnds(segs, '/');
    assert segs[0][0] in segs[0];
    var last := segs[|segs| - 1];
    assert last[|last| - 1] in last;
    assert Strip(q, '/') == q;
    JoinSplit(segs, '/');
    SlashesIgnored(q);
  }

  /** The `$ref` path of a class, less its leading `#`, is a query that
      parses back to the names it was built from. */
  lemma RefPathParses(h: Heap, history: seq<Obj>, c: nat)
    requires h.ClassesValid() && Resolver.ValidHistory(h, history) && c < |h.classes|
    requires forall i :: 0 <= i < |Resolver.NsNames(h, history)| ==>
               Resolver.NsNames(h, history)[i] != [] && '/' !in Resolver.NsNames(h, history)[i]
    requires h.classes[c].name != [] && '/' !in h.classes[c].name
    ensures ParsePath(Resolver.FullPath(h, history, c)[1..]) == Resolver.NsNames(h, history) + [h.classes[c].name]
  {
    var segs := Resolver.NsNames(h, history) + [h.classes[c].name];
    SegmentsSnoc(Resolver.NsNames(h, history), h.classes[c].name);
    QueryRoundTrip(segs);
    DropHash(Join(segs, '/'));
  }

  lemma DropHash(s: string)
    ensures ("#/" + s)[1..] == "/" + s
  {
  }

  lemma SegmentsSnoc(names: seq<string>, name: string)
    requires forall i :: 0 <= i < |names| ==> names[i] != [] && '/' !in names[i]
    requires name != [] && '/' !in name
    ensures forall i :: 0 <= i < |names + [name]| ==> (names + [name])[i] != [] && '/' !in (names + [name])[i]
  {
  }
}
