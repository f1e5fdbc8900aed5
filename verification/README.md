# oao in Dafny

A model of oao, a small Python library that builds a JSON-Schema/OpenAPI-style
document. Schema classes (subclasses of `Object` and `Array`) are mounted into
a tree of `Namespace` objects. The tree is then rendered as nested mappings in
which every nested schema is a `{"$ref": path}` cross-reference.

The model covers:

- the namespace tree: `mount` with identity-keyed deduplication, the
  copy-on-mount of namespaces, the items-first mount of arrays, lazily created
  children, and the recursive `in` test;
- the resolver: field descriptors, properties merged over the MRO, the
  `required` list, and `Object.as_dict`, `Array.as_dict` and `Namespace.as_dict`;
- the `$ref` path that is cached on a class the first time it is resolved;
- the memoised path `Lookup`;
- the helpers `is_optional`, `get_primitive_from_optional` and `reify`;
- the standalone `TypeGuesser` table of `oao/guess.py`.

Python identity becomes an arena (`Arena.Heap`) of integer handles. Classes are
static declarations whose reflective facts (name, docstring, MRO, type hints,
`items`) are given as data.

A namespace's `members`, `_seen` and `children` are always shared together by
copy-on-mount, so the three are one `Body`. Several namespace records may point
at the same body.

State is threaded explicitly through pure functions:

- the heap;
- the cached `_ref` paths (`Resolver.Refs`);
- the lookup cache (`Lookups.Cache`).

An `Effect` pairs a result with the state. A side effect made before an
exception therefore survives it, as it does in Python.

Files:

- `wrappers.dfy`: `Option`, `Result`, `Effect` and the exceptions.
- `dicts.dfy`: insertion-ordered dicts and JSON values.
- `langhelpers.dfy`: annotations, `is_optional`, `reify`.
- `guess.dfy`: `oao/guess.py`.
- `paths.dfy`: `strip`, `split`, `join`.
- `arena.dfy`: the heap.
- `namespaces.dfy`: `Namespace`.
- `resolver.dfy`: `Resolver`, `Ref` and the `as_dict` methods.
- `lookups.dfy`: `Lookup`.

## Behaviour of the code worth noting

- **An alias never reaches `members`.** `member.on_mount(self)` on an `_Alias`
  goes through `__getattr__` to the wrapped object's own `on_mount`. So
  `members` receives the class itself, or a copy of the namespace under its
  original name. The override name reaches only `_seen`, as a fresh identity,
  and, for a namespace, the `children` key. `Namespace.as_dict` therefore
  renders the original name.
- **`x in alias` raises TypeError.** The `in` operator does not look through
  `__getattr__`. So the `in` test fails once it reaches a child namespace that
  was mounted under a name.
- **The marker `required` is popped from every property descriptor** (objects.py
  lines 197-199). It is not only dropped from the optional ones.
- **`_ref` is read with `getattr` on a class**, so the lookup walks the MRO. A
  subclass whose own `_ref` is unset answers its nearest ancestor's path, and
  never gets a path of its own (`Resolver.SubclassSeesAncestorRef`).
- **`guess_type` describes `bool` as "integer"** through the subclass fallback
  of `singledispatch`. The `TypeGuesser` of `oao/guess.py` says "boolean"
  (`Resolver.GuessTables`).

## Model

| member | source | states |
|---|---|---|
| Langhelpers.OptionalExactly | oao/langhelpers.py:22-26 | a type is optional exactly when it is `Union[x, None]` or `Union[None, x]`; a wider Union with `None`, and any non-Union, is not |
| Langhelpers.PrimitiveFromOptional | oao/langhelpers.py:29-30 | the first argument that is not `NoneType` is returned, whichever position it is in; none exists only for `Union[None, None]` (the IndexError) |
| Langhelpers.OptionalRoundTrip | oao/langhelpers.py:29-30 | `Optional[x]` and `Union[None, x]` are recognised and unwrap back to `x` |
| Langhelpers.ReifyGet | oao/langhelpers.py:14-19 | access on the class yields the descriptor and stores nothing; on an instance, a stored value is returned as is, otherwise the wrapped function's result is returned and stored |
| Langhelpers.ReifyOnce | oao/langhelpers.py:14-19 | a second access returns the first result even if the wrapped function would now compute something else |
| Guess.NewGuesser | oao/guess.py:7-8 | a fresh guesser rejects every type |
| Guess.Call | oao/guess.py:10-14 | a registered type answers its fragment; any other raises TypeError |
| Guess.Register | oao/guess.py:16-17 | the key set gains `t`, `t` maps to the new value, and every other entry is unchanged |
| Guess.Setup | oao/guess.py:20-23 | setup adds exactly int, str and bool to the keys; afterwards int answers `{"type": "integer"}`, str `{"type": "string"}` and bool `{"type": "boolean"}`, and every other type is answered as before |
| Guess.RegisterThenCall | oao/guess.py:10-17 | after `register(t, v)` the guesser answers `v` for `t` and answers every other type as before |
| Guess.SetupExactly | oao/guess.py:20-27 | the seeded guesser maps int, str and bool to integer, string and boolean, and rejects everything else |
| Guess.NoSubclassFallback | oao/guess.py:10-14 | lookup is by exact key: a schema class is never answered |
| Paths.TrimLeft | oao/objects.py:33 | `lstrip` removes a prefix made only of the separator and leaves a result not starting with it |
| Paths.TrimRight | oao/objects.py:33 | `rstrip` removes a suffix made only of the separator and leaves a result not ending with it |
| Paths.Strip | oao/objects.py:33 | the result is the slice of the string that starts right after its leading run of separators (`Paths.Lead`) and is followed only by separators; it neither starts nor ends with the separator; a string already free of it at both ends is unchanged |
| Paths.StripSkipsLead | oao/objects.py:33 | a leading separator makes no difference to the result |
| Paths.Split | oao/objects.py:33 | `split` yields at least one part, and no part holds the separator |
| Paths.SplitJoin | oao/objects.py:33 | joining the parts of a split gives back the string |
| Paths.JoinSplit | oao/objects.py:33 | splitting a join of separator-free parts gives back the parts |
| Dicts.Get | oao/objects.py:303 | `children.get(name)` is found exactly when the key is present, and is an entry of the dict |
| Dicts.Put | oao/objects.py:300 | after `d[k] = v`, `k` maps to `v` and every other key is unchanged; a present key keeps its place, a new key is appended; keys stay unique |
| Dicts.Remove | oao/objects.py:198 | after `pop`, the key is absent and every other key is unchanged; keys stay unique; a dict without the key is returned as it is, and in a dict with unique keys exactly the entry of that key is cut out, the rest keeping its order |
| Dicts.WithField | oao/objects.py:104 | `d["required"] = required` sets that field and leaves the others alone |
| Namespaces.ContainsBody | oao/objects.py:272-278 | true when `x` is in the own `_seen`; otherwise an answer agrees with the reachable-subtree definition; TypeError arises only if an aliased child is met within the bound, RecursionLimit only if a namespace sits deeper than the bound |
| Namespaces.ContainsChildren | oao/objects.py:275-278 | an answer agrees with "some child's subtree holds `x`"; no TypeError when every child met within the bound is a plain namespace; no RecursionLimit when no namespace sits deeper than the bound |
| Namespaces.Contains | oao/objects.py:272-278 | true when `x` is in the own `_seen`; an answer is true iff `x` is in the `_seen` of `ns` or of a namespace reachable through `children`; failures are TypeError, only when an aliased child is met, or the depth bound, only when the nesting reaches it; with neither, there is an answer |
| Namespaces.Mount | oao/objects.py:291-300 | a member already seen changes nothing; otherwise the member (or its alias) enters `_seen` and the `on_mount` result ends `members`; only the mounting namespace's containers change; only an array mount can fail, and only with the TypeError or RecursionLimit of an `in` test; when every `in` test on the namespace has an answer (`Namespaces.Answers`), the mount succeeds |
| Namespaces.MountNew | oao/objects.py:294-300 | `mount` of an unseen member: it enters `_seen` and its `on_mount` result ends `members`; failures are those of an `in` test, and there are none when the namespace answers every `in` test |
| Namespaces.Admit | oao/objects.py:292-296 | a given name wraps the member in a fresh alias that answers that name and forwards to the same object; it is added to `_seen` while `members` and `children` are untouched |
| Namespaces.OnMount | oao/objects.py:297-300 | the `on_mount` result ends `members`: the class itself, or a new copy record of a namespace; failures are those of an `in` test, and there are none when the namespace answers every `in` test |
| Namespaces.OnMountArray | oao/objects.py:226-229 | after the items-first step the array class ends `members`; failures are those of an `in` test; when `items in ns` is False and `items` is an `Object` class, or when the namespace answers every `in` test, it succeeds |
| Namespaces.FinishAfter | oao/objects.py:297 | the array is appended after whatever the nested mount of `items` left in `members` |
| Namespaces.OnMountNamespace | oao/objects.py:283-289 | the copy is a new record named like the original, with the mounting namespace as parent and the original's containers; it ends `members`, and the mounted object is registered in `children` under its name |
| Namespaces.MountNamespace | oao/objects.py:283-300 | mounting an unseen namespace never fails; the copy ends `members`; the mounted object (its alias, when named) enters `_seen` and `children[name]` |
| Namespaces.MountObject | oao/objects.py:173-174 | mounting an unseen `Object` class appends the class itself to `members`, adds the member to `_seen` and leaves `children` alone |
| Namespaces.MountArray | oao/objects.py:226-229 | `items` is mounted first unless `items in ns` already holds, so it lands right before the array and never twice; a failing test fails the mount; when the test answers False and `items` is an `Object` class, or when the namespace answers every `in` test, the mount succeeds |
| Namespaces.AnswersKept | oao/objects.py:296 | adding a member to `_seen` leaves every `children` map alone, so a namespace that answered every `in` test still does |
| Namespaces.AdmitKeepsContains | oao/objects.py:296 | adding the member to `_seen` changes no answer of `x in ns` for any other `x` |
| Namespaces.ContainsBodyFrame | oao/objects.py:272-278 | the `in` test depends only on the `_seen` membership of `x` and on `children` |
| Namespaces.SharedBody | oao/objects.py:286-288 | records sharing containers answer alike in every later heap: a later mount into the original is seen through each copy |
| Namespaces.AllocFresh | oao/objects.py:263-268 | a new record gets fresh, empty containers |
| Namespaces.NewNamespace | oao/objects.py:263-270 | `Namespace(name)` adds a root record; `Namespace(name, ns=p)` also mounts it into `p`: its copy ends `members` of `p`, and the new record enters `_seen` of `p` and `children[name]` |
| Namespaces.AttachNew | oao/objects.py:269-270 | the mount into the parent during construction leaves the new record and its copy, and registers the new record under its name |
| Namespaces.Child | oao/objects.py:302-306 | `namespace(name)` returns the registered child when there is one and changes nothing; otherwise it creates and attaches a new child; either way `children[name]` is the answer |
| Namespaces.ChildTwice | oao/objects.py:302-306 | asking twice gives the identical child, the second call changes nothing, and at most one member is added |
| Resolver.GuessType | oao/objects.py:7-13 | int and bool give "integer", str gives "string", anything else raises TypeError |
| Resolver.GuessTables | oao/objects.py:7-13 | the objects.py table and the seeded `TypeGuesser` agree on int and str, fail together elsewhere, and differ on bool |
| Resolver.Mro | oao/objects.py:75 | the chain starts with the class itself, and every entry is a class of the table |
| Resolver.FirstRef | oao/objects.py:112 | the `_ref` found is that of the first class along the chain that has one; none is found iff no class of the chain has one |
| Resolver.ResolveType | oao/objects.py:107-122 | a schema class always renders `{"$ref": p}`, where `p` is the path cached along its MRO; on first touch, `p` is built from the history's namespace names and cached on the class; any other type renders as `guess_type` says and leaves the cache alone; under single inheritance no path already answered for any class changes |
| Resolver.FirstTouchSettles | oao/objects.py:112-121 | under single inheritance, caching a first path on a class changes no path already answered for any class |
| Resolver.ResolveTwice | oao/objects.py:112-114 | a second resolution, from any history, returns the first document and leaves the cache unchanged |
| Resolver.SubclassSeesAncestorRef | oao/objects.py:112-114 | a class without a `_ref`, whose nearest ancestor has one, renders with the ancestor's path and gains no `_ref` of its own |
| Resolver.Unwrap | oao/objects.py:96-98 | an Optional is unwrapped to a non-None argument; anything else is kept |
| Resolver.ResolveField | oao/objects.py:94-105 | the descriptor carries `required` exactly when the annotation is not Optional; a schema class gives `{"$ref": p}` with `p` the path now cached along its MRO, and no `type`; a primitive gives `{"type": guess}` and no `$ref`, or TypeError; no other key; errors are TypeError or IndexError; it succeeds exactly when the annotation is `Resolver.Supported` |
| Resolver.HintsOf | oao/objects.py:75-76 | the type hints along the MRO, concatenated, all name classes of the table |
| Resolver.CollectFrom | oao/objects.py:75-84 | the loop succeeds exactly when `resolve_field` succeeds on the annotation of every new name at its first occurrence (`Resolver.AllSupported`); the earlier properties are kept in front; the property names are the eligible names, first occurrence winning, and the marked names are those whose winning annotation is not Optional; each new property's descriptor is `{"$ref": cached path}` or `{"type": guess}` for its winning annotation |
| Resolver.CollectField | oao/objects.py:83 | succeeds exactly when the new name's annotation and every later winning annotation are `Resolver.Supported`; a new eligible name is appended with the descriptor of its annotation, the earlier properties are kept, and every later property is described by its own winning annotation |
| Resolver.CollectProperties | oao/objects.py:68-84 | succeeds exactly when every collected name has a winning annotation on which `resolve_field` succeeds: after unwrapping an Optional to a non-None argument, a schema class or a type `guess_type` names; `resolve_object_properties` returns exactly the reference names over the MRO, in order, marks exactly the reference required names, and gives each name the descriptor of its first annotation along the MRO |
| Resolver.AllSupportedExactly | oao/objects.py:75-84 | the walk that checks each name at its first occurrence agrees with "every collected name's winning annotation is supported" |
| Resolver.NewNamesFresh | oao/objects.py:77-82 | a name already taken, private or on the base `Object` never appears among the properties |
| Resolver.RequiredAreNew | oao/objects.py:195-201 | every required name is a property name |
| Resolver.RequiredIffNotOptional | oao/objects.py:94-98 | a property is required iff the annotation that wins for it, its first along the MRO, is not Optional |
| Resolver.NewNamesExactly | oao/objects.py:75-82 | a name is a new property iff it is a hint name, not private, not on the base `Object`, and not already taken |
| Resolver.NewNamesDistinct | oao/objects.py:75-82 | no property name is listed twice |
| Resolver.Pop | oao/objects.py:198 | popping removes the marker and keeps every other field |
| Resolver.StripRequired | oao/objects.py:196-199 | keys are kept in order, no descriptor keeps `required`, other fields are unchanged, and the required list is the marked names in property order |
| Resolver.Header | oao/objects.py:186-191 | `type` is set, and `description` is present exactly when the docstring is truthy |
| Resolver.WithProperties | oao/objects.py:194-201 | `properties` is present iff there are properties, and is then the descriptors with their markers popped; `required` is present iff some name is marked; other fields are kept |
| Resolver.ObjectDoc | oao/objects.py:186-202 | the document of an object class has `type: object`, the description rule, and `properties` as the unmarked descriptors and the required rule |
| Resolver.ObjectAsDict | oao/objects.py:177-202 | `Object.as_dict` succeeds exactly when every collected name's winning annotation is supported by `resolve_field`; it lists exactly the collected property names, none with a marker, each described by its winning annotation (`{"$ref": cached path}` or `{"type": guess}`); it lists the non-Optional names as `required`; it omits empty `properties`, empty `required` and a falsy `description`, and has no other key; errors are TypeError or IndexError |
| Resolver.ArrayAsDict | oao/objects.py:232-249 | `Array.as_dict` never fails, has `type: array` and the description rule, `items` is the `$ref` that `items` resolves to, and there is no other key |
| Resolver.Names | oao/objects.py:322 | `resolve_name` of each member, in order |
| Resolver.MembersValid | oao/objects.py:322 | every member of a namespace is an object of the arena |
| Resolver.Inserted | oao/objects.py:322 | assigning names in turn leaves the old keys and the names as keys, and keeps distinct keys distinct |
| Resolver.InsertedDistinct | oao/objects.py:322 | distinct names, none present yet, are appended in order |
| Resolver.RenderDistinct | oao/objects.py:322 | with distinct member names, the rendering lists the earlier keys and then the member names, in member order |
| Resolver.MemberRenderedSettles | oao/objects.py:107-114 | a rendering stays right while the paths already answered stay the same |
| Resolver.NsAsDict | oao/objects.py:314-325 | the keys are the member names in order of first occurrence, each once; each value is the inline rendering of the last member of that name (a class its own schema, never a `$ref`; a namespace its mapping); a namespace with a parent returns the mapping, a root wraps it as `{name: mapping}`; the rendering succeeds exactly when every namespace reached lies within the fuel (`Resolver.NsFits`) and every object class reached has only supported annotations (`Resolver.NsSupported`); within the fuel no error is RecursionLimit, and with supported classes every error is RecursionLimit |
| Resolver.RenderMembers | oao/objects.py:322 | succeeds exactly when every member fits the fuel and has supported classes, with RecursionLimit only from a namespace past the fuel and other errors only from an object class with an unsupported annotation; a name already present keeps its place and a new one is appended, so the keys stay unique; keys of no member keep their values; each member name holds the rendering of the last member carrying it |
| Resolver.MemberAsDict | oao/objects.py:322 | succeeds exactly when the member fits the fuel (`Resolver.MemberFits`: a namespace needs a level of fuel, and its members one fewer) and has supported classes (`Resolver.MemberSupported`); a namespace met at fuel 0 is RecursionLimit, and an object class fails only when `Object.as_dict` does; a class member renders inline, never as a `$ref`: an object class as its `Object.as_dict` document with described properties, an array class as `type: array` with its items `$ref`, never failing; a namespace member renders its mapping |
| Lookups.ParsePath | oao/objects.py:33 | the parsed path is never empty, and no segment holds `/` |
| Lookups.SlashesIgnored | oao/objects.py:33 | `a/b`, `/a/b` and `a/b/` parse to the same path |
| Lookups.QueryRoundTrip | oao/objects.py:33 | non-empty segments free of `/`, joined with or without a leading `/`, parse back to themselves |
| Lookups.RefPathParses | oao/objects.py:151-154 | a `$ref` path without its `#` parses back to the namespace names and the class name it was built from |
| Lookups.Walk | oao/objects.py:39-40 | an empty path stays at the start; a KeyError names a segment of the path, at once when the first segment is not a child |
| Lookups.Step | oao/objects.py:40 | `ns.children[k]` is a KeyError exactly when `k` is not a child; otherwise it is that child's namespace, through an alias |
| Lookups.WalkSnoc | oao/objects.py:39-40 | the walk is the loop: one more segment is one more step from where the walk got to |
| Lookups.WalkFails | oao/objects.py:39-40 | the walk fails iff some segment is not a child of the namespace reached before it, and then with that segment's KeyError |
| Lookups.FindMember | oao/objects.py:42-45 | the first member with the name is found; nothing is found iff no member has it |
| Lookups.Search | oao/objects.py:42-46 | the answer is the first member of the namespace reached with the last name; a found member is cached under the path; a miss leaves the cache alone |
| Lookups.Lookup | oao/objects.py:31-46 | a cached path answers at once; otherwise the answer is the walk's KeyError, or the first member with the last segment's name in the namespace the walk reached; a KeyError or a miss leaves the cache alone; a found member is cached under the path |
| Lookups.CacheIgnoresRoot | oao/objects.py:35-37 | once a query found a member, the same query from any namespace returns it again without changing the cache |

## Left out

- The `force` argument of `mount` is never read by the code, so it is not a parameter.
- Reflection is given as data and not computed: `get_type_hints`, `cls.mro()`, `__doc__`, `cls.items`, and the ignore set `set(Object.__dict__.keys())`.
- Resolver.HintsOf: the hints of each MRO entry are taken as given per entry. Real `get_type_hints(target)` already folds in that target's own bases, so the real order is base-first within each entry.
- The `singledispatch` machinery and the `v()` instantiation become the fixed table `Resolver.GuessType`.
- Union-of-schemas fields (oneOf): the code has no support for them, and `resolve_type` would try to instantiate the Union.
- The `DEFAULT_RESOLVER` global, `get_resolver` and `XRefStrategy`: the resolver's only state, the `_ref` paths, is passed explicitly. `resolve_name` and `resolve_description` are inlined.
- The context-manager no-ops, the `Protocol`/`Generic`/`cast` scaffolding, and the duck-typed `is_namespace`/`is_schema`: a closed datatype of object kinds replaces them.
- JSON printing and packaging (the example scripts, `setup.py`).
- A `Ref` object is represented by the path it computes: it computes the path once, from names that never change.
- An array whose `items` is a primitive type is not modelled: `items` is a class index. In Python the first mount of such an array puts the array and the primitive into `_seen` and then raises AttributeError (`int` has no `on_mount`, objects.py lines 294-297 and 227-228). A later array with the same primitive therefore passes `items in ns`, is appended, and renders `"items": "integer"` through `resolve_type` (lines 108-110).
- Cyclic namespace nesting, where Python recurses until RecursionError. `Namespaces.Contains` takes the number of bodies as its depth bound, and `Resolver.NsAsDict` takes a fuel. Exhausting either gives RecursionLimit.
- Namespaces.Contains: it promises an answer only when no alias is met and no namespace sits deeper than the number of bodies; that an acyclic tree always stays within that bound is not proved.
- Resolver.CollectFrom: the descriptor of each property is stated against the final `_ref` paths only under single inheritance (`Resolver.LinearMro`). Under multiple inheritance a later first touch of an intermediate class can change the path a class answers, so a descriptor built earlier may name the old path.
- Resolver.CollectField: the same single-inheritance condition as `Resolver.CollectFrom`, for the same reason.
- Resolver.CollectProperties: the same single-inheritance condition as `Resolver.CollectFrom`, for the same reason.
- Resolver.ObjectAsDict: the property descriptors are stated under the same single-inheritance condition as `Resolver.CollectFrom`.
- Resolver.NsAsDict: the values of the rendering are stated under the same single-inheritance condition; its keys, their order and the root wrapping are stated unconditionally.
- Resolver.RenderMembers: the values are stated under the same single-inheritance condition; the keys are stated unconditionally.
- Resolver.MemberAsDict: the full rendering is stated under the same single-inheritance condition; that a class renders inline, and an object class as its `Object.as_dict` shape, are stated unconditionally.
- Resolver.ObjectAsDict: does not state the order of the top-level keys (`type`, `description`, `properties`, `required`).
- Namespaces.Mount: success is promised when the namespace answers every `in` test (`Namespaces.Answers`). The exact condition depends on which tests the `_seen` check skips, and it is not stated. The same holds for `Namespaces.MountNew`, `Namespaces.OnMount`, `Namespaces.OnMountArray` and `Namespaces.MountArray`.
- Lookups.Lookup: on a cache hit, the answer is whatever the cache holds; the name and membership facts are stated only for a fresh find (`Lookups.Search`).
