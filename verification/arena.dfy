/** The object world of oao/objects.py as an arena addressed by integer ids.

    Python identity becomes an `Obj` handle. Classes deriving `Object` or
    `Array` are static declarations whose reflective facts (name, docstring,
    MRO, type hints, `items`) are given. Namespaces and aliases are allocated as
    mounting proceeds. A namespace's `members`, `_seen` and `children` are three
    containers that copy-on-mount shares together, so one `Body` holds all
    three and several namespace records may point at the same body.
 */
module Arena {
  import opened Wrappers
  import opened Dicts
  import opened Langhelpers

  /** `Object` subclasses carry fields; `Array` subclasses carry `items`, a class. */
  datatype Shape = ObjectShape | ArrayShape(items: nat)

  /** A class deriving `Object` or `Array`, with what reflection reports about it. */
  datatype ClassDecl = ClassDecl(
    name: string,          // `cls.__name__`
    doc: Option<string>,   // `cls.__doc__`, which a class does not inherit
    ancestors: seq<nat>,   // `cls.mro()[1:]` restricted to classes of the table, nearest first
    hints: Dict<Type>,     // `t.get_type_hints(cls)`, in the order it reports them
    shape: Shape)

  /** An object identity. */
  datatype Obj = ClassRef(c: nat) | NsRef(n: nat) | AliasRef(a: nat)

  /** A `Namespace` instance: its name, its `ns` (parent) and its containers. */
  datatype NsRec = NsRec(name: string, parent: Option<Obj>, body: nat)

  /** What an object stands for once aliases are seen through. */
  datatype Target = TClass(c: nat) | TNs(n: nat) {
    function AsObj(): Obj {
      match this
      case TClass(c) => ClassRef(c)
      case TNs(n) => NsRef(n)
    }
  }

  /** An `_Alias`: forwards everything but its name to `target`. An alias of an
      alias forwards, attribute by attribute, to the innermost object, so the
      record keeps that object. */
  datatype AliasRec = AliasRec(target: Target, name: string)

  /** The containers copy-on-mount shares: `members`, `_seen`, `children`. */
  datatype Body = Body(members: seq<Obj>, seen: set<Obj>, children: Dict<Obj>)

  datatype Heap = Heap(classes: seq<ClassDecl>, spaces: seq<NsRec>, aliases: seq<AliasRec>, bodies: seq<Body>) {

    predicate ValidObj(o: Obj) {
      match o
      case ClassRef(c) => c < |classes|
      case NsRef(n) => n < |spaces|
      case AliasRef(a) => a < |aliases|
    }

    predicate ValidType(t: Type) {
      TypeIn(t, |classes|)
    }

    predicate ValidClass(k: ClassDecl) {
      ClassIn(k, |classes|)
    }

    predicate ValidTarget(t: Target) {
      match t
      case TClass(c) => c < |classes|
      case TNs(n) => n < |spaces|
    }

    /** Follows an alias to the object it forwards to. */
    function Deref(o: Obj): (r: Target)
      requires ValidObj(o)
      ensures !o.AliasRef? ==> r.AsObj() == o
    {
      match o
      case ClassRef(c) => TClass(c)
      case NsRef(n) => TNs(n)
      case AliasRef(a) => aliases[a].target
    }

    /** `is_namespace(o)`: whether `o` (or what it forwards to) has `mount`. */
    predicate IsNamespace(o: Obj)
      requires ValidObj(o)
    {
      Deref(o).TNs?
    }

    predicate ValidBody(b: Body) {
      && (forall i :: 0 <= i < |b.members| ==> ValidObj(b.members[i]))
      && (forall o :: o in b.seen ==> ValidObj(o))
      && (forall i :: 0 <= i < |b.children| ==> ValidObj(b.children[i].1) && IsNamespace(b.children[i].1))
      && UniqueKeys(b.children)
    }

    /** Every class index the class table mentions is in range. */
    predicate ClassesValid() {
      forall i :: 0 <= i < |classes| ==> ValidClass(classes[i])
    }

    /** Every handle points into the arena. */
    predicate Valid() {
      && ClassesValid()
      && (forall i :: 0 <= i < |spaces| ==> spaces[i].body < |bodies| &&
                                            (spaces[i].parent.Some? ==> ValidObj(spaces[i].parent.value)))
      && (forall i :: 0 <= i < |aliases| ==> ValidTarget(aliases[i].target))
      && (forall b :: 0 <= b < |bodies| ==> ValidBody(bodies[b]))
    }

    /** `o.get_name()`: an alias answers its own name. */
    function NameOf(o: Obj): string
      requires ValidObj(o)
    {
      match o
      case ClassRef(c) => classes[c].name
      case NsRef(n) => spaces[n].name
      case AliasRef(a) => aliases[a].name
    }

    /** The containers of namespace record `n` (empty ones for a dangling index). */
    function BodyOf(n: nat): Body {
      if n < |spaces| && spaces[n].body < |bodies| then bodies[spaces[n].body] else Body([], {}, [])
    }

    function Members(n: nat): seq<Obj> {
      BodyOf(n).members
    }

    function Seen(n: nat): set<Obj> {
      BodyOf(n).seen
    }

    function Children(n: nat): Dict<Obj> {
      BodyOf(n).children
    }
  }

  /** Every class index inside `t` is below `count`. */
  predicate TypeIn(t: Type, count: nat) {
    match t
    case SchemaT(c) => c < count
    case UnionT(args) => forall i :: 0 <= i < |args| ==> TypeIn(args[i], count)
    case GenericT(_, args) => forall i :: 0 <= i < |args| ==> TypeIn(args[i], count)
    case _ => true
  }

  /** Every class index a declaration mentions is below `count`. */
  predicate ClassIn(k: ClassDecl, count: nat) {
    && (forall i :: 0 <= i < |k.ancestors| ==> k.ancestors[i] < count)
    && (forall i :: 0 <= i < |k.hints| ==> TypeIn(k.hints[i].1, count))
    && (k.shape.ArrayShape? ==> k.shape.items < count)
  }

  /** Grows monotonically: nothing allocated is ever freed or changed, and the class table is fixed. */
  predicate Extends(h: Heap, h': Heap) {
    && h'.classes == h.classes
    && |h.spaces| <= |h'.spaces| && h'.spaces[..|h.spaces|] == h.spaces
    && |h.aliases| <= |h'.aliases| && h'.aliases[..|h.aliases|] == h.aliases
    && |h.bodies| <= |h'.bodies|
  }

  /** What an object is, and is called, does not change as the arena grows. */
  lemma ObjStable(h: Heap, h': Heap, o: Obj)
    requires Extends(h, h') && h.ValidObj(o)
    ensures h'.ValidObj(o) && h'.Deref(o) == h.Deref(o) && h'.NameOf(o) == h.NameOf(o)
    ensures h.ValidTarget(h.Deref(o)) ==> h'.ValidTarget(h.Deref(o))
  {
    match o
    case AliasRef(a) => assert h'.aliases[a] == h'.aliases[..|h.aliases|][a];
    case NsRef(n) => assert h'.spaces[n] == h'.spaces[..|h.spaces|][n];
    case ClassRef(_) =>
  }

  /** A body valid in `h` stays valid in every extension of `h`. */
  lemma BodyStable(h: Heap, h': Heap, b: Body)
    requires Extends(h, h') && h.ValidBody(b)
    ensures h'.ValidBody(b)
  {
    forall i | 0 <= i < |b.members| ensures h'.ValidObj(b.members[i]) {
      ObjStable(h, h', b.members[i]);
    }
    forall o | o in b.seen ensures h'.ValidObj(o) {
      ObjStable(h, h', o);
    }
    forall i | 0 <= i < |b.children| ensures h'.ValidObj(b.children[i].1) && h'.IsNamespace(b.children[i].1) {
      ObjStable(h, h', b.children[i].1);
    }
  }

  /** Replacing one body by a body valid in `h` keeps every body valid. */
  lemma BodiesStable(h: Heap, h': Heap, b: nat, body: Body)
    requires h.Valid() && Extends(h, h')
    requires h'.bodies == h.bodies || (b < |h.bodies| && h.ValidBody(body) && h'.bodies == h.bodies[b := body])
    ensures forall i :: 0 <= i < |h'.bodies| ==> h'.ValidBody(h'.bodies[i])
  {
    forall i | 0 <= i < |h'.bodies| ensures h'.ValidBody(h'.bodies[i]) {
      BodyStable(h, h', h'.bodies[i]);
    }
  }
}
