/** Insertion at a mapping target as the program performs it: in place, into shared mutable containers
    (domain/carrier_definition.py, engine/render.py). A rendered leaf is a reference, often to a
    collection that belongs to the facts; this shows no such collection is ever written to. */
module Containers {
  import opened Prelude
  import opened Targets
  import opened Values

  class Dict {
    var entries: map<string, Ref>

    constructor ()
      ensures entries == map[]
    {
      entries := map[];
    }
  }

  class Items {
    var items: seq<Ref>

    constructor ()
      ensures items == []
    {
      items := [];
    }
  }

  datatype Ref = Scalar(text: string) | DictRef(d: Dict) | ListRef(l: Items)

  /** The containers the renderer built itself, down to what it placed at the leaves. A leaf's reference
      may well be to a container, and is a leaf all the same. */
  datatype Shape = Leaf(ref: Ref) | Node(ref: Ref, kids: map<Seg, Shape>)

  function Cell(ref: Ref): set<object> {
    match ref
    case Scalar(_) => {}
    case DictRef(d) => {d}
    case ListRef(l) => {l}
  }

  /** The built containers, not the leaves'. */
  ghost function Built(t: Shape): set<object> {
    match t
    case Leaf(_) => {}
    case Node(ref, kids) => Cell(ref) + set s, o | s in kids && o in Built(kids[s]) :: o
  }

  /** One container holds exactly these references. */
  ghost predicate Local(ref: Ref, kids: map<Seg, Shape>)
    reads Cell(ref)
  {
    match ref
    case Scalar(_) => false
    case DictRef(d) =>
      && (forall s :: s in kids <==> s.Key? && s.k in d.entries)
      && (forall s :: s in kids ==> d.entries[s.k] == kids[s].ref)
    case ListRef(l) =>
      && (forall s :: s in kids <==> s.At? && s.n < |l.items|)
      && (forall s :: s in kids ==> l.items[s.n] == kids[s].ref)
  }

  /** The heap holds what the shape says. */
  ghost predicate Holds(t: Shape)
    reads Built(t)
  {
    t.Node? ==> Local(t.ref, t.kids) && forall s :: s in t.kids ==> Holds(t.kids[s])
  }

  ghost function BuiltBelow(kids: map<Seg, Shape>): set<object> {
    set s, o | s in kids && o in Built(kids[s]) :: o
  }

  ghost predicate HoldBelow(kids: map<Seg, Shape>)
    reads BuiltBelow(kids)
  {
    forall s :: s in kids ==> Holds(kids[s])
  }

  /** No built container is reached twice. */
  ghost predicate TreeLike(t: Shape) {
    t.Node? ==>
      && (forall s :: s in t.kids ==> Cell(t.ref) !! Built(t.kids[s]) && TreeLike(t.kids[s]))
      && (forall s, s' :: s in t.kids && s' in t.kids && s != s' ==> Built(t.kids[s]) !! Built(t.kids[s']))
  }

  /** `v` is what the dry run has in the shape's place: the same containers, a null at every leaf. */
  ghost predicate Probes(v: Value, t: Shape) {
    match t
    case Leaf(_) => v == Null
    case Node(ref, kids) =>
      && (match ref case Scalar(_) => false case DictRef(_) => v.Obj? case ListRef(_) => v.List?)
      && (forall s :: s in kids <==> ChildAt(v, s).Some?)
      && (forall s :: s in kids ==> Probes(ChildAt(v, s).value, kids[s]))
  }

  ghost predicate ScalarLeaves(t: Shape) {
    match t
    case Leaf(ref) => ref.Scalar?
    case Node(_, kids) => forall s :: s in kids ==> ScalarLeaves(kids[s])
  }

  function LeafAt(t: Shape, path: Path): Option<Ref>
    decreases |path|
  {
    match t
    case Leaf(ref) => if path == [] then Some(ref) else None
    case Node(_, kids) => if path != [] && path[0] in kids then LeafAt(kids[path[0]], path[1..]) else None
  }

  /** `after` is `before` with `value` placed at `path`, and every other leaf where it was. */
  ghost predicate Placed(before: Shape, path: Path, value: Ref, after: Shape) {
    && LeafAt(after, path) == Some(value)
    && forall q :: q != path && LeafAt(before, q).Some? ==> LeafAt(after, q) == LeafAt(before, q)
  }

  // ---------------------------------------------------------------------------------------------
  // Replacing one child of a shape.
  // ---------------------------------------------------------------------------------------------

  ghost predicate Empty(t: Shape, s: Seg) {
    t.Node? && t.kids == map[] && (if s.At? then t.ref.ListRef? else t.ref.DictRef?)
  }

  lemma KidFacts(t: Shape, s: Seg)
    requires t.Node? && TreeLike(t) && s in t.kids
    ensures Built(t.kids[s]) <= Built(t) && Cell(t.ref) !! Built(t.kids[s]) && TreeLike(t.kids[s])
    ensures forall s' :: s' in t.kids && s' != s ==> Built(t.kids[s']) !! Built(t.kids[s])
  {
  }

  lemma HoldsParts(t: Shape)
    requires t.Node?
    ensures Built(t) == Cell(t.ref) + BuiltBelow(t.kids)
    ensures Holds(t) <==> Local(t.ref, t.kids) && HoldBelow(t.kids)
    ensures TreeLike(t) ==> Cell(t.ref) !! BuiltBelow(t.kids)
  {
  }

  lemma HoldsWith(ref: Ref, kids: map<Seg, Shape>, s: Seg, kid: Shape)
    requires Local(ref, kids[s := kid]) && HoldBelow(kids) && Holds(kid)
    ensures Holds(Node(ref, kids[s := kid]))
  {
  }

  lemma KidTreeLike(t: Shape, s: Seg, kid: Shape)
    requires t.Node? && TreeLike(t) && TreeLike(kid) && Cell(t.ref) !! Built(kid)
    requires forall s' :: s' in t.kids && s' != s ==> Built(t.kids[s']) !! Built(kid)
    ensures TreeLike(t.(kids := t.kids[s := kid]))
    ensures Built(t.(kids := t.kids[s := kid])) <= Built(t) + Built(kid)
  {
  }

  lemma KidPlaced(t: Shape, s: Seg, kid: Shape, rest: Path, value: Ref, kid': Shape)
    requires t.Node? && Placed(kid, rest, value, kid')
    requires if s in t.kids then kid == t.kids[s] else true
    ensures Placed(t, [s] + rest, value, t.(kids := t.kids[s := kid']))
  {
    var (path, after) := ([s] + rest, t.(kids := t.kids[s := kid']));
    assert path[1..] == rest;
    forall q: Path | q != path && LeafAt(t, q).Some? ensures LeafAt(after, q) == LeafAt(t, q) {
      assert q[0] == s ==> q == [s] + q[1..];
    }
  }

  lemma KidProbes(v: Value, t: Shape, s: Seg, kid: Shape, v': Value, kid': Shape)
    requires t.Node? && Probes(v, t) && Probes(v', kid')
    requires match v
             case Obj(_) => s.Key?
             case List(items) => s.At? && s.n <= |items|
             case _ => false
    ensures match v
            case Obj(fields) => Probes(Obj(fields[s.k := v']), t.(kids := t.kids[s := kid']))
            case List(items) =>
              Probes(List(if s.n < |items| then items[s.n := v'] else items + [v']), t.(kids := t.kids[s := kid']))
            case _ => true
  {
  }

  // ---------------------------------------------------------------------------------------------
  // The insertion.
  // ---------------------------------------------------------------------------------------------

  function ChildRef(ref: Ref, s: Seg): Option<Ref>
    reads Cell(ref)
  {
    match ref
    case Scalar(_) => None
    case DictRef(d) => if s.Key? && s.k in d.entries then Some(d.entries[s.k]) else None
    case ListRef(l) => if s.At? && s.n < |l.items| then Some(l.items[s.n]) else None
  }

  /** A segment that can step into, or extend, a container. */
  predicate Reaches(ref: Ref, s: Seg)
    reads Cell(ref)
  {
    match ref
    case Scalar(_) => false
    case DictRef(_) => s.Key?
    case ListRef(l) => s.At? && s.n <= |l.items|
  }

  /** Puts a new child into a container: a dict entry, or one more list item. */
  method Put(ref: Ref, s: Seg, child: Ref, ghost kids: map<Seg, Shape>, ghost kid: Shape)
    requires Local(ref, kids) && Reaches(ref, s) && s !in kids && kid.ref == child
    modifies Cell(ref)
    ensures Local(ref, kids[s := kid])
  {
    match ref {
      case DictRef(d) => d.entries := d.entries[s.k := child];
      case ListRef(l) => l.items := l.items + [child];
    }
  }

  /** The same, seen from the whole subtree. */
  method Attach(ref: Ref, s: Seg, child: Ref, ghost kids: map<Seg, Shape>, ghost kid: Shape, ghost own: set<object>)
    requires BuiltBelow(kids) + Built(kid) <= own
    requires Local(ref, kids) && HoldBelow(kids) && Cell(ref) !! BuiltBelow(kids)
    requires Reaches(ref, s) && s !in kids
    requires kid.ref == child && Holds(kid) && Cell(ref) !! Built(kid)
    modifies Cell(ref)
    ensures Holds(Node(ref, kids[s := kid]))
  {
    Put(ref, s, child, kids, kid);
    HoldsWith(ref, kids, s, kid);
  }

  method NewContainer(s: Seg) returns (t: Shape)
    ensures fresh(Built(t)) && Holds(t) && TreeLike(t) && Empty(t, s)
    ensures Probes(EmptyFor(s), t)
  {
    if s.At? {
      var l := new Items();
      t := Node(ListRef(l), map[]);
    } else {
      var d := new Dict();
      t := Node(DictRef(d), map[]);
    }
  }

  /** The child a segment leads to, created empty when it is new. */
  method ChildOrNew(ref: Ref, s: Seg, next: Seg, ghost t: Shape, ghost own: set<object>)
    returns (child: Ref, ghost kid: Shape, ghost added: set<object>)
    requires t.Node? && t.ref == ref && Holds(t) && TreeLike(t) && Built(t) <= own
    requires Reaches(ref, s)
    modifies Cell(ref)
    ensures child == kid.ref
    ensures if s in t.kids then kid == t.kids[s] else Empty(kid, next)
    ensures fresh(added) && Built(kid) <= Built(t) + added
    ensures Holds(t.(kids := t.kids[s := kid])) && TreeLike(t.(kids := t.kids[s := kid]))
    ensures Built(t.(kids := t.kids[s := kid])) <= Built(t) + added
  {
    var existing := ChildRef(ref, s);
    if existing.None? {
      var made := NewContainer(next);
      child, kid, added := made.ref, made, Built(made);
      HoldsParts(t);
      KidTreeLike(t, s, kid);
      Attach(ref, s, child, t.kids, kid, own + Built(kid));
    } else {
      child, kid, added := existing.value, t.kids[s], {};
      KidFacts(t, s);
      assert t.kids[s := kid] == t.kids;
    }
  }

  /** An insertion below one child, seen from the parent. */
  method Descend(ref: Ref, s: Seg, rest: Path, value: Ref, ghost v: Value, ghost t: Shape, ghost own: set<object>)
    returns (ok: bool, ghost kid: Shape, ghost added: set<object>)
    requires |rest| >= 1 && t.Node? && t.ref == ref && s in t.kids
    requires Holds(t) && TreeLike(t) && Built(t) <= own
    requires Probes(v, t.kids[s])
    requires Insert(v, rest, Null).Ok? || ScalarLeaves(t.kids[s])
    modifies Built(t.kids[s])
    ensures ok <==> Insert(v, rest, Null).Ok?
    ensures ok ==>
              && Placed(t.kids[s], rest, value, kid)
              && Probes(Insert(v, rest, Null).value, kid)
              && kid.ref == t.kids[s].ref
              && Holds(t.(kids := t.kids[s := kid])) && TreeLike(t.(kids := t.kids[s := kid]))
              && fresh(added) && Built(kid) <= Built(t.kids[s]) + added
              && (ScalarLeaves(t.kids[s]) && value.Scalar? ==> ScalarLeaves(kid))
    decreases |rest|, 2
  {
    var child := ChildRef(ref, s).value;
    kid, added := t.kids[s], {};
    if child.Scalar? {
      return false, kid, added;
    }
    KidFacts(t, s);
    BesideParts(t, s);
    ok, kid, added := InsertAt(child, rest, value, v, t.kids[s], own);
    if ok {
      KidReplaced(t, s, kid, own, added);
      HoldsBeside(t, s, kid);
    }
  }

  lemma BesideParts(t: Shape, s: Seg)
    requires t.Node? && Holds(t) && TreeLike(t) && s in t.kids
    ensures Local(t.ref, t.kids) && HoldBelow(t.kids - {s}) && Holds(t.kids[s])
    ensures BuiltBelow(t.kids - {s}) !! Built(t.kids[s]) && Cell(t.ref) !! Built(t.kids[s])
    ensures BuiltBelow(t.kids - {s}) <= Built(t)
  {
  }

  lemma KidReplaced(t: Shape, s: Seg, kid: Shape, own: set<object>, added: set<object>)
    requires t.Node? && TreeLike(t) && s in t.kids && Built(t) <= own && own !! added
    requires TreeLike(kid) && Built(kid) <= Built(t.kids[s]) + added
    ensures TreeLike(t.(kids := t.kids[s := kid]))
  {
  }

  lemma HoldsBeside(t: Shape, s: Seg, kid: Shape)
    requires t.Node? && s in t.kids && kid.ref == t.kids[s].ref
    requires Local(t.ref, t.kids) && HoldBelow(t.kids - {s}) && Holds(kid)
    ensures Holds(t.(kids := t.kids[s := kid]))
  {
    forall s' | s' in t.kids && s' != s ensures Holds(t.kids[s']) {
      assert (t.kids - {s})[s'] == t.kids[s'];
    }
  }

  /** A segment the value's node can be entered or extended by. */
  predicate Enters(v: Value, s: Seg) {
    match v
    case Obj(_) => s.Key?
    case List(items) => s.At? && s.n <= |items|
    case _ => false
  }

  lemma ReachesEnters(v: Value, t: Shape, s: Seg)
    requires t.Node? && Local(t.ref, t.kids) && Probes(v, t)
    ensures Reaches(t.ref, s) <==> Enters(v, s)
    ensures ChildRef(t.ref, s).Some? <==> s in t.kids
    ensures s in t.kids <==> ChildAt(v, s).Some?
  {
    match t.ref
    case ListRef(l) =>
      var n := |v.items|;
      assert At(n) in t.kids <==> n < |l.items|;
      assert At(|l.items|) in t.kids <==> |l.items| < n;
      assert At(|l.items|) in t.kids <==> ChildAt(v, At(|l.items|)).Some?;
    case _ =>
  }

  /** The dry run's insertion, one step down. */
  lemma ProbeStep(v: Value, s: Seg, rest: Path, inner: Value)
    requires |rest| >= 1 && Enters(v, s)
    requires inner == if ChildAt(v, s).Some? then ChildAt(v, s).value else EmptyFor(rest[0])
    ensures Insert(v, [s] + rest, Null).Ok? <==> Insert(inner, rest, Null).Ok?
    ensures Insert(inner, rest, Null).Ok? ==>
              var inner' := Insert(inner, rest, Null).value;
              match v
              case Obj(fields) => Insert(v, [s] + rest, Null).value == Obj(fields[s.k := inner'])
              case List(items) =>
                Insert(v, [s] + rest, Null).value ==
                List(if s.n < |items| then items[s.n := inner'] else items + [inner'])
              case _ => true
  {
  }

  lemma LeafStep(v: Value, t: Shape, s: Seg, value: Ref)
    requires t.Node? && Probes(v, t) && Enters(v, s)
    ensures Insert(v, [s], Null).Ok? <==> s !in t.kids
    ensures s !in t.kids ==>
              && Probes(Insert(v, [s], Null).value, t.(kids := t.kids[s := Leaf(value)]))
              && Placed(t, [s], value, t.(kids := t.kids[s := Leaf(value)]))
  {
    assert [s][1..] == [];
    assert s in t.kids <==> ChildAt(v, s).Some?;
    KidProbes(v, t, s, Leaf(value), Null, Leaf(value));
    if s !in t.kids {
      KidPlaced(t, s, Leaf(value), [], value, Leaf(value));
      assert [s] + [] == [s];
    }
  }

  /** The recursive insertion. It is called on targets the dry run accepted, with any values; or by the
      dry run itself, on any target, with scalars at the leaves. Only built containers are written. */
  method InsertAt(container: Ref, path: Path, value: Ref, ghost v: Value, ghost t: Shape, ghost own: set<object>)
    returns (ok: bool, ghost t': Shape, ghost added: set<object>)
    requires |path| >= 1 && t.Node? && t.ref == container
    requires Holds(t) && TreeLike(t) && Built(t) <= own && Probes(v, t)
    requires Insert(v, path, Null).Ok? || ScalarLeaves(t)
    modifies Built(t)
    ensures ok <==> Insert(v, path, Null).Ok?
    ensures ok ==>
              && Placed(t, path, value, t')
              && Probes(Insert(v, path, Null).value, t')
              && t'.ref == container
              && Holds(t') && TreeLike(t')
              && fresh(added) && Built(t') <= Built(t) + added
              && (ScalarLeaves(t) && value.Scalar? ==> ScalarLeaves(t'))
    decreases |path|, 1
  {
    t', added := t, {};
    var s, rest := path[0], path[1..];
    ReachesEnters(v, t, s);
    if !Reaches(container, s) {
      return false, t, added;
    }
    assert path == [s] + rest;
    if rest == [] {
      ok, t' := InsertLeaf(container, s, value, v, t, own);
    } else {
      ok, t', added := InsertDeeper(container, s, rest, value, v, t, own);
    }
  }

  method InsertLeaf(container: Ref, s: Seg, value: Ref, ghost v: Value, ghost t: Shape, ghost own: set<object>)
    returns (ok: bool, ghost t': Shape)
    requires t.Node? && t.ref == container && Reaches(container, s) && Enters(v, s)
    requires Holds(t) && TreeLike(t) && Built(t) <= own && Probes(v, t)
    modifies Built(t)
    ensures ok <==> Insert(v, [s], Null).Ok?
    ensures ok ==>
              && Placed(t, [s], value, t')
              && Probes(Insert(v, [s], Null).value, t')
              && t'.ref == container
              && Holds(t') && TreeLike(t')
              && Built(t') <= Built(t)
              && (ScalarLeaves(t) && value.Scalar? ==> ScalarLeaves(t'))
  {
    LeafStep(v, t, s, value);
    ReachesEnters(v, t, s);
    if ChildRef(container, s).Some? {
      return false, t;
    }
    ok, t' := true, t.(kids := t.kids[s := Leaf(value)]);
    HoldsParts(t);
    KidTreeLike(t, s, Leaf(value));
    Attach(container, s, value, t.kids, Leaf(value), own);
  }

  method InsertDeeper(container: Ref, s: Seg, rest: Path, value: Ref, ghost v: Value, ghost t: Shape,
                      ghost own: set<object>)
    returns (ok: bool, ghost t': Shape, ghost added: set<object>)
    requires |rest| >= 1 && t.Node? && t.ref == container && Reaches(container, s) && Enters(v, s)
    requires Holds(t) && TreeLike(t) && Built(t) <= own && Probes(v, t)
    requires Insert(v, [s] + rest, Null).Ok? || ScalarLeaves(t)
    modifies Built(t)
    ensures ok <==> Insert(v, [s] + rest, Null).Ok?
    ensures ok ==>
              && Placed(t, [s] + rest, value, t')
              && Probes(Insert(v, [s] + rest, Null).value, t')
              && t'.ref == container
              && Holds(t') && TreeLike(t')
              && fresh(added) && Built(t') <= Built(t) + added
              && (ScalarLeaves(t) && value.Scalar? ==> ScalarLeaves(t'))
    decreases |rest|, 3
  {
    t' := t;
    var child;
    ghost var kid, kid';
    ghost var inner := if ChildAt(v, s).Some? then ChildAt(v, s).value else EmptyFor(rest[0]);
    ProbeStep(v, s, rest, inner);
    child, kid, added := ChildOrNew(container, s, rest[0], t, own);
    ghost var wider := t.(kids := t.kids[s := kid]);
    EmptyProbes(kid, rest[0]);
    KidFacts(wider, s);
    ghost var below;
    ok, kid', below := Descend(container, s, rest, value, inner, wider, own + added);
    if ok {
      added := added + below;
      assert fresh(added);
      t' := wider.(kids := wider.kids[s := kid']);
      KidTwice(t, s, kid, kid');
      KidPlaced(t, s, kid, rest, value, kid');
      KidProbes(v, t, s, kid, Insert(inner, rest, Null).value, kid');
    }
  }

  lemma EmptyProbes(t: Shape, s: Seg)
    ensures Empty(t, s) ==> Probes(EmptyFor(s), t) && ScalarLeaves(t)
  {
  }

  lemma KidTwice(t: Shape, s: Seg, kid: Shape, kid': Shape)
    requires t.Node?
    ensures var wider := t.(kids := t.kids[s := kid]);
            wider.(kids := wider.kids[s := kid']) == t.(kids := t.kids[s := kid'])
    ensures Built(t.(kids := t.kids[s := kid'])) <= Built(t) + Built(kid')
    ensures ScalarLeaves(t) && ScalarLeaves(kid') ==> ScalarLeaves(t.(kids := t.kids[s := kid']))
  {
  }

  lemma DryRunStep(v: Value, paths: seq<Path>, i: nat)
    requires i < |paths| && forall k :: 0 <= k < |paths| ==> |paths[k]| >= 1
    ensures DryRun(v, paths[i..]) ==
            match Insert(v, paths[i], Null) case Err(why) => Err(why) case Ok(next) => DryRun(next, paths[i + 1..])
  {
    assert paths[i..][1..] == paths[i + 1..];
    assert Nulls(|paths| - i)[1..] == Nulls(|paths| - i - 1);
  }

  /** The first `n` targets hold their values. */
  ghost predicate HoldFirst(t: Shape, paths: seq<Path>, values: seq<Ref>, n: nat)
    requires n <= |paths| == |values|
  {
    forall j :: 0 <= j < n ==> LeafAt(t, paths[j]) == Some(values[j])
  }

  lemma OneMoreHeld(t: Shape, t': Shape, paths: seq<Path>, values: seq<Ref>, n: nat)
    requires n < |paths| == |values| && HoldFirst(t, paths, values, n)
    requires Compatible(paths) && Placed(t, paths[n], values[n], t')
    ensures HoldFirst(t', paths, values, n + 1)
  {
  }

  /** A whole mapping, target by target, into a new body. It writes to nothing that existed before the
      call, so no fact is changed, whatever the values alias; it fails exactly where the dry run does;
      and in the heap it leaves, every target holds the very reference it was given. */
  method BuildBody(paths: seq<Path>, values: seq<Ref>) returns (ok: bool, root: Dict, ghost t: Shape)
    requires |paths| == |values| && forall i :: 0 <= i < |paths| ==> |paths[i]| >= 1
    requires DryRun(Obj(map[]), paths).Ok? || forall i :: 0 <= i < |values| ==> values[i].Scalar?
    ensures ok <==> DryRun(Obj(map[]), paths).Ok?
    ensures ok ==>
              && t.ref == DictRef(root) && Holds(t) && TreeLike(t) && fresh(Built(t))
              && Probes(DryRun(Obj(map[]), paths).value, t)
              && HoldFirst(t, paths, values, |paths|)
  {
    root := new Dict();
    ghost var v := Obj(map[]);
    ghost var own: set<object> := {root};
    t := Node(DictRef(root), map[]);
    DryRunAcceptsCompatible(paths);
    ghost var accepted := Compatible(paths);
    assert paths[0..] == paths;
    for i := 0 to |paths|
      invariant t.Node? && t.ref == DictRef(root) && Holds(t) && TreeLike(t) && Probes(v, t)
      invariant fresh(own) && Built(t) <= own
      invariant DryRun(Obj(map[]), paths) == DryRun(v, paths[i..])
      invariant if accepted then HoldFirst(t, paths, values, i) else ScalarLeaves(t)
    {
      DryRunStep(v, paths, i);
      var done;
      ghost var t';
      ghost var added;
      done, t', added := InsertAt(DictRef(root), paths[i], values[i], v, t, own);
      if !done {
        return false, root, t;
      }
      if accepted {
        OneMoreHeld(t, t', paths, values, i);
      }
      t := t';
      own := own + added;
      v := Insert(v, paths[i], Null).value;
    }
    ok := true;
  }
}
