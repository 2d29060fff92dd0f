/** Mapping targets: `insert_at_target` on immutable values (domain/carrier_definition.py), the dry run the
    authoring check makes with it, and exactly which lists of targets that dry run accepts. */
module Targets {
  import opened Digits
  import opened Prelude
  import opened Values

  /** One dotted segment: an all-digit one is a list position, any other an object key. */
  datatype Seg = Key(k: string) | At(n: nat)

  type Path = seq<Seg>

  function ParseSeg(part: string): Seg {
    if IsNumeral(part) then At(Number(part)) else Key(part)
  }

  function ParseTarget(target: string): (path: Path)
    ensures |path| >= 1
  {
    var parts := Split(target);
    seq(|parts|, i requires 0 <= i < |parts| => ParseSeg(parts[i]))
  }

  datatype Conflict = Occupied | WrongKind | SkipsPosition

  /** The container a segment needs above it. */
  function EmptyFor(s: Seg): Value {
    if s.At? then List([]) else Obj(map[])
  }

  function Insert(node: Value, path: Path, leaf: Value): Result<Value, Conflict>
    requires |path| >= 1
    decreases |path|
  {
    var (part, rest) := (path[0], path[1..]);
    match node
    case List(items) =>
      if part.Key? then Err(WrongKind)
      else if part.n > |items| then Err(SkipsPosition)
      else if rest == [] then
        if part.n < |items| then Err(Occupied) else Ok(List(items + [leaf]))
      else
        var grown := if part.n == |items| then items + [EmptyFor(rest[0])] else items;
        var child :- Insert(grown[part.n], rest, leaf);
        Ok(List(grown[part.n := child]))
    case Obj(fields) =>
      if part.At? then Err(WrongKind)
      else if rest == [] then
        if part.k in fields then Err(Occupied) else Ok(Obj(fields[part.k := leaf]))
      else
        var grown := if part.k in fields then fields else fields[part.k := EmptyFor(rest[0])];
        var child :- Insert(grown[part.k], rest, leaf);
        Ok(Obj(grown[part.k := child]))
    case _ => Err(WrongKind)
  }

  function ChildAt(node: Value, s: Seg): Option<Value> {
    match s
    case Key(k) => if node.Obj? && k in node.fields then Some(node.fields[k]) else None
    case At(n) => if node.List? && n < |node.items| then Some(node.items[n]) else None
  }

  function Get(node: Value, path: Path): Option<Value>
    decreases |path|
  {
    if path == [] then Some(node)
    else
      match ChildAt(node, path[0])
      case None => None
      case Some(child) => Get(child, path[1..])
  }

  /** Whether one path lies on the other: equal, above it, or below it. */
  predicate Related(p: Path, q: Path) {
    p <= q || q <= p
  }

  // ---------------------------------------------------------------------------------------------
  // What one insertion does, read back through paths.
  // ---------------------------------------------------------------------------------------------

  predicate IsContainer(v: Value) {
    v.List? || v.Obj?
  }

  /** When an insertion is accepted, in terms of what is already on its way: nothing at its own path,
      and every node above it a container of the right kind with no list position skipped. */
  predicate Free(node: Value, path: Path) {
    && Get(node, path).None?
    && forall d :: 0 <= d < |path| ==>
         match Get(node, path[..d])
         case None => path[d].At? ==> path[d].n == 0
         case Some(above) =>
           IsContainer(above) && above.List? == path[d].At? && (above.List? ==> path[d].n <= |above.items|)
  }

  lemma {:induction false} InsertAcceptsFree(node: Value, path: Path, leaf: Value)
    requires |path| >= 1
    ensures Insert(node, path, leaf).Ok? <==> Free(node, path)
    decreases |path|
  {
    var (part, rest) := (path[0], path[1..]);
    assert path[..0] == [];
    if rest == [] {
      assert Get(node, path[..0]) == Some(node);
      assert Get(node, path) == ChildAt(node, part);
    } else if IsContainer(node) && node.List? == part.At? && (part.At? ==> part.n <= |node.items|) {
      var child := if ChildAt(node, part).Some? then ChildAt(node, part).value else EmptyFor(rest[0]);
      InsertAcceptsFree(child, rest, leaf);
      forall d | 0 < d <= |path| ensures Get(node, path[..d]) ==
          if ChildAt(node, part).Some? then Get(child, rest[..d - 1]) else None {
        assert path[..d][1..] == rest[..d - 1];
      }
      assert path[..|path|] == path && rest[..|rest|] == rest;
      if ChildAt(node, part).Some? {
        ShiftDepth(node, path, child);
      } else {
        FreshBelow(rest);
        assert forall d :: 0 <= d < |rest| ==> path[d + 1] == rest[d];
        assert forall d :: 0 < d < |path| ==> Get(node, path[..d]).None? && path[d] == rest[d - 1];
      }
    }
  }

  lemma ShiftDepth(node: Value, path: Path, child: Value)
    requires |path| >= 2 && ChildAt(node, path[0]) == Some(child)
    requires IsContainer(node) && node.List? == path[0].At?
    ensures Free(node, path) <==> Free(child, path[1..])
  {
    var rest := path[1..];
    assert path[..0] == [];
    forall d | 0 < d <= |path| ensures Get(node, path[..d]) == Get(child, rest[..d - 1]) {
      assert path[..d][1..] == rest[..d - 1];
    }
    assert path[..|path|] == path && rest[..|rest|] == rest;
    if Free(node, path) {
      forall d | 0 <= d < |rest|
        ensures match Get(child, rest[..d])
                case None => rest[d].At? ==> rest[d].n == 0
                case Some(above) =>
                  IsContainer(above) && above.List? == rest[d].At? && (above.List? ==> rest[d].n <= |above.items|)
      {
        assert Get(node, path[..d + 1]) == Get(child, rest[..d]) && path[d + 1] == rest[d];
      }
    }
    if Free(child, rest) {
      forall d | 0 < d < |path|
        ensures match Get(node, path[..d])
                case None => path[d].At? ==> path[d].n == 0
                case Some(above) =>
                  IsContainer(above) && above.List? == path[d].At? && (above.List? ==> path[d].n <= |above.items|)
      {
        assert Get(node, path[..d]) == Get(child, rest[..d - 1]) && path[d] == rest[d - 1];
      }
    }
  }

  /** Below a container just created, only first positions are free. */
  lemma FreshBelow(rest: Path)
    requires |rest| >= 1
    ensures Free(EmptyFor(rest[0]), rest) <==> forall d :: 0 <= d < |rest| && rest[d].At? ==> rest[d].n == 0
  {
  }

  /** The inserted value reads back at its path, and everything off that path is as it was. */
  lemma {:induction false} InsertReadsBack(node: Value, path: Path, leaf: Value, q: Path)
    requires |path| >= 1 && Insert(node, path, leaf).Ok?
    ensures Get(Insert(node, path, leaf).value, path) == Some(leaf)
    ensures !Related(q, path) ==> Get(Insert(node, path, leaf).value, q) == Get(node, q)
    decreases |path|
  {
    var (part, rest) := (path[0], path[1..]);
    var after := Insert(node, path, leaf).value;
    if rest == [] {
      assert ChildAt(after, part) == Some(leaf);
      if q != [] && q[0] == part {
        assert path <= q;
      }
    } else {
      var child := if ChildAt(node, part).Some? then ChildAt(node, part).value else EmptyFor(rest[0]);
      assert ChildAt(after, part) == Some(Insert(child, rest, leaf).value);
      if q != [] && q[0] == part {
        InsertReadsBack(child, rest, leaf, q[1..]);
        if Related(q[1..], rest) {
          assert Related(q, path);
        }
        if !Related(q, path) && ChildAt(node, part).None? {
          assert Get(EmptyFor(rest[0]), q[1..]).None?;
        }
      } else {
        InsertReadsBack(child, rest, leaf, rest);
      }
    }
  }

  // ---------------------------------------------------------------------------------------------
  // The dry run against the real thing.
  // ---------------------------------------------------------------------------------------------

  /** `body` has the shape of `probe`, holding any value at all where the probe holds a null. */
  predicate Sim(probe: Value, body: Value) {
    match probe
    case Null => true
    case List(items) =>
      body.List? && |body.items| == |items| && forall i :: 0 <= i < |items| ==> Sim(items[i], body.items[i])
    case Obj(fields) =>
      body.Obj? && body.fields.Keys == fields.Keys && forall k :: k in fields ==> Sim(fields[k], body.fields[k])
    case _ => false
  }

  lemma {:induction false} InsertSimulates(probe: Value, body: Value, path: Path, leaf: Value)
    requires |path| >= 1 && Sim(probe, body) && Insert(probe, path, Null).Ok?
    ensures Insert(body, path, leaf).Ok?
    ensures Sim(Insert(probe, path, Null).value, Insert(body, path, leaf).value)
    decreases |path|
  {
    var (part, rest) := (path[0], path[1..]);
    if rest != [] {
      var fresh' := EmptyFor(rest[0]);
      assert Sim(fresh', fresh');
      match probe
      case List(items) =>
        var (ps, rs) := if part.n == |items| then (items + [fresh'], body.items + [fresh']) else (items, body.items);
        InsertSimulates(ps[part.n], rs[part.n], rest, leaf);
      case Obj(fields) =>
        var (ps, rs) := if part.k in fields then (fields, body.fields)
                        else (fields[part.k := fresh'], body.fields[part.k := fresh']);
        InsertSimulates(ps[part.k], rs[part.k], rest, leaf);
    }
  }

  /** Placing values at targets one after another, from the left. */
  function Place(body: Value, paths: seq<Path>, values: seq<Value>): Result<Value, Conflict>
    requires |paths| == |values| && forall i :: 0 <= i < |paths| ==> |paths[i]| >= 1
    decreases |paths|
  {
    if paths == [] then Ok(body)
    else
      var next :- Insert(body, paths[0], values[0]);
      Place(next, paths[1..], values[1..])
  }

  function Nulls(n: nat): seq<Value> {
    seq(n, _ => Null)
  }

  /** The authoring check on one list of targets: place a null at each. */
  function DryRun(body: Value, paths: seq<Path>): Result<Value, Conflict>
    requires forall i :: 0 <= i < |paths| ==> |paths[i]| >= 1
  {
    Place(body, paths, Nulls(|paths|))
  }

  /** What the dry run accepts can be placed with any values. */
  lemma {:induction false} PlaceSimulates(probe: Value, body: Value, paths: seq<Path>, values: seq<Value>)
    requires |paths| == |values| && forall i :: 0 <= i < |paths| ==> |paths[i]| >= 1
    requires Sim(probe, body) && DryRun(probe, paths).Ok?
    ensures Place(body, paths, values).Ok?
    ensures Sim(DryRun(probe, paths).value, Place(body, paths, values).value)
    decreases |paths|
  {
    if paths != [] {
      assert Nulls(|paths|)[1..] == Nulls(|paths| - 1);
      InsertSimulates(probe, body, paths[0], values[0]);
      PlaceSimulates(Insert(probe, paths[0], Null).value, Insert(body, paths[0], values[0]).value,
                     paths[1..], values[1..]);
    }
  }

  // ---------------------------------------------------------------------------------------------
  // Which lists of targets the dry run accepts, said without running it.
  // ---------------------------------------------------------------------------------------------

  /** `path` can follow the targets before it: it starts with a key; it neither is, nor lies above or
      below, any of them; wherever it shares a container with one, both take it for a list or both for
      an object; and a list position comes only after the position before it. */
  predicate Fits(earlier: seq<Path>, path: Path) {
    && |path| >= 1
    && path[0].Key?
    && (forall i :: 0 <= i < |earlier| ==> !Related(earlier[i], path))
    && (forall i, d :: 0 <= i < |earlier| && 0 <= d < |path| && d < |earlier[i]| && earlier[i][..d] == path[..d] ==>
          earlier[i][d].At? == path[d].At?)
    && (forall d :: 0 <= d < |path| && path[d].At? && path[d].n > 0 ==>
          exists i :: 0 <= i < |earlier| && path[..d] + [At(path[d].n - 1)] <= earlier[i])
  }

  predicate Compatible(paths: seq<Path>) {
    forall j :: 0 <= j < |paths| ==> Fits(paths[..j], paths[j])
  }

  /** `tree` is what a dry run over `paths` has built: something stands exactly on the way to a target,
      a null at each target, and above it containers of the kinds the target needs. */
  ghost predicate Describes(tree: Value, paths: seq<Path>) {
    && tree.Obj?
    && (forall q :: Supported(tree, paths, q))
    && (forall i: nat :: HoldsNull(tree, paths, i))
    && (forall i: nat, d: nat :: KindFits(tree, paths, i, d))
  }

  predicate Supported(tree: Value, paths: seq<Path>, q: Path) {
    Get(tree, q).Some? <==> q == [] || exists i :: 0 <= i < |paths| && q <= paths[i]
  }

  predicate HoldsNull(tree: Value, paths: seq<Path>, i: nat) {
    i < |paths| ==> Get(tree, paths[i]) == Some(Null)
  }

  predicate KindFits(tree: Value, paths: seq<Path>, i: nat, d: nat) {
    i < |paths| && d < |paths[i]| ==> OfKind(Get(tree, paths[i][..d]), paths[i][d])
  }

  /** A container that a segment can step into. */
  predicate OfKind(node: Option<Value>, s: Seg) {
    node.Some? && IsContainer(node.value) && node.value.List? == s.At?
  }

  lemma {:induction false} GetAppend(node: Value, p: Path, s: Seg)
    ensures Get(node, p + [s]) == match Get(node, p) case None => None case Some(v) => ChildAt(v, s)
    decreases |p|
  {
    if p != [] {
      assert (p + [s])[0] == p[0] && (p + [s])[1..] == p[1..] + [s];
      if ChildAt(node, p[0]).Some? {
        GetAppend(ChildAt(node, p[0]).value, p[1..], s);
      }
    } else {
      assert Get(node, [s]) == ChildAt(node, s) by {
        assert [s][1..] == [];
      }
    }
  }

  /** After an insertion every node above the target is a container of the kind the target needs. */
  lemma {:induction false} InsertKinds(node: Value, path: Path, leaf: Value, d: nat)
    requires |path| >= 1 && Insert(node, path, leaf).Ok? && d < |path|
    ensures OfKind(Get(Insert(node, path, leaf).value, path[..d]), path[d])
    decreases |path|
  {
    if d > 0 {
      var (part, rest) := (path[0], path[1..]);
      var child := if ChildAt(node, part).Some? then ChildAt(node, part).value else EmptyFor(rest[0]);
      InsertKinds(child, rest, leaf, d - 1);
      assert path[..d][1..] == rest[..d - 1];
      assert ChildAt(Insert(node, path, leaf).value, part) == Some(Insert(child, rest, leaf).value);
    }
  }

  lemma FreeUnrelated(tree: Value, paths: seq<Path>, path: Path, i: nat)
    requires Describes(tree, paths) && |path| >= 1
    requires Free(tree, path) && i < |paths|
    ensures !Related(paths[i], path)
  {
    var e := paths[i];
    assert HoldsNull(tree, paths, i) && Supported(tree, paths, path);
    assert |e| <= |path| ==> (e <= path <==> path[..|e|] == e);
    assert path[..|path|] == path;
  }

  lemma FreeKinds(tree: Value, paths: seq<Path>, path: Path, i: nat, d: nat)
    requires Describes(tree, paths)
    requires Free(tree, path) && i < |paths| && d < |path| && d < |paths[i]| && paths[i][..d] == path[..d]
    ensures paths[i][d].At? == path[d].At?
  {
    assert KindFits(tree, paths, i, d);
  }

  lemma FreePositions(tree: Value, paths: seq<Path>, path: Path, d: nat)
    requires Describes(tree, paths)
    requires Free(tree, path) && d < |path| && path[d].At? && path[d].n > 0
    ensures exists i :: 0 <= i < |paths| && path[..d] + [At(path[d].n - 1)] <= paths[i]
  {
    GetAppend(tree, path[..d], At(path[d].n - 1));
    assert Supported(tree, paths, path[..d] + [At(path[d].n - 1)]);
  }

  lemma FreeIsFit(tree: Value, paths: seq<Path>, path: Path)
    requires Describes(tree, paths) && |path| >= 1
    requires Free(tree, path)
    ensures Fits(paths, path)
  {
    assert path[..0] == [];
    forall i | 0 <= i < |paths| ensures !Related(paths[i], path) {
      FreeUnrelated(tree, paths, path, i);
    }
    forall i, d | 0 <= i < |paths| && 0 <= d < |path| && d < |paths[i]| && paths[i][..d] == path[..d]
      ensures paths[i][d].At? == path[d].At?
    {
      FreeKinds(tree, paths, path, i, d);
    }
    forall d | 0 <= d < |path| && path[d].At? && path[d].n > 0
      ensures exists i :: 0 <= i < |paths| && path[..d] + [At(path[d].n - 1)] <= paths[i]
    {
      FreePositions(tree, paths, path, d);
    }
  }

  lemma FitKinds(tree: Value, paths: seq<Path>, path: Path, d: nat)
    requires Describes(tree, paths)
    requires Fits(paths, path) && d < |path| && Get(tree, path[..d]).Some?
    ensures OfKind(Get(tree, path[..d]), path[d])
  {
    var q := path[..d];
    assert Supported(tree, paths, q);
    if d > 0 {
      var i :| 0 <= i < |paths| && q <= paths[i];
      assert paths[i][..d] == q;
      assert !Related(paths[i], path);
      assert |paths[i]| > d;
      assert KindFits(tree, paths, i, d);
    }
  }

  lemma FitPositions(tree: Value, paths: seq<Path>, path: Path, d: nat)
    requires Describes(tree, paths)
    requires Fits(paths, path) && d < |path| && path[d].At? && path[d].n > 0
    ensures Get(tree, path[..d] + [At(path[d].n - 1)]).Some?
  {
    assert Supported(tree, paths, path[..d] + [At(path[d].n - 1)]);
  }

  lemma FitUnoccupied(tree: Value, paths: seq<Path>, path: Path)
    requires Describes(tree, paths)
    requires Fits(paths, path)
    ensures Get(tree, path).None?
  {
    assert Supported(tree, paths, path);
    assert forall i :: 0 <= i < |paths| ==> !Related(paths[i], path);
  }

  lemma FitIsFree(tree: Value, paths: seq<Path>, path: Path)
    requires Describes(tree, paths)
    requires Fits(paths, path)
    ensures Free(tree, path)
  {
    FitUnoccupied(tree, paths, path);
    forall d | 0 <= d < |path|
      ensures match Get(tree, path[..d])
              case None => path[d].At? ==> path[d].n == 0
              case Some(above) =>
                IsContainer(above) && above.List? == path[d].At? && (above.List? ==> path[d].n <= |above.items|)
    {
      if path[d].At? && path[d].n > 0 {
        FitPositions(tree, paths, path, d);
        GetAppend(tree, path[..d], At(path[d].n - 1));
      }
      if Get(tree, path[..d]).Some? {
        FitKinds(tree, paths, path, d);
      }
    }
  }

  lemma NextSupport(tree: Value, paths: seq<Path>, path: Path, q: Path)
    requires Describes(tree, paths) && Fits(paths, path)
    requires Insert(tree, path, Null).Ok?
    ensures Supported(Insert(tree, path, Null).value, paths + [path], q)
  {
    var after := Insert(tree, path, Null).value;
    var all := paths + [path];
    assert all[|paths|] == path && forall i :: 0 <= i < |paths| ==> all[i] == paths[i] && !Related(paths[i], path);
    if q <= path {
      InsertReadsBack(tree, path, Null, []);
      assert q == path[..|q|];
      if q != path {
        InsertKinds(tree, path, Null, |q|);
      }
    } else if path <= q {
      InsertReadsBack(tree, path, Null, []);
      BelowLeaf(after, path, q);
    } else {
      InsertReadsBack(tree, path, Null, q);
      assert Supported(tree, paths, q);
    }
  }

  lemma NextKinds(tree: Value, paths: seq<Path>, path: Path, i: nat, d: nat)
    requires Describes(tree, paths) && Fits(paths, path)
    requires Insert(tree, path, Null).Ok?
    requires i < |paths| && d < |paths[i]|
    ensures OfKind(Get(Insert(tree, path, Null).value, paths[i][..d]), paths[i][d])
  {
    var q := paths[i][..d];
    assert KindFits(tree, paths, i, d);
    assert !Related(paths[i], path);
    if Related(q, path) {
      assert q == path[..d] && d < |path|;
      InsertKinds(tree, path, Null, d);
    } else {
      InsertReadsBack(tree, path, Null, q);
    }
  }

  lemma DescribesNext(tree: Value, paths: seq<Path>, path: Path)
    requires Describes(tree, paths) && Fits(paths, path)
    requires Insert(tree, path, Null).Ok?
    ensures Describes(Insert(tree, path, Null).value, paths + [path])
  {
    var after := Insert(tree, path, Null).value;
    var all := paths + [path];
    forall q ensures Supported(after, all, q) {
      NextSupport(tree, paths, path, q);
    }
    forall i: nat ensures HoldsNull(after, all, i) {
      if i < |all| {
        InsertReadsBack(tree, path, Null, all[i]);
        assert i < |paths| ==> HoldsNull(tree, paths, i) && !Related(paths[i], path);
      }
    }
    forall i: nat, d: nat ensures KindFits(after, all, i, d) {
      if i < |paths| && d < |paths[i]| {
        NextKinds(tree, paths, path, i, d);
      } else if i == |paths| && d < |path| {
        InsertKinds(tree, path, Null, d);
      }
    }
  }

  lemma {:induction false} BelowLeaf(node: Value, path: Path, q: Path)
    requires Get(node, path) == Some(Null) && path < q
    ensures Get(node, q).None?
    decreases |path|
  {
    if path != [] {
      BelowLeaf(ChildAt(node, path[0]).value, path[1..], q[1..]);
    }
  }

  lemma {:induction false} DryRunFrom(tree: Value, done: seq<Path>, rest: seq<Path>)
    requires Describes(tree, done)
    requires forall i :: 0 <= i < |rest| ==> |rest[i]| >= 1
    ensures DryRun(tree, rest).Ok? <==> forall j :: 0 <= j < |rest| ==> Fits(done + rest[..j], rest[j])
    decreases |rest|
  {
    if rest != [] {
      var path := rest[0];
      assert done + rest[..0] == done;
      InsertAcceptsFree(tree, path, Null);
      if Free(tree, path) {
        FreeIsFit(tree, done, path);
        DescribesNext(tree, done, path);
        assert Nulls(|rest|)[1..] == Nulls(|rest| - 1);
        DryRunFrom(Insert(tree, path, Null).value, done + [path], rest[1..]);
        forall j | 0 < j < |rest| ensures done + rest[..j] == done + [path] + rest[1..][..j - 1] {
        }
        if forall j :: 0 <= j < |rest| ==> Fits(done + rest[..j], rest[j]) {
          forall j | 0 <= j < |rest[1..]| ensures Fits(done + [path] + rest[1..][..j], rest[1..][j]) {
            assert done + rest[..j + 1] == done + [path] + rest[1..][..j];
          }
        }
      } else if Fits(done, path) {
        FitIsFree(tree, done, path);
      }
    }
  }

  /** The authoring check accepts a list of targets exactly when they are compatible. */
  lemma DryRunAcceptsCompatible(paths: seq<Path>)
    requires forall i :: 0 <= i < |paths| ==> |paths[i]| >= 1
    ensures DryRun(Obj(map[]), paths).Ok? <==> Compatible(paths)
  {
    var empty := Obj(map[]);
    forall q ensures Supported(empty, [], q) {
    }
    assert Describes(empty, []);
    DryRunFrom(empty, [], paths);
    assert forall j :: 0 <= j < |paths| ==> [] + paths[..j] == paths[..j];
  }

  lemma {:induction false} PlaceLeavesAlone(body: Value, paths: seq<Path>, values: seq<Value>, q: Path)
    requires |paths| == |values| && forall i :: 0 <= i < |paths| ==> |paths[i]| >= 1
    requires Place(body, paths, values).Ok?
    requires forall i :: 0 <= i < |paths| ==> !Related(q, paths[i])
    ensures Get(Place(body, paths, values).value, q) == Get(body, q)
    decreases |paths|
  {
    if paths != [] {
      InsertReadsBack(body, paths[0], values[0], q);
      PlaceLeavesAlone(Insert(body, paths[0], values[0]).value, paths[1..], values[1..], q);
    }
  }

  lemma {:induction false} PlaceReadsBack(body: Value, paths: seq<Path>, values: seq<Value>, k: nat)
    requires |paths| == |values| && forall i :: 0 <= i < |paths| ==> |paths[i]| >= 1
    requires Place(body, paths, values).Ok?
    requires k < |paths| && forall i :: k < i < |paths| ==> !Related(paths[k], paths[i])
    ensures Get(Place(body, paths, values).value, paths[k]) == Some(values[k])
    decreases |paths|
  {
    var next := Insert(body, paths[0], values[0]).value;
    if k == 0 {
      InsertReadsBack(body, paths[0], values[0], paths[0]);
      PlaceLeavesAlone(next, paths[1..], values[1..], paths[0]);
    } else {
      PlaceReadsBack(next, paths[1..], values[1..], k - 1);
    }
  }

  /** Whatever values are placed at targets the authoring check accepted, containers included: placing
      succeeds, every target reads back as exactly its own value, and nothing stands anywhere else. */
  lemma AcceptedTargetsHoldTheirValues(paths: seq<Path>, values: seq<Value>)
    requires |paths| == |values| && forall i :: 0 <= i < |paths| ==> |paths[i]| >= 1
    requires DryRun(Obj(map[]), paths).Ok?
    ensures Place(Obj(map[]), paths, values).Ok?
    ensures var body := Place(Obj(map[]), paths, values).value;
            && (forall k :: 0 <= k < |paths| ==> Get(body, paths[k]) == Some(values[k]))
            && (forall q :: Get(body, q).Some? ==> q == [] || exists i :: 0 <= i < |paths| && Related(q, paths[i]))
  {
    var empty := Obj(map[]);
    PlaceSimulates(empty, empty, paths, values);
    DryRunAcceptsCompatible(paths);
    var body := Place(empty, paths, values).value;
    forall k | 0 <= k < |paths| ensures Get(body, paths[k]) == Some(values[k]) {
      forall i | k < i < |paths| ensures !Related(paths[k], paths[i]) {
        assert Fits(paths[..i], paths[i]) && paths[..i][k] == paths[k];
      }
      PlaceReadsBack(empty, paths, values, k);
    }
    forall q | Get(body, q).Some? && q != [] ensures exists i :: 0 <= i < |paths| && Related(q, paths[i]) {
      if forall i :: 0 <= i < |paths| ==> !Related(q, paths[i]) {
        PlaceLeavesAlone(empty, paths, values, q);
        assert false;
      }
    }
  }
}
