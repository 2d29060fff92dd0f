/** JSON-shaped values and dotted paths into them: the walk shared by the renderer's fact lookup
    (engine/render.py), a JSON response lookup (engine/execute.py) and the config reader
    (domain/definitions.py). */
module Values {
  import opened Digits
  import opened Prelude

  datatype Value =
    | Null
    | Bool(b: bool)
    | Num(repr: string)
    | Str(s: string)
    | List(items: seq<Value>)
    | Obj(fields: map<string, Value>)

  /** Python's s.split("."): always at least one part. */
  function Split(s: string): (parts: seq<string>)
    ensures |parts| >= 1
  {
    if s == "" then [""]
    else
      var rest := Split(s[1..]);
      if s[0] == '.' then [""] + rest else [[s[0]] + rest[0]] + rest[1..]
  }

  function Join(parts: seq<string>): string
    requires |parts| >= 1
  {
    if |parts| == 1 then parts[0] else parts[0] + "." + Join(parts[1..])
  }

  lemma {:induction false} SplitJoins(s: string)
    ensures Join(Split(s)) == s
  {
    if s != "" {
      var rest := Split(s[1..]);
      SplitJoins(s[1..]);
      if s[0] == '.' {
        assert Split(s)[1..] == rest;
        assert s == "" + "." + s[1..];
      } else {
        assert Split(s)[1..] == rest[1..];
        assert s == [s[0]] + s[1..];
      }
    }
  }

  predicate NoDot(s: string) {
    '.' !in s
  }

  /** A dotted path after a root: the root is the first part, and the parts of the path follow. */
  lemma {:induction false} SplitAfterRoot(root: string, path: string)
    requires NoDot(root)
    ensures Split(root + "." + path) == [root] + Split(path)
  {
    var s := root + "." + path;
    if root == "" {
      assert s[1..] == path;
    } else {
      SplitAfterRoot(root[1..], path);
      assert s[1..] == root[1..] + "." + path;
      assert [s[0]] + root[1..] == root;
    }
  }

  /** One step down: a key of an object, or a position of a list named in digits. */
  function Child(node: Value, part: string): Option<Value> {
    if node.Obj? && part in node.fields then Some(node.fields[part])
    else if node.List? && IsNumeral(part) && Number(part) < |node.items| then Some(node.items[Number(part)])
    else None
  }

  function Walk(node: Value, parts: seq<string>): Option<Value>
    decreases |parts|
  {
    if parts == [] then Some(node)
    else
      match Child(node, parts[0])
      case None => None
      case Some(child) => Walk(child, parts[1..])
  }

  /** The walk, told from its far end: where the path so far leads, one part more is looked up, in an object under
      that key, in a list at that position. */
  lemma {:induction false} WalkOneFurther(node: Value, parts: seq<string>, part: string)
    ensures Walk(node, parts + [part]) ==
            match Walk(node, parts)
            case None => None
            case Some(Obj(fields)) => if part in fields then Some(fields[part]) else None
            case Some(List(items)) =>
              if IsNumeral(part) && Number(part) < |items| then Some(items[Number(part)]) else None
            case Some(_) => None
    decreases |parts|
  {
    if parts == [] {
      assert [part][1..] == [];
      assert Child(node, part).Some? ==> Walk(node, [part]) == Walk(Child(node, part).value, []);
    } else {
      assert (parts + [part])[1..] == parts[1..] + [part];
      if Child(node, parts[0]).Some? {
        WalkOneFurther(Child(node, parts[0]).value, parts[1..], part);
      }
    }
  }

  /** The loop all three walkers run, reassigning `node` part by part. */
  method WalkLoop(root: Value, path: string) returns (found: Option<Value>)
    ensures found == Walk(root, Split(path))
  {
    var parts := Split(path);
    var node := root;
    for i := 0 to |parts|
      invariant Walk(root, parts) == Walk(node, parts[i..])
    {
      var part := parts[i];
      assert parts[i..][1..] == parts[i + 1..];
      if node.Obj? && part in node.fields {
        node := node.fields[part];
      } else if node.List? && IsNumeral(part) && Number(part) < |node.items| {
        node := node.items[Number(part)];
      } else {
        return None;
      }
    }
    found := Some(node);
  }
}
