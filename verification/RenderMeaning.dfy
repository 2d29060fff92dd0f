/** What a rendering holds (engine/render.py), told from the entries and the facts alone: what stands at each target,
    and when an entry fails and why. */
module RenderMeaning {
  import opened Definition
  import opened Digits
  import opened Prelude
  import opened Render
  import opened Targets
  import opened Values

  // ---------------------------------------------------------------------------------------------
  // What an entry says.
  // ---------------------------------------------------------------------------------------------

  /** What the facts hold at a dotted path. */
  function FactAt(path: string, facts: Facts): Option<Value> {
    Walk(Obj(facts), Split(path))
  }

  /** A bool or a number goes out as its text, everything else as it is. */
  predicate GoesOutAs(v: Value, out: Value, lib: Library) {
    match v
    case Bool(_) => out == Str(lib.text(v))
    case Num(_) => out == Str(lib.text(v))
    case Null => out == Null
    case Str(s) => out == Str(s)
    case List(items) => out == List(items)
    case Obj(fields) => out == Obj(fields)
  }

  /** What an entry renders to. */
  ghost predicate Says(e: Entry, facts: Facts, lib: Library, out: Value)
    decreases e, 0
  {
    match e.origin
    case Const(text) => out == Str(text)
    case Plugin(name) => lib.plugin(name, facts).Some? && GoesOutAs(lib.plugin(name, facts).value, out, lib)
    case Source(path, how) =>
      && FactAt(path, facts).Some?
      && var v := FactAt(path, facts).value;
         match how
         case Plain => GoesOutAs(v, out, lib)
         case Transformed(t) => lib.transform(t, v).Some? && GoesOutAs(lib.transform(t, v).value, out, lib)
         case Pluck(item) =>
           && v.List? && out.List? && |out.items| == |v.items|
           && forall k :: 0 <= k < |v.items| ==>
                FactAt(item, facts["item" := v.items[k]]) == Some(out.items[k]) && !IsContainer(out.items[k])
         case Each(inner) =>
           && v.List? && out.List? && |out.items| == |v.items|
           && forall k :: 0 <= k < |v.items| ==> BodySays(inner, facts["item" := v.items[k]], lib, out.items[k])
  }

  /** What a mapping renders to: at every target, read as a path, what its entry says, below containers of the kinds
      the target names, and nothing besides. */
  ghost predicate BodySays(entries: seq<Entry>, facts: Facts, lib: Library, body: Value)
    decreases entries, 1
  {
    && body.Obj?
    && (forall i :: 0 <= i < |entries| ==>
          var found := Walk(body, Split(entries[i].target));
          found.Some? && Says(entries[i], facts, lib, found.value))
    && (forall i :: 0 <= i < |entries| ==> Kinds(body, Split(entries[i].target)))
    && NothingElse(entries, body)
  }

  /** A part in digits is looked up in a list, any other in an object. */
  predicate Kinds(body: Value, parts: seq<string>) {
    forall d :: 0 <= d < |parts| ==>
      var above := Walk(body, parts[..d]);
      above.Some? && if IsNumeral(parts[d]) then above.value.List? else above.value.Obj?
  }

  ghost predicate NothingElse(entries: seq<Entry>, body: Value) {
    forall q :: Get(body, q).Some? ==>
      q == [] || exists i :: 0 <= i < |entries| && Related(q, PathsOf(entries)[i])
  }

  // ---------------------------------------------------------------------------------------------
  // When an entry fails, and why.
  // ---------------------------------------------------------------------------------------------

  predicate Plucked(item: string, facts: Facts, v: Value) {
    FactAt(item, facts["item" := v]).Some? && !IsContainer(FactAt(item, facts["item" := v]).value)
  }

  /** An entry renders. */
  predicate Renders(e: Entry, facts: Facts, lib: Library)
    decreases e, 0
  {
    match e.origin
    case Const(_) => true
    case Plugin(name) => lib.plugin(name, facts).Some?
    case Source(path, how) =>
      && FactAt(path, facts).Some?
      && var v := FactAt(path, facts).value;
         match how
         case Plain => true
         case Transformed(t) => lib.transform(t, v).Some?
         case Pluck(item) => v.List? && forall k :: 0 <= k < |v.items| ==> Plucked(item, facts, v.items[k])
         case Each(inner) =>
           v.List? && forall k :: 0 <= k < |v.items| ==> AllRender(inner, facts["item" := v.items[k]], lib)
  }

  predicate AllRender(entries: seq<Entry>, facts: Facts, lib: Library)
    decreases entries, 1
  {
    forall i :: 0 <= i < |entries| ==> Renders(entries[i], facts, lib)
  }

  /** Why an entry fails: the first thing, item by item and entry by entry, that is not there or not fit. */
  predicate Fails(e: Entry, facts: Facts, lib: Library, error: RenderError)
    decreases e, 0
  {
    match e.origin
    case Const(_) => false
    case Plugin(name) => lib.plugin(name, facts).None? && error == PluginFailed
    case Source(path, how) =>
      if FactAt(path, facts).None? then error == NoFact(path)
      else
        var v := FactAt(path, facts).value;
        match how
        case Plain => false
        case Transformed(t) => lib.transform(t, v).None? && error == TransformFailed
        case Pluck(item) => if v.List? then PluckFails(item, v.items, facts, error) else error == NotACollection(path)
        case Each(inner) =>
          if v.List? then ItemFails(inner, v.items, facts, lib, error) else error == NotACollection(path)
  }

  predicate PluckFails(item: string, items: seq<Value>, facts: Facts, error: RenderError) {
    exists k :: 0 <= k < |items|
      && (forall j :: 0 <= j < k ==> Plucked(item, facts, items[j]))
      && !Plucked(item, facts, items[k])
      && error == if FactAt(item, facts["item" := items[k]]).None? then NoFact(item) else CompoundPluck(item)
  }

  /** The first item some entry does not render for fails the list. */
  predicate ItemFails(inner: seq<Entry>, items: seq<Value>, facts: Facts, lib: Library, error: RenderError)
    decreases inner, 3
  {
    exists k :: 0 <= k < |items| && FirstItemFails(inner, items, k, facts, lib, error)
  }

  predicate FirstItemFails(inner: seq<Entry>, items: seq<Value>, k: nat, facts: Facts, lib: Library,
                           error: RenderError)
    requires k < |items|
    decreases inner, 2
  {
    && (forall j :: 0 <= j < k ==> AllRender(inner, facts["item" := items[j]], lib))
    && !AllRender(inner, facts["item" := items[k]], lib)
    && OneFails(inner, facts["item" := items[k]], lib, error)
  }

  /** The first entry that does not render fails the mapping. */
  predicate OneFails(entries: seq<Entry>, facts: Facts, lib: Library, error: RenderError)
    decreases entries, 1
  {
    exists i :: 0 <= i < |entries|
      && (forall h :: 0 <= h < i ==> Renders(entries[h], facts, lib))
      && Fails(entries[i], facts, lib, error)
  }

  // ---------------------------------------------------------------------------------------------
  // The renderer does exactly this.
  // ---------------------------------------------------------------------------------------------

  lemma {:induction false} GetIsWalk(node: Value, parts: seq<string>, path: Path)
    requires |path| == |parts| && forall i :: 0 <= i < |parts| ==> path[i] == ParseSeg(parts[i])
    requires Get(node, path).Some?
    ensures Walk(node, parts) == Get(node, path) && Kinds(node, parts)
    decreases |parts|
  {
    if parts != [] {
      var child := ChildAt(node, path[0]).value;
      GetIsWalk(child, parts[1..], path[1..]);
      forall d | 0 <= d < |parts|
        ensures var above := Walk(node, parts[..d]);
                above.Some? && if IsNumeral(parts[d]) then above.value.List? else above.value.Obj?
      {
        if d > 0 {
          assert parts[..d][1..] == parts[1..][..d - 1];
          assert parts[1..][d - 1] == parts[d];
        }
      }
    }
  }

  lemma {:induction false} PluckSays(item: string, items: seq<Value>, facts: Facts)
    ensures var r := PluckItems(item, items, facts);
            if r.Ok? then
              && |r.value| == |items|
              && forall k :: 0 <= k < |items| ==>
                   FactAt(item, facts["item" := items[k]]) == Some(r.value[k]) && !IsContainer(r.value[k])
            else PluckFails(item, items, facts, r.error)
    decreases |items|
  {
    if items != [] && Plucked(item, facts, items[0]) {
      PluckSays(item, items[1..], facts);
      if PluckItems(item, items[1..], facts).Err? {
        var error := PluckItems(item, items[1..], facts).error;
        var k :| 0 <= k < |items[1..]|
          && (forall j :: 0 <= j < k ==> Plucked(item, facts, items[1..][j]))
          && !Plucked(item, facts, items[1..][k])
          && error == if FactAt(item, facts["item" := items[1..][k]]).None? then NoFact(item) else CompoundPluck(item);
        assert items[1..][k] == items[k + 1];
        assert forall j :: 0 <= j < k + 1 ==> Plucked(item, facts, items[j]) by {
          forall j | 0 <= j < k + 1 ensures Plucked(item, facts, items[j]) {
            if j > 0 { assert items[1..][j - 1] == items[j]; }
          }
        }
      }
    }
  }

  lemma OneFailsLater(entries: seq<Entry>, facts: Facts, lib: Library, error: RenderError)
    requires entries != [] && Renders(entries[0], facts, lib) && OneFails(entries[1..], facts, lib, error)
    ensures OneFails(entries, facts, lib, error)
  {
    var rest := entries[1..];
    var i :| 0 <= i < |rest|
      && (forall h :: 0 <= h < i ==> Renders(rest[h], facts, lib))
      && Fails(rest[i], facts, lib, error);
    assert rest[i] == entries[i + 1];
    forall h | 0 <= h < i + 1
      ensures Renders(entries[h], facts, lib)
    {
      assert h > 0 ==> rest[h - 1] == entries[h];
    }
  }

  lemma AllRenderCons(entries: seq<Entry>, facts: Facts, lib: Library)
    requires entries != []
    ensures AllRender(entries, facts, lib) <==>
            Renders(entries[0], facts, lib) && AllRender(entries[1..], facts, lib)
  {
    assert forall h :: 0 < h < |entries| ==> entries[h] == entries[1..][h - 1];
  }

  lemma {:induction false} PlacingMeans(probe: Value, body: Value, entries: seq<Entry>, facts: Facts, lib: Library)
    requires Sim(probe, body) && DryRun(probe, PathsOf(entries)).Ok?
    requires forall e :: e in entries ==> InnerTargetsValid(e)
    ensures var r := RenderInto(body, entries, facts, lib);
            if r.Ok? then AllRender(entries, facts, lib)
            else !AllRender(entries, facts, lib) && OneFails(entries, facts, lib, r.error)
    decreases entries, 1
  {
    if entries != [] {
      var path := ParseTarget(entries[0].target);
      assert PathsOf(entries)[1..] == PathsOf(entries[1..]);
      assert Nulls(|entries|)[1..] == Nulls(|entries| - 1);
      EntryMeans(entries[0], facts, lib);
      AllRenderCons(entries, facts, lib);
      if RenderEntry(entries[0], facts, lib).Ok? {
        var v := RenderEntry(entries[0], facts, lib).value;
        InsertSimulates(probe, body, path, v);
        var next := Insert(body, path, v).value;
        PlacingMeans(Insert(probe, path, Null).value, next, entries[1..], facts, lib);
        if RenderInto(next, entries[1..], facts, lib).Err? {
          OneFailsLater(entries, facts, lib, RenderInto(next, entries[1..], facts, lib).error);
        }
      }
    }
  }

  /** A checked mapping renders exactly when all its entries do; then it holds what they say, and otherwise it fails
      as the first entry that does not render. */
  lemma {:induction false} MappingMeans(entries: seq<Entry>, facts: Facts, lib: Library)
    requires TargetsValid(entries)
    ensures var r := RenderMapping(entries, facts, lib);
            if r.Ok? then AllRender(entries, facts, lib) && BodySays(entries, facts, lib, r.value)
            else !AllRender(entries, facts, lib) && OneFails(entries, facts, lib, r.error)
    decreases entries, 2
  {
    PlacingMeans(Obj(map[]), Obj(map[]), entries, facts, lib);
    if RenderMapping(entries, facts, lib).Ok? {
      var body := RenderMapping(entries, facts, lib).value;
      RenderedMappingPlaces(entries, facts, lib);
      RenderIsPlace(Obj(map[]), entries, facts, lib);
      forall i | 0 <= i < |entries|
        ensures var found := Walk(body, Split(entries[i].target));
                found.Some? && Says(entries[i], facts, lib, found.value)
        ensures Kinds(body, Split(entries[i].target))
      {
        GetIsWalk(body, Split(entries[i].target), ParseTarget(entries[i].target));
        EntryMeans(entries[i], facts, lib);
      }
      assert body.Obj? by {
        PlaceKeepsObject(Obj(map[]), PathsOf(entries), ValuesOf(entries, facts, lib));
      }
    }
  }

  lemma {:induction false} PlaceKeepsObject(body: Value, paths: seq<Path>, values: seq<Value>)
    requires |paths| == |values| && forall i :: 0 <= i < |paths| ==> |paths[i]| >= 1
    requires body.Obj? && Place(body, paths, values).Ok?
    ensures Place(body, paths, values).value.Obj?
    decreases |paths|
  {
    if paths != [] {
      PlaceKeepsObject(Insert(body, paths[0], values[0]).value, paths[1..], values[1..]);
    }
  }

  ghost predicate ItemsSay(inner: seq<Entry>, items: seq<Value>, facts: Facts, lib: Library, bodies: seq<Value>) {
    && |bodies| == |items|
    && forall k :: 0 <= k < |items| ==>
         && AllRender(inner, facts["item" := items[k]], lib)
         && BodySays(inner, facts["item" := items[k]], lib, bodies[k])
  }

  lemma ItemsSayCons(inner: seq<Entry>, items: seq<Value>, facts: Facts, lib: Library, bodies: seq<Value>)
    requires items != [] && bodies != [] && ItemsSay(inner, items[1..], facts, lib, bodies[1..])
    requires AllRender(inner, facts["item" := items[0]], lib)
    requires BodySays(inner, facts["item" := items[0]], lib, bodies[0])
    ensures ItemsSay(inner, items, facts, lib, bodies)
  {
    assert forall k :: 0 < k < |items| ==> items[1..][k - 1] == items[k] && bodies[1..][k - 1] == bodies[k];
  }

  lemma {:induction false} ItemsMean(inner: seq<Entry>, items: seq<Value>, facts: Facts, lib: Library)
    requires TargetsValid(inner)
    ensures var r := RenderItems(inner, items, facts, lib);
            if r.Ok? then ItemsSay(inner, items, facts, lib, r.value)
            else ItemFails(inner, items, facts, lib, r.error)
    decreases inner, 4, |items|
  {
    if items != [] {
      MappingMeans(inner, facts["item" := items[0]], lib);
      if RenderMapping(inner, facts["item" := items[0]], lib).Err? {
        assert FirstItemFails(inner, items, 0, facts, lib, RenderItems(inner, items, facts, lib).error);
      } else {
        ItemsMean(inner, items[1..], facts, lib);
        if RenderItems(inner, items[1..], facts, lib).Err? {
          ItemFailsLater(inner, items, facts, lib, RenderItems(inner, items[1..], facts, lib).error);
        } else {
          ItemsSayCons(inner, items, facts, lib, RenderItems(inner, items, facts, lib).value);
        }
      }
    }
  }

  lemma ItemFailsLater(inner: seq<Entry>, items: seq<Value>, facts: Facts, lib: Library, error: RenderError)
    requires items != [] && AllRender(inner, facts["item" := items[0]], lib)
    requires ItemFails(inner, items[1..], facts, lib, error)
    ensures ItemFails(inner, items, facts, lib, error)
  {
    var rest := items[1..];
    var k :| 0 <= k < |rest| && FirstItemFails(inner, rest, k, facts, lib, error);
    assert rest[k] == items[k + 1];
    forall j | 0 <= j < k + 1
      ensures AllRender(inner, facts["item" := items[j]], lib)
    {
      assert j > 0 ==> rest[j - 1] == items[j];
    }
    assert FirstItemFails(inner, items, k + 1, facts, lib, error);
  }

  /** A checked entry renders exactly when it should, to what it says, and fails for the first reason it has. */
  lemma {:induction false} EntryMeans(e: Entry, facts: Facts, lib: Library)
    requires InnerTargetsValid(e)
    ensures var r := RenderEntry(e, facts, lib);
            if r.Ok? then Renders(e, facts, lib) && Says(e, facts, lib, r.value)
            else !Renders(e, facts, lib) && Fails(e, facts, lib, r.error)
    decreases e, 0
  {
    if e.origin.Source? && FactAt(e.origin.path, facts).Some? && FactAt(e.origin.path, facts).value.List? {
      var items := FactAt(e.origin.path, facts).value.items;
      match e.origin.how
      case Each(inner) =>
        ItemsMean(inner, items, facts, lib);
      case Pluck(item) => PluckSays(item, items, facts);
      case _ =>
    }
  }

  // ---------------------------------------------------------------------------------------------
  // Whole steps.
  // ---------------------------------------------------------------------------------------------

  /** A CSV column holds what its entry says, a scalar. */
  ghost predicate RowSays(entries: seq<Entry>, facts: Facts, lib: Library, row: seq<Value>) {
    && |row| == |entries|
    && forall i :: 0 <= i < |entries| ==> Says(entries[i], facts, lib, row[i]) && !IsContainer(row[i])
  }

  /** The first column that does not render, or is no scalar, fails the row. */
  ghost predicate ColumnFails(entries: seq<Entry>, facts: Facts, lib: Library, error: RenderError) {
    exists i :: 0 <= i < |entries|
      && (forall h :: 0 <= h < i ==> Renders(entries[h], facts, lib))
      && if Renders(entries[i], facts, lib) then
           error == NotAScalarColumn && exists out :: Says(entries[i], facts, lib, out) && IsContainer(out)
         else Fails(entries[i], facts, lib, error)
  }

  lemma ColumnFailsLater(entries: seq<Entry>, facts: Facts, lib: Library, error: RenderError)
    requires entries != [] && Renders(entries[0], facts, lib) && ColumnFails(entries[1..], facts, lib, error)
    ensures ColumnFails(entries, facts, lib, error)
  {
    var rest := entries[1..];
    var i :| 0 <= i < |rest|
      && (forall h :: 0 <= h < i ==> Renders(rest[h], facts, lib))
      && if Renders(rest[i], facts, lib) then
           error == NotAScalarColumn && exists out :: Says(rest[i], facts, lib, out) && IsContainer(out)
         else Fails(rest[i], facts, lib, error);
    assert rest[i] == entries[i + 1];
    forall h | 0 <= h < i + 1
      ensures Renders(entries[h], facts, lib)
    {
      assert h > 0 ==> rest[h - 1] == entries[h];
    }
  }

  lemma {:induction false} RowMeans(entries: seq<Entry>, facts: Facts, lib: Library)
    requires forall e :: e in entries ==> InnerTargetsValid(e)
    ensures var r := RenderRow(entries, facts, lib);
            if r.Ok? then AllRender(entries, facts, lib) && RowSays(entries, facts, lib, r.value)
            else ColumnFails(entries, facts, lib, r.error)
    decreases |entries|
  {
    if entries != [] {
      EntryMeans(entries[0], facts, lib);
      AllRenderCons(entries, facts, lib);
      if RenderEntry(entries[0], facts, lib).Ok? && !IsContainer(RenderEntry(entries[0], facts, lib).value) {
        RowMeans(entries[1..], facts, lib);
        if RenderRow(entries[1..], facts, lib).Err? {
          ColumnFailsLater(entries, facts, lib, RenderRow(entries[1..], facts, lib).error);
        }
      }
    }
  }

  /** The text of a filename's piece, if its fact is there. */
  function PieceText(piece: Piece, facts: Facts, lib: Library): Option<string> {
    match piece
    case Text(text) => Some(text)
    case Hole(path) => match FactAt(path, facts) case None => None case Some(v) => Some(lib.text(v))
  }

  function Joined(parts: seq<string>): string
    decreases |parts|
  {
    if parts == [] then "" else Joined(Init(parts)) + Last(parts)
  }

  lemma {:induction false} JoinedCons(head: string, rest: seq<string>)
    ensures Joined([head] + rest) == head + Joined(rest)
    decreases |rest|
  {
    if rest == [] {
      assert Init([head]) == [] && head + "" == head;
      assert [head] + rest == [head];
    } else {
      JoinedCons(head, Init(rest));
      assert Init([head] + rest) == [head] + Init(rest);
      assert head + Joined(rest) == head + Joined(Init(rest)) + Last(rest);
    }
  }

  /** Every piece is there and the name is their texts on end. */
  predicate FilenameSays(pieces: seq<Piece>, facts: Facts, lib: Library, name: string) {
    && (forall i :: 0 <= i < |pieces| ==> PieceText(pieces[i], facts, lib).Some?)
    && name == Joined(seq(|pieces|, i requires 0 <= i < |pieces| && PieceText(pieces[i], facts, lib).Some? =>
                 PieceText(pieces[i], facts, lib).value))
  }

  lemma {:induction false} FilenameMeans(pieces: seq<Piece>, facts: Facts, lib: Library)
    ensures var r := RenderFilename(pieces, facts, lib);
            if r.Ok? then FilenameSays(pieces, facts, lib, r.value)
            else
              exists i :: 0 <= i < |pieces| && PieceText(pieces[i], facts, lib).None?
                && r.error == NoFact(pieces[i].path)
    decreases |pieces|
  {
    if pieces != [] && PieceText(pieces[0], facts, lib).Some? {
      var rest := pieces[1..];
      FilenameMeans(rest, facts, lib);
      if RenderFilename(rest, facts, lib).Ok? {
        assert forall i :: 0 < i < |pieces| ==> pieces[i] == rest[i - 1];
        var texts := seq(|rest|, i requires 0 <= i < |rest| && PieceText(rest[i], facts, lib).Some? =>
          PieceText(rest[i], facts, lib).value);
        JoinedCons(PieceText(pieces[0], facts, lib).value, texts);
        assert seq(|pieces|, i requires 0 <= i < |pieces| && PieceText(pieces[i], facts, lib).Some? =>
          PieceText(pieces[i], facts, lib).value) == [PieceText(pieces[0], facts, lib).value] + texts;
      } else {
        var error := RenderFilename(rest, facts, lib).error;
        var i :| 0 <= i < |rest| && PieceText(rest[i], facts, lib).None? && error == NoFact(rest[i].path);
        assert pieces[i + 1] == rest[i];
      }
    }
  }

  function PiecesOf(step: Step): seq<Piece> {
    if step.filename.Some? then step.filename.value else []
  }

  /** Only an http step carries the key the auth scheme names. */
  predicate CarriesKey(d: CarrierDefinition, step: Step) {
    step.transport == Http && (d.auth.QueryKey? || d.auth.HeaderKey?)
  }

  /** What a rendered step says. */
  ghost predicate StepSays(d: CarrierDefinition, step: Step, facts: Facts, lib: Library, rendered: Rendered) {
    && FactAt(step.url, facts).Some?
    && AllRender(step.mapping, facts, lib)
    && var address := lib.text(FactAt(step.url, facts).value);
       match rendered
       case Upload(remotePath, filename, content) =>
         && step.transport in {FtpUpload, SftpUpload}
         && remotePath == address
         && FilenameSays(PiecesOf(step), facts, lib, filename)
         && if step.contentType == Xml then
              content.XmlDocument? && BodySays(step.mapping, facts, lib, content.body) && lib.xmlLegal(content.body)
            else content.CsvRow? && RowSays(step.mapping, facts, lib, content.row)
       case Request(url, secret, body) =>
         && step.transport !in {FtpUpload, SftpUpload}
         && url == address
         && BodySays(step.mapping, facts, lib, body)
         && if CarriesKey(d, step) then
              FactAt(d.auth.secret, facts).Some? && secret == Some(lib.text(FactAt(d.auth.secret, facts).value))
            else secret == None
  }

  /** Why a step does not render. */
  ghost predicate StepFails(d: CarrierDefinition, step: Step, facts: Facts, lib: Library, error: RenderError) {
    var uploads := step.transport in {FtpUpload, SftpUpload};
    || (FactAt(step.url, facts).None? && error == NoFact(step.url))
    || (CarriesKey(d, step) && FactAt(d.auth.secret, facts).None? && error == NoFact(d.auth.secret))
    || (uploads && exists i :: 0 <= i < |PiecesOf(step)| && PieceText(PiecesOf(step)[i], facts, lib).None?
                               && error == NoFact(PiecesOf(step)[i].path))
    || if uploads && step.contentType != Xml then ColumnFails(step.mapping, facts, lib, error)
       else
         || (!AllRender(step.mapping, facts, lib) && OneFails(step.mapping, facts, lib, error))
         || (uploads && error == IllegalXml
             && exists body :: BodySays(step.mapping, facts, lib, body) && !lib.xmlLegal(body))
  }

  lemma UploadMeans(d: CarrierDefinition, step: Step, facts: Facts, lib: Library)
    requires TargetsValid(step.mapping) && IsUpload(step.transport)
    ensures var r := RenderStep(d, step, facts, lib);
            if r.Ok? then StepSays(d, step, facts, lib, r.value)
            else StepFails(d, step, facts, lib, r.error)
  {
    FilenameMeans(PiecesOf(step), facts, lib);
    if step.contentType == Xml {
      MappingMeans(step.mapping, facts, lib);
    } else {
      RowMeans(step.mapping, facts, lib);
    }
  }

  lemma RequestMeans(d: CarrierDefinition, step: Step, facts: Facts, lib: Library)
    requires TargetsValid(step.mapping) && !IsUpload(step.transport)
    ensures var r := RenderStep(d, step, facts, lib);
            if r.Ok? then StepSays(d, step, facts, lib, r.value)
            else StepFails(d, step, facts, lib, r.error)
  {
    MappingMeans(step.mapping, facts, lib);
  }

  /** A step with checked targets renders to what its own parts say, or fails for one of them. */
  lemma StepMeans(d: CarrierDefinition, step: Step, facts: Facts, lib: Library)
    requires TargetsValid(step.mapping)
    ensures var r := RenderStep(d, step, facts, lib);
            if r.Ok? then StepSays(d, step, facts, lib, r.value)
            else StepFails(d, step, facts, lib, r.error)
  {
    if IsUpload(step.transport) {
      UploadMeans(d, step, facts, lib);
    } else {
      RequestMeans(d, step, facts, lib);
    }
  }
}
