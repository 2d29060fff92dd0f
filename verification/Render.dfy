/** The renderer (engine/render.py): one step of an operation, and facts, to a request or a file. */
module Render {
  import opened Definition
  import opened Prelude
  import opened Targets
  import opened Values

  type Facts = map<string, Value>

  /** What the engine leaves to others: how a value prints, what each transform computes, the registered
      field plugins, and whether a value can stand in an XML document. Any behaviour at all. */
  datatype Library = Library(
    text: Value -> string,
    transform: (Transform, Value) -> Option<Value>,
    plugin: (string, Facts) -> Option<Value>,
    xmlLegal: Value -> bool)

  datatype RenderError =
    | NoFact(path: string)
    | TargetConflict(target: string)
    | NotACollection(source: string)
    | CompoundPluck(item: string)
    | TransformFailed
    | PluginFailed
    | NotAScalarColumn
    | IllegalXml

  function Resolve(path: string, facts: Facts): Result<Value, RenderError> {
    match Walk(Obj(facts), Split(path))
    case None => Err(NoFact(path))
    case Some(v) => Ok(v)
  }

  /** Strings, collections and null render as they are; any other scalar as its text. */
  function Finish(v: Value, lib: Library): Value {
    if v.Bool? || v.Num? then Str(lib.text(v)) else v
  }

  function RenderEntry(e: Entry, facts: Facts, lib: Library): Result<Value, RenderError>
    decreases e, 0, 0
  {
    match e.origin
    case Const(text) => Ok(Str(text))
    case Plugin(name) =>
      (match lib.plugin(name, facts)
       case None => Err(PluginFailed)
       case Some(v) => Ok(Finish(v, lib)))
    case Source(path, how) =>
      var v :- Resolve(path, facts);
      match how
      case Plain => Ok(Finish(v, lib))
      case Transformed(t) =>
        (match lib.transform(t, v)
         case None => Err(TransformFailed)
         case Some(w) => Ok(Finish(w, lib)))
      case Each(inner) =>
        if !v.List? then Err(NotACollection(path))
        else
          var bodies :- RenderItems(inner, v.items, facts, lib);
          Ok(List(bodies))
      case Pluck(item) =>
        if !v.List? then Err(NotACollection(path))
        else
          var scalars :- PluckItems(item, v.items, facts);
          Ok(List(scalars))
  }

  /** One body per item, the item bound under `item`. */
  function RenderItems(inner: seq<Entry>, items: seq<Value>, facts: Facts, lib: Library)
    : Result<seq<Value>, RenderError>
    decreases inner, 1, |items|
  {
    if items == [] then Ok([])
    else
      var body :- RenderInto(Obj(map[]), inner, facts["item" := items[0]], lib);
      var rest :- RenderItems(inner, items[1..], facts, lib);
      Ok([body] + rest)
  }

  function PluckItems(item: string, items: seq<Value>, facts: Facts): Result<seq<Value>, RenderError>
    decreases |items|
  {
    if items == [] then Ok([])
    else
      var scalar :- Resolve(item, facts["item" := items[0]]);
      if IsContainer(scalar) then Err(CompoundPluck(item))
      else
        var rest :- PluckItems(item, items[1..], facts);
        Ok([scalar] + rest)
  }

  /** Renders and places the entries one after another. */
  function RenderInto(body: Value, entries: seq<Entry>, facts: Facts, lib: Library): Result<Value, RenderError>
    decreases entries, 0, 0
  {
    if entries == [] then Ok(body)
    else
      var v :- RenderEntry(entries[0], facts, lib);
      match Insert(body, ParseTarget(entries[0].target), v)
      case Err(_) => Err(TargetConflict(entries[0].target))
      case Ok(next) => RenderInto(next, entries[1..], facts, lib)
  }

  function RenderMapping(entries: seq<Entry>, facts: Facts, lib: Library): Result<Value, RenderError> {
    RenderInto(Obj(map[]), entries, facts, lib)
  }

  /** A CSV row: one scalar per entry, in order. */
  function RenderRow(entries: seq<Entry>, facts: Facts, lib: Library): Result<seq<Value>, RenderError>
    decreases |entries|
  {
    if entries == [] then Ok([])
    else
      var v :- RenderEntry(entries[0], facts, lib);
      if IsContainer(v) then Err(NotAScalarColumn)
      else
        var rest :- RenderRow(entries[1..], facts, lib);
        Ok([v] + rest)
  }

  function RenderFilename(pieces: seq<Piece>, facts: Facts, lib: Library): Result<string, RenderError>
    decreases |pieces|
  {
    if pieces == [] then Ok("")
    else
      var head :- (match pieces[0]
                   case Text(text) => Ok(text)
                   case Hole(path) => var v :- Resolve(path, facts); Ok(lib.text(v)));
      var rest :- RenderFilename(pieces[1..], facts, lib);
      Ok(head + rest)
  }

  datatype Content = CsvRow(row: seq<Value>) | XmlDocument(body: Value)

  datatype Rendered =
    | Request(url: string, secret: Option<string>, body: Value)
    | Upload(remotePath: string, filename: string, content: Content)

  function RenderStep(d: CarrierDefinition, step: Step, facts: Facts, lib: Library): Result<Rendered, RenderError> {
    if IsUpload(step.transport) then
      var remote :- Resolve(step.url, facts);
      var content :- (if step.contentType == Xml then
                        var body :- RenderMapping(step.mapping, facts, lib);
                        if lib.xmlLegal(body) then Ok(XmlDocument(body)) else Err(IllegalXml)
                      else
                        var row :- RenderRow(step.mapping, facts, lib);
                        Ok(CsvRow(row)));
      var filename :- RenderFilename(if step.filename.Some? then step.filename.value else [], facts, lib);
      Ok(Upload(lib.text(remote), filename, content))
    else
      var url :- Resolve(step.url, facts);
      var secret :- (if step.transport == Http && (d.auth.QueryKey? || d.auth.HeaderKey?) then
                       var s :- Resolve(d.auth.secret, facts);
                       Ok(Some(lib.text(s)))
                     else Ok(None));
      var body :- RenderMapping(step.mapping, facts, lib);
      Ok(Request(lib.text(url), secret, body))
  }

  // ---------------------------------------------------------------------------------------------
  // A mapping with accepted targets renders to exactly its entries.
  // ---------------------------------------------------------------------------------------------

  function ValuesOf(entries: seq<Entry>, facts: Facts, lib: Library): seq<Value> {
    seq(|entries|, i requires 0 <= i < |entries| =>
      match RenderEntry(entries[i], facts, lib) case Ok(v) => v case Err(_) => Null)
  }

  lemma {:induction false} RenderIsPlace(body: Value, entries: seq<Entry>, facts: Facts, lib: Library)
    requires RenderInto(body, entries, facts, lib).Ok?
    ensures forall i :: 0 <= i < |entries| ==> RenderEntry(entries[i], facts, lib).Ok?
    ensures Place(body, PathsOf(entries), ValuesOf(entries, facts, lib)) ==
            Ok(RenderInto(body, entries, facts, lib).value)
    decreases |entries|
  {
    if entries != [] {
      var v := RenderEntry(entries[0], facts, lib).value;
      RenderIsPlace(Insert(body, ParseTarget(entries[0].target), v).value, entries[1..], facts, lib);
      assert PathsOf(entries)[1..] == PathsOf(entries[1..]);
      assert ValuesOf(entries, facts, lib)[1..] == ValuesOf(entries[1..], facts, lib);
    }
  }

  /** Every target of a rendered mapping reads back as exactly its entry's value, whatever that value is,
      and nothing stands anywhere else. */
  lemma RenderedMappingPlaces(entries: seq<Entry>, facts: Facts, lib: Library)
    requires TargetsValid(entries) && RenderMapping(entries, facts, lib).Ok?
    ensures var body := RenderMapping(entries, facts, lib).value;
            && (forall i :: 0 <= i < |entries| ==>
                  && RenderEntry(entries[i], facts, lib).Ok?
                  && Get(body, ParseTarget(entries[i].target)) == Some(RenderEntry(entries[i], facts, lib).value))
            && (forall q :: Get(body, q).Some? ==>
                  q == [] || exists i :: 0 <= i < |entries| && Related(q, PathsOf(entries)[i]))
  {
    RenderIsPlace(Obj(map[]), entries, facts, lib);
    AcceptedTargetsHoldTheirValues(PathsOf(entries), ValuesOf(entries, facts, lib));
    forall i | 0 <= i < |entries|
      ensures Get(RenderMapping(entries, facts, lib).value, ParseTarget(entries[i].target)) ==
              Some(RenderEntry(entries[i], facts, lib).value)
    {
      assert PathsOf(entries)[i] == ParseTarget(entries[i].target);
      assert ValuesOf(entries, facts, lib)[i] == RenderEntry(entries[i], facts, lib).value;
    }
  }

  // ---------------------------------------------------------------------------------------------
  // What can still go wrong in rendering a checked step.
  // ---------------------------------------------------------------------------------------------

  function Root(source: string): string {
    Split(source)[0]
  }

  /** `source` is read somewhere in the entry, at any depth. */
  predicate Reads(e: Entry, source: string)
    decreases e
  {
    e.origin.Source? &&
    (|| e.origin.path == source
     || (e.origin.how.Pluck? && e.origin.how.item == source)
     || (e.origin.how.Each? && exists inner :: inner in e.origin.how.inner && Reads(inner, source)))
  }

  predicate ReadsAny(entries: seq<Entry>, source: string) {
    exists e :: e in entries && Reads(e, source)
  }

  /** A failure that accepted targets leave possible: a fact that is missing is one the entries read,
      and either belongs to an item or is missing from the facts themselves. */
  predicate Explained(error: RenderError, entries: seq<Entry>, facts: Facts) {
    && !error.TargetConflict?
    && (error.NoFact? ==>
          && ReadsAny(entries, error.path)
          && (Root(error.path) == "item" || Walk(Obj(facts), Split(error.path)).None?))
  }

  predicate InnerTargetsValid(e: Entry) {
    e.origin.Source? && e.origin.how.Each? ==> TargetsValid(e.origin.how.inner)
  }

  lemma RootDecides(source: string, facts: Facts, item: Value)
    requires Root(source) != "item"
    ensures Walk(Obj(facts["item" := item]), Split(source)) == Walk(Obj(facts), Split(source))
  {
  }

  lemma {:induction false} EntryErrors(e: Entry, facts: Facts, lib: Library)
    requires InnerTargetsValid(e) && RenderEntry(e, facts, lib).Err?
    ensures Explained(RenderEntry(e, facts, lib).error, [e], facts)
    decreases e, 0, 0
  {
    assert e in [e];
    if e.origin.Source? && Resolve(e.origin.path, facts).Ok? {
      var v := Resolve(e.origin.path, facts).value;
      if e.origin.how.Each? && v.List? {
        ItemErrors(e.origin.how.inner, v.items, facts, lib);
      } else if e.origin.how.Pluck? && v.List? {
        PluckErrors(e.origin.how.item, v.items, facts);
      }
    }
  }

  lemma {:induction false} ItemErrors(inner: seq<Entry>, items: seq<Value>, facts: Facts, lib: Library)
    requires TargetsValid(inner) && RenderItems(inner, items, facts, lib).Err?
    ensures Explained(RenderItems(inner, items, facts, lib).error, inner, facts)
    decreases inner, 1, |items|
  {
    var bound := facts["item" := items[0]];
    if RenderInto(Obj(map[]), inner, bound, lib).Err? {
      var error := RenderInto(Obj(map[]), inner, bound, lib).error;
      MappingErrors(Obj(map[]), Obj(map[]), inner, bound, lib);
      if error.NoFact? && Root(error.path) != "item" {
        RootDecides(error.path, facts, items[0]);
      }
    } else {
      ItemErrors(inner, items[1..], facts, lib);
    }
  }

  lemma {:induction false} PluckErrors(item: string, items: seq<Value>, facts: Facts)
    requires PluckItems(item, items, facts).Err?
    ensures var error := PluckItems(item, items, facts).error;
            error.CompoundPluck? ||
            (error == NoFact(item) && (Root(item) == "item" || Walk(Obj(facts), Split(item)).None?))
    decreases |items|
  {
    if Root(item) != "item" {
      RootDecides(item, facts, items[0]);
    }
    if Resolve(item, facts["item" := items[0]]).Ok? && !IsContainer(Resolve(item, facts["item" := items[0]]).value) {
      PluckErrors(item, items[1..], facts);
    }
  }

  lemma {:induction false} MappingErrors(probe: Value, body: Value, entries: seq<Entry>, facts: Facts, lib: Library)
    requires Sim(probe, body) && DryRun(probe, PathsOf(entries)).Ok?
    requires forall e :: e in entries ==> InnerTargetsValid(e)
    requires RenderInto(body, entries, facts, lib).Err?
    ensures Explained(RenderInto(body, entries, facts, lib).error, entries, facts)
    decreases entries, 0, 0
  {
    var path := ParseTarget(entries[0].target);
    assert PathsOf(entries)[1..] == PathsOf(entries[1..]);
    assert Nulls(|entries|)[1..] == Nulls(|entries| - 1);
    if RenderEntry(entries[0], facts, lib).Err? {
      EntryErrors(entries[0], facts, lib);
    } else {
      var v := RenderEntry(entries[0], facts, lib).value;
      InsertSimulates(probe, body, path, v);
      MappingErrors(Insert(probe, path, Null).value, Insert(body, path, v).value, entries[1..], facts, lib);
    }
  }

  lemma {:induction false} RowErrors(entries: seq<Entry>, facts: Facts, lib: Library)
    requires forall e :: e in entries ==> InnerTargetsValid(e)
    requires RenderRow(entries, facts, lib).Err?
    ensures Explained(RenderRow(entries, facts, lib).error, entries, facts)
    decreases |entries|
  {
    if RenderEntry(entries[0], facts, lib).Err? {
      EntryErrors(entries[0], facts, lib);
    } else if !IsContainer(RenderEntry(entries[0], facts, lib).value) {
      RowErrors(entries[1..], facts, lib);
    }
  }

  lemma {:induction false} FilenameErrors(pieces: seq<Piece>, facts: Facts, lib: Library)
    requires RenderFilename(pieces, facts, lib).Err?
    ensures var error := RenderFilename(pieces, facts, lib).error;
            error.NoFact? && Hole(error.path) in pieces && Walk(Obj(facts), Split(error.path)).None?
    decreases |pieces|
  {
    if pieces[0].Text? || Resolve(pieces[0].path, facts).Ok? {
      FilenameErrors(pieces[1..], facts, lib);
    }
  }

  /** `source` is read when the step renders. */
  predicate StepReads(d: CarrierDefinition, step: Step, source: string) {
    || source == step.url
    || source in Holes(step)
    || ReadsAny(step.mapping, source)
    || (!IsUpload(step.transport) && SecretOf(d.auth) == Some(source))
  }

  /** Rendering a step with accepted targets never conflicts, and a fact it misses is one it reads. */
  lemma StepErrors(d: CarrierDefinition, step: Step, facts: Facts, lib: Library)
    requires TargetsValid(step.mapping) && RenderStep(d, step, facts, lib).Err?
    ensures var error := RenderStep(d, step, facts, lib).error;
            && !error.TargetConflict?
            && (error.NoFact? ==>
                  && StepReads(d, step, error.path)
                  && (Root(error.path) == "item" || Walk(Obj(facts), Split(error.path)).None?))
  {
    if RenderMapping(step.mapping, facts, lib).Err? {
      MappingErrors(Obj(map[]), Obj(map[]), step.mapping, facts, lib);
    }
    if RenderRow(step.mapping, facts, lib).Err? {
      RowErrors(step.mapping, facts, lib);
    }
    var pieces := if step.filename.Some? then step.filename.value else [];
    if RenderFilename(pieces, facts, lib).Err? {
      FilenameErrors(pieces, facts, lib);
    }
  }

  // ---------------------------------------------------------------------------------------------
  // References to the outputs of earlier steps.
  // ---------------------------------------------------------------------------------------------

  predicate IsStepSource(source: string) {
    Root(source) == "steps"
  }

  /** A source steps.<name>.<output>.<rest> whose output is there; only the rest is not. */
  predicate BeyondOutput(source: string, facts: Facts) {
    |Split(source)| > 3 && Walk(Obj(facts), Split(source)[..3]).Some?
  }

  /** The facts hold every output the checker believes the steps so far have. */
  predicate OutputsCover(facts: Facts, known: KnownSteps) {
    && "steps" in facts
    && facts["steps"].Obj?
    && forall name :: name in known && known[name] != {} ==>
         && name in facts["steps"].fields
         && facts["steps"].fields[name].Obj?
         && known[name] <= facts["steps"].fields[name].fields.Keys
  }

  lemma {:induction false} ReadSourceValid(e: Entry, source: string, known: KnownSteps, inEach: bool,
                                           roots: set<string>)
    requires ValidEntry(e, known, inEach, roots) && Reads(e, source)
    ensures ValidSource(source, known, true, roots)
    decreases e
  {
    if e.origin.how.Each? && e.origin.path != source {
      var inner :| inner in e.origin.how.inner && Reads(inner, source);
      ReadSourceValid(inner, source, known, true, roots);
    }
  }

  /** A step output the checker accepted is there when the step renders; what a longer source asks of it may not
      be, for the checker cannot know what the carrier will send. */
  lemma StepOutputResolves(source: string, known: KnownSteps, roots: set<string>, facts: Facts)
    requires ValidSource(source, known, true, roots) && "steps" !in roots
    requires IsStepSource(source) && OutputsCover(facts, known)
    ensures |Split(source)| >= 3 && Walk(Obj(facts), Split(source)[..3]).Some?
    ensures |Split(source)| == 3 ==> Walk(Obj(facts), Split(source)).Some?
  {
    var parts := Split(source)[..3];
    WalkThree(Obj(facts), parts);
    assert known[parts[1]] != {};
    assert |Split(source)| == 3 ==> Split(source) == parts;
  }

  lemma WalkThree(node: Value, parts: seq<string>)
    requires |parts| == 3 && Child(node, parts[0]).Some?
    requires Child(Child(node, parts[0]).value, parts[1]).Some?
    ensures Walk(node, parts) == Child(Child(Child(node, parts[0]).value, parts[1]).value, parts[2])
  {
    assert parts[1..][1..] == [parts[2]] && [parts[2]][1..] == [];
    var second := Child(node, parts[0]).value;
    var third := Child(second, parts[1]).value;
    assert Walk(node, parts) == Walk(second, parts[1..]);
    assert Walk(second, parts[1..]) == Walk(third, [parts[2]]);
    assert Child(third, parts[2]).Some? ==> Walk(Child(third, parts[2]).value, []) == Child(third, parts[2]);
  }

  /** No earlier step's output is missing when a checked step renders: of a missing `steps.` source the output is
      there, and only what the source goes on to ask of it is not. */
  lemma CheckedStepErrors(d: CarrierDefinition, step: Step, known: KnownSteps, roots: set<string>, facts: Facts,
                          lib: Library)
    requires TargetsValid(step.mapping) && ValidStepSources(step, known, roots) && "steps" !in roots
    requires SecretOf(d.auth).Some? ==> ValidSource(SecretOf(d.auth).value, map[], false, roots)
    requires OutputsCover(facts, known)
    requires RenderStep(d, step, facts, lib).Err?
    ensures var error := RenderStep(d, step, facts, lib).error;
            !error.TargetConflict? && (error.NoFact? && IsStepSource(error.path) ==> BeyondOutput(error.path, facts))
  {
    StepErrors(d, step, facts, lib);
    var error := RenderStep(d, step, facts, lib).error;
    if error.NoFact? && IsStepSource(error.path) {
      if ReadsAny(step.mapping, error.path) {
        var e :| e in step.mapping && Reads(e, error.path);
        ReadSourceValid(e, error.path, known, false, roots);
      }
      StepOutputResolves(error.path, known, roots, facts);
    }
  }
}
