/** The Carrier Definition schema and its authoring checks (domain/carrier_definition.py). */
module Definition {
  import opened Prelude
  import opened Targets
  import opened Values

  datatype Transform =
    | JoinWith(glue: string)
    | Uppercase
    | Lowercase
    | SplitOn(on: string)
    | LookUp(table: map<string, string>)
    | Format(template: string)

  /** A mapping entry has exactly one origin, and `each`, `pluck` and a transform exclude one another. */
  datatype Entry = Entry(target: string, origin: Origin)
  datatype Origin = Const(text: string) | Plugin(name: string) | Source(path: string, how: How)
  datatype How = Plain | Transformed(t: Transform) | Each(inner: seq<Entry>) | Pluck(item: string)

  datatype Transport = Http | FtpUpload | SftpUpload | LocalRender
  datatype ContentType = Form | Json | Csv | Xml

  /** A filename template, cut at its `{fact.path}` placeholders. */
  datatype Piece = Text(text: string) | Hole(path: string)

  datatype Extraction = Extraction(name: string, path: string, transform: Option<Transform>)
  datatype Condition = Condition(path: string, equals: Option<string>)
  datatype ResponseSpec = ResponseSpec(successWhen: Option<Condition>, extract: seq<Extraction>)

  datatype Step = Step(
    name: string,
    transport: Transport,
    url: string,
    filename: Option<seq<Piece>>,
    contentType: ContentType,
    mapping: seq<Entry>,
    response: Option<ResponseSpec>)

  datatype LabelSource = LocalLabel | Base64Pdf | PngPages | FetchStep
  datatype LabelSpec = LabelSpec(source: LabelSource, fromExtract: Option<string>)

  datatype Operation = Operation(
    steps: seq<Step>,
    labelSpec: Option<LabelSpec>,
    fanOut: bool,
    allocate: seq<string>)  // the prefix source of each allocation

  datatype Auth =
    | QueryKey(secret: string)
    | HeaderKey(secret: string)
    | NoAuth
    | PluginAuth(plugin: string, configKeys: set<string>)

  datatype CarrierDefinition = CarrierDefinition(auth: Auth, operations: map<string, Operation>)

  predicate IsUpload(t: Transport) {
    t in {FtpUpload, SftpUpload}
  }

  // ---------------------------------------------------------------------------------------------
  // Targets.
  // ---------------------------------------------------------------------------------------------

  function PathsOf(entries: seq<Entry>): (paths: seq<Path>)
    ensures |paths| == |entries| && forall i :: 0 <= i < |paths| ==> |paths[i]| >= 1
  {
    seq(|entries|, i requires 0 <= i < |entries| => ParseTarget(entries[i].target))
  }

  predicate TargetsValid(entries: seq<Entry>)
    decreases entries
  {
    && DryRun(Obj(map[]), PathsOf(entries)).Ok?
    && forall e :: e in entries && e.origin.Source? && e.origin.how.Each? ==> TargetsValid(e.origin.how.inner)
  }

  /** The targets are compatible, and so are those inside every `each`, at any depth. */
  predicate CompatibleThroughout(entries: seq<Entry>)
    decreases entries
  {
    && Compatible(PathsOf(entries))
    && forall e :: e in entries && e.origin.Source? && e.origin.how.Each? ==> CompatibleThroughout(e.origin.how.inner)
  }

  lemma {:induction false} TargetsValidExactlyWhen(entries: seq<Entry>)
    ensures TargetsValid(entries) <==> CompatibleThroughout(entries)
    decreases entries
  {
    DryRunAcceptsCompatible(PathsOf(entries));
    forall e | e in entries && e.origin.Source? && e.origin.how.Each?
      ensures TargetsValid(e.origin.how.inner) <==> CompatibleThroughout(e.origin.how.inner)
    {
      TargetsValidExactlyWhen(e.origin.how.inner);
    }
  }

  lemma ProbeNext(probe: Value, entries: seq<Entry>, i: nat)
    requires i < |entries|
    ensures var placed := Insert(probe, ParseTarget(entries[i].target), Null);
            DryRun(probe, PathsOf(entries)[i..]).Ok? <==>
            placed.Ok? && DryRun(placed.value, PathsOf(entries)[i + 1..]).Ok?
  {
    assert PathsOf(entries)[i..][1..] == PathsOf(entries)[i + 1..];
    assert Nulls(|entries| - i)[1..] == Nulls(|entries| - i - 1);
  }

  /** The check as the program runs it: one probe, filled target by target. */
  method ValidateMappingTargets(entries: seq<Entry>) returns (ok: bool)
    ensures ok == TargetsValid(entries)
    decreases entries
  {
    var probe := Obj(map[]);
    assert PathsOf(entries)[0..] == PathsOf(entries);
    for i := 0 to |entries|
      invariant DryRun(Obj(map[]), PathsOf(entries)).Ok? <==> DryRun(probe, PathsOf(entries)[i..]).Ok?
      invariant forall j :: 0 <= j < i && entries[j].origin.Source? && entries[j].origin.how.Each? ==>
                  TargetsValid(entries[j].origin.how.inner)
    {
      var placed := Insert(probe, ParseTarget(entries[i].target), Null);
      ProbeNext(probe, entries, i);
      if placed.Err? {
        return false;
      }
      probe := placed.value;
      if entries[i].origin.Source? && entries[i].origin.how.Each? {
        var inner := ValidateMappingTargets(entries[i].origin.how.inner);
        if !inner {
          assert entries[i] in entries;
          return false;
        }
      }
    }
    ok := true;
  }

  // ---------------------------------------------------------------------------------------------
  // Sources.
  // ---------------------------------------------------------------------------------------------

  /** The step outputs a source may name: the extractions of each earlier step. */
  type KnownSteps = map<string, set<string>>

  const FACT_ROOTS := {"shipment", "warehouse", "config"}
  const MANIFEST_FACT_ROOTS := {"manifest", "warehouse", "config"}

  function FactRoots(operation: string, fanOut: bool): set<string> {
    if operation == "manifest" && !fanOut then MANIFEST_FACT_ROOTS else FACT_ROOTS
  }

  /** Python's whitespace, as `\s` and `strip` have it. */
  predicate IsSpace(c: char) {
    || '\t' <= c <= '\r'
    || '\U{1c}' <= c <= ' '
    || c in "\U{85}\U{a0}\U{1680}"
    || '\U{2000}' <= c <= '\U{200a}'
    || c in "\U{2028}\U{2029}\U{202f}\U{205f}\U{3000}"
  }

  predicate WellFormed(source: string) {
    forall i :: 0 <= i < |Split(source)| ==>
      Split(source)[i] != "" && forall j :: 0 <= j < |Split(source)[i]| ==> !IsSpace(Split(source)[i][j])
  }

  predicate ValidSource(source: string, known: KnownSteps, inEach: bool, roots: set<string>) {
    var parts := Split(source);
    && WellFormed(source)
    && (|| parts[0] in roots
        || (inEach && parts[0] == "item")
        || (&& parts[0] == "steps"
            && |parts| >= 3
            && parts[1] in known
            && parts[2] in known[parts[1]]))
  }

  predicate ValidEntry(e: Entry, known: KnownSteps, inEach: bool, roots: set<string>)
    decreases e
  {
    e.origin.Source? ==>
      && ValidSource(e.origin.path, known, inEach, roots)
      && (e.origin.how.Pluck? ==> ValidSource(e.origin.how.item, known, true, roots))
      && (e.origin.how.Each? ==>
            forall inner :: inner in e.origin.how.inner ==> ValidEntry(inner, known, true, roots))
  }

  function Holes(step: Step): set<string> {
    if step.filename.None? then {}
    else set p | p in step.filename.value && p.Hole? :: p.path
  }

  predicate ValidStepSources(step: Step, known: KnownSteps, roots: set<string>) {
    && ValidSource(step.url, known, false, roots)
    && (forall p :: p in Holes(step) ==> ValidSource(p, known, false, roots))
    && (forall e :: e in step.mapping ==> ValidEntry(e, known, false, roots))
  }

  function Extracts(step: Step): set<string> {
    if step.response.None? then {} else set x | x in step.response.value.extract :: x.name
  }

  /** Each step's sources name only outputs of the steps before it. */
  predicate StepsResolve(steps: seq<Step>, known: KnownSteps, roots: set<string>)
    decreases |steps|
  {
    steps != [] ==>
      && ValidStepSources(steps[0], known, roots)
      && StepsResolve(steps[1..], known[steps[0].name := Extracts(steps[0])], roots)
  }

  /** The check as the program runs it: `earlier` grows step by step. */
  method SourcesResolve(steps: seq<Step>, roots: set<string>) returns (ok: bool)
    ensures ok == StepsResolve(steps, map[], roots)
    ensures ok <==> AllReadable(steps, roots)
  {
    ResolveExactlyWhen(steps, roots);
    var earlier: KnownSteps := map[];
    for i := 0 to |steps|
      invariant StepsResolve(steps, map[], roots) == StepsResolve(steps[i..], earlier, roots)
    {
      if !ValidStepSources(steps[i], earlier, roots) {
        return false;
      }
      assert steps[i..][1..] == steps[i + 1..];
      earlier := earlier[steps[i].name := Extracts(steps[i])];
    }
    ok := true;
  }

  /** The j-th step is the last of the first `n` to have this name. */
  predicate LastNamed(steps: seq<Step>, n: nat, name: string, j: nat)
    requires n <= |steps|
  {
    j < n && steps[j].name == name && forall k :: j < k < n ==> steps[k].name != name
  }

  predicate Gives(step: Step, output: string) {
    step.response.Some? && exists x :: x in step.response.value.extract && x.name == output
  }

  /** The last of the first `n` steps that has this name extracts this output. */
  predicate GivenBefore(steps: seq<Step>, n: nat, name: string, output: string)
    requires n <= |steps|
  {
    exists j :: 0 <= j < n && LastNamed(steps, n, name, j) && Gives(steps[j], output)
  }

  /** A source the n-th step may read: well formed, and rooted in the facts, in the item of a list it is read for, or
      in an output of a step before it. */
  predicate Readable(source: string, steps: seq<Step>, n: nat, inEach: bool, roots: set<string>)
    requires n <= |steps|
  {
    var parts := Split(source);
    && (forall i, j :: 0 <= i < |parts| && 0 <= j < |parts[i]| ==> !IsSpace(parts[i][j]))
    && (forall i :: 0 <= i < |parts| ==> |parts[i]| >= 1)
    && (if parts[0] in roots then true
        else if parts[0] == "item" && inEach then true
        else parts[0] == "steps" && |parts| >= 3 && GivenBefore(steps, n, parts[1], parts[2]))
  }

  /** An entry reads a source, at any depth; `forItem` says whether it does so item by item. */
  predicate ReadsAt(e: Entry, source: string, inEach: bool, forItem: bool)
    decreases e
  {
    && e.origin.Source?
    && (|| (e.origin.path == source && forItem == inEach)
        || (e.origin.how.Pluck? && e.origin.how.item == source && forItem)
        || (e.origin.how.Each? && exists inner :: inner in e.origin.how.inner && ReadsAt(inner, source, true, forItem)))
  }

  /** Every source of a step: its url's, its filename's, and its entries'. */
  predicate StepReadsAt(step: Step, source: string, forItem: bool) {
    || (!forItem && source == step.url)
    || (!forItem && step.filename.Some? && Hole(source) in step.filename.value)
    || exists e :: e in step.mapping && ReadsAt(e, source, false, forItem)
  }

  lemma {:induction false} EntryReadsExactly(e: Entry, known: KnownSteps, inEach: bool, roots: set<string>)
    ensures ValidEntry(e, known, inEach, roots) <==>
            forall source, forItem :: ReadsAt(e, source, inEach, forItem) ==> ValidSource(source, known, forItem, roots)
    decreases e
  {
    if e.origin.Source? {
      var path := e.origin.path;
      assert ReadsAt(e, path, inEach, inEach);
      match e.origin.how
      case Pluck(item) => assert ReadsAt(e, item, inEach, true);
      case Each(inner) =>
        forall x | x in inner
          ensures ValidEntry(x, known, true, roots) <==>
                  forall source, forItem :: ReadsAt(x, source, true, forItem) ==>
                    ValidSource(source, known, forItem, roots)
        {
          EntryReadsExactly(x, known, true, roots);
        }
        forall x, source, forItem | x in inner && ReadsAt(x, source, true, forItem)
          ensures ReadsAt(e, source, inEach, forItem)
        {
        }
      case _ =>
    }
  }

  lemma StepReadsExactly(step: Step, known: KnownSteps, roots: set<string>)
    ensures ValidStepSources(step, known, roots) <==>
            forall source, forItem :: StepReadsAt(step, source, forItem) ==> ValidSource(source, known, forItem, roots)
  {
    forall e | e in step.mapping
      ensures ValidEntry(e, known, false, roots) <==>
              forall source, forItem :: ReadsAt(e, source, false, forItem) ==>
                ValidSource(source, known, forItem, roots)
    {
      EntryReadsExactly(e, known, false, roots);
    }
    assert StepReadsAt(step, step.url, false);
    forall p | p in Holes(step)
      ensures StepReadsAt(step, p, false)
    {
      assert Hole(p) in step.filename.value;
    }
    forall e, source, forItem | e in step.mapping && ReadsAt(e, source, false, forItem)
      ensures StepReadsAt(step, source, forItem)
    {
    }
  }

  predicate Knows(known: KnownSteps, name: string, output: string) {
    name in known && output in known[name]
  }

  /** `known` is what the first `n` steps extract. */
  ghost predicate KnownAfter(steps: seq<Step>, n: nat, known: KnownSteps)
    requires n <= |steps|
  {
    forall name, output :: Knows(known, name, output) <==> GivenBefore(steps, n, name, output)
  }

  lemma ExtractsGiven(step: Step, output: string)
    ensures output in Extracts(step) <==> Gives(step, output)
  {
  }

  lemma GivenNext(steps: seq<Step>, n: nat, name: string, output: string)
    requires n < |steps|
    ensures GivenBefore(steps, n + 1, name, output) <==>
            if name == steps[n].name then Gives(steps[n], output) else GivenBefore(steps, n, name, output)
  {
    if name == steps[n].name {
      assert LastNamed(steps, n + 1, name, n);
    } else {
      assert forall j: nat :: LastNamed(steps, n + 1, name, j) <==> LastNamed(steps, n, name, j);
    }
  }

  lemma KnownNext(steps: seq<Step>, n: nat, known: KnownSteps)
    requires n < |steps| && KnownAfter(steps, n, known)
    ensures KnownAfter(steps, n + 1, known[steps[n].name := Extracts(steps[n])])
  {
    var next := known[steps[n].name := Extracts(steps[n])];
    forall name, output
      ensures Knows(next, name, output) <==> GivenBefore(steps, n + 1, name, output)
    {
      GivenNext(steps, n, name, output);
      ExtractsGiven(steps[n], output);
      assert Knows(known, name, output) <==> GivenBefore(steps, n, name, output);
    }
  }

  lemma {:induction false} ResolveFrom(steps: seq<Step>, n: nat, known: KnownSteps, roots: set<string>)
    requires n <= |steps| && KnownAfter(steps, n, known)
    ensures StepsResolve(steps[n..], known, roots) <==>
            forall i, source, forItem :: n <= i < |steps| && StepReadsAt(steps[i], source, forItem) ==>
              Readable(source, steps, i, forItem, roots)
    decreases |steps| - n
  {
    if n < |steps| {
      KnownNext(steps, n, known);
      ResolveFrom(steps, n + 1, known[steps[n].name := Extracts(steps[n])], roots);
      StepReadsExactly(steps[n], known, roots);
      assert steps[n..][1..] == steps[n + 1..];
      forall source, forItem
        ensures ValidSource(source, known, forItem, roots) <==> Readable(source, steps, n, forItem, roots)
      {
      }
    }
  }

  ghost predicate AllReadable(steps: seq<Step>, roots: set<string>) {
    forall i, source, forItem :: 0 <= i < |steps| && StepReadsAt(steps[i], source, forItem) ==>
      Readable(source, steps, i, forItem, roots)
  }

  /** An operation's sources are accepted exactly when each step may read every source it does. */
  lemma ResolveExactlyWhen(steps: seq<Step>, roots: set<string>)
    ensures StepsResolve(steps, map[], roots) <==> AllReadable(steps, roots)
  {
    ResolveFrom(steps, 0, map[], roots);
    assert steps[0..] == steps;
  }

  function SecretOf(auth: Auth): Option<string> {
    if auth.QueryKey? || auth.HeaderKey? then Some(auth.secret) else None
  }

  /** One auth block serves every operation, so its secret must be a fact of them all. */
  predicate AuthSourceValid(d: CarrierDefinition) {
    SecretOf(d.auth).Some? ==>
      if d.operations == map[] then ValidSource(SecretOf(d.auth).value, map[], false, FACT_ROOTS)
      else forall name :: name in d.operations ==>
             ValidSource(SecretOf(d.auth).value, map[], false, FactRoots(name, d.operations[name].fanOut))
  }

  predicate SourcesValid(d: CarrierDefinition) {
    && AuthSourceValid(d)
    && forall name :: name in d.operations ==>
         StepsResolve(d.operations[name].steps, map[], FactRoots(name, d.operations[name].fanOut))
  }

  /** The facts an operation is run with: a manifest's own when one document covers it, a shipment's otherwise. */
  function RootsFor(name: string, op: Operation): set<string> {
    {"warehouse", "config"} + if name == "manifest" && !op.fanOut then {"manifest"} else {"shipment"}
  }

  /** Every step of every operation may read what it reads, and the auth secret is a fact of them all. */
  ghost predicate DefinitionReadable(d: CarrierDefinition) {
    && (forall name :: name in d.operations ==>
          AllReadable(d.operations[name].steps, RootsFor(name, d.operations[name])))
    && (d.auth.QueryKey? || d.auth.HeaderKey? ==>
          && (forall name :: name in d.operations ==>
                Readable(d.auth.secret, [], 0, false, RootsFor(name, d.operations[name])))
          && (d.operations == map[] ==> Readable(d.auth.secret, [], 0, false, {"shipment", "warehouse", "config"})))
  }

  lemma SourcesValidExactlyWhen(d: CarrierDefinition)
    ensures SourcesValid(d) <==> DefinitionReadable(d)
  {
    forall name | name in d.operations
      ensures var (steps, roots) := (d.operations[name].steps, FactRoots(name, d.operations[name].fanOut));
              && roots == RootsFor(name, d.operations[name])
              && (StepsResolve(steps, map[], roots) <==> AllReadable(steps, roots))
    {
      ResolveExactlyWhen(d.operations[name].steps, FactRoots(name, d.operations[name].fanOut));
    }
    forall source, roots
      ensures ValidSource(source, map[], false, roots) <==> Readable(source, [], 0, false, roots)
    {
    }
  }

  /** The fact roots every operation has. */
  method CommonRoots(operations: map<string, Operation>) returns (common: set<string>)
    requires operations != map[]
    ensures forall root :: root in common <==>
              forall name :: name in operations ==> root in FactRoots(name, operations[name].fanOut)
  {
    var first :| first in operations;
    common := FactRoots(first, operations[first].fanOut);
    var left := operations.Keys - {first};
    while left != {}
      invariant left <= operations.Keys
      invariant forall root :: root in common <==>
                  forall name :: name in operations && name !in left ==>
                    root in FactRoots(name, operations[name].fanOut)
      decreases |left|
    {
      var name :| name in left;
      common := common * FactRoots(name, operations[name].fanOut);
      left := left - {name};
    }
  }

  /** The definition's whole source check: the secret against the roots common to all operations, then each
      operation's steps. */
  method ValidateSources(d: CarrierDefinition) returns (ok: bool)
    ensures ok == SourcesValid(d)
    ensures ok <==> DefinitionReadable(d)
  {
    SourcesValidExactlyWhen(d);
    if SecretOf(d.auth).Some? {
      var common := FACT_ROOTS;
      if d.operations != map[] {
        common := CommonRoots(d.operations);
      }
      if !ValidSource(SecretOf(d.auth).value, map[], false, common) {
        return false;
      }
    }
    var left := d.operations.Keys;
    while left != {}
      invariant AuthSourceValid(d) && left <= d.operations.Keys
      invariant forall name :: name in d.operations && name !in left ==>
                  StepsResolve(d.operations[name].steps, map[], FactRoots(name, d.operations[name].fanOut))
      decreases |left|
    {
      var name :| name in left;
      var resolves := SourcesResolve(d.operations[name].steps, FactRoots(name, d.operations[name].fanOut));
      if !resolves {
        return false;
      }
      left := left - {name};
    }
    ok := true;
  }

  // ---------------------------------------------------------------------------------------------
  // Shapes.
  // ---------------------------------------------------------------------------------------------

  predicate IsConfigSource(source: string) {
    "config." <= source
  }

  /** The rules on a step's transport and content type, authoring policy included. */
  predicate ValidStepShape(step: Step) {
    && (if IsUpload(step.transport) then
          && step.filename.Some?
          && step.contentType in {Csv, Xml}
          && step.response.None?
          && IsConfigSource(step.url)
        else
          && step.filename.None?
          && step.transport == Http
          && step.contentType in {Json, Form})
    && (step.contentType == Csv ==>
          forall e :: e in step.mapping && e.origin.Source? ==>
            !e.origin.how.Each? && !e.origin.how.Pluck? && !(e.origin.how.Transformed? && e.origin.how.t.SplitOn?))
  }

  predicate ValidOperation(op: Operation) {
    && (op.steps == [] ==> op.labelSpec.Some? && op.labelSpec.value.source == LocalLabel)
    && (forall s :: s in op.steps ==> ValidStepShape(s) && TargetsValid(s.mapping))
    && (op.labelSpec.Some? && op.labelSpec.value.source == Base64Pdf ==>
          && op.labelSpec.value.fromExtract.Some?
          && exists s :: s in op.steps && op.labelSpec.value.fromExtract.value in Extracts(s))
  }

  /** A definition the publish gate accepts. */
  predicate StrictlyValid(d: CarrierDefinition) {
    && SourcesValid(d)
    && forall name :: name in d.operations ==>
         var op := d.operations[name];
         && ValidOperation(op)
         && (op.fanOut ==> name == "manifest" && forall s :: s in op.steps ==> IsUpload(s.transport))
         && (op.allocate != [] ==> name == "book" && |op.allocate| == 1 && IsConfigSource(op.allocate[0]))
  }
}
