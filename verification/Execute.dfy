/** The executor (engine/execute.py): runs an operation's steps in order, feeding each step's extractions
    to the later ones and recording every send. */
module Execute {
  import opened ConfigKeys
  import opened Definition
  import opened Prelude
  import opened Render
  import opened Targets
  import opened Values

  /** A parsed response: a JSON document, or an XML one known only by what its paths find. */
  datatype Document = JsonDocument(root: Value) | XmlDocument(find: string -> Option<string>)

  function LookupIn(doc: Document, path: string): Option<Value> {
    match doc
    case JsonDocument(root) => Walk(root, Split(path))
    case XmlDocument(find) => match find(path) case None => None case Some(text) => Some(Str(text))
  }

  /** What the world answers to one step, whichever way the step turns to it. A body that does not parse
      is absent. */
  datatype Answer = Answer(upload: UploadAnswer, auth: AuthAnswer, reply: Reply)
  datatype UploadAnswer = NoUploader | UploadRefused | Uploaded
  datatype AuthAnswer = AuthOk | AuthUnavailable | AuthNotRegistered
  datatype Reply = Unreachable | Reply(status: int, body: Option<Document>)

  datatype Reason =
    | RenderFailed(error: RenderError)
    | AuthFailed
    | UploadFailed
    | NoReply
    | HttpStatus(status: int)
    | Unparseable
    | ConditionFailed
    | ExtractFailed

  /** How a run stops short: a carrier call error, NotImplementedError, or a ValueError nobody catches. */
  datatype Failure = CarrierCall(reason: Reason) | NotImplemented | Uncaught

  datatype StepRecord = StepRecord(step: string, request: Rendered, status: Option<int>, success: bool)

  type Outputs = map<string, Value>

  /** `sends` lists the steps whose upload or request left; `recorded` is what the recorder was handed. */
  datatype Progress = Progress(
    records: seq<StepRecord>,
    recorded: seq<StepRecord>,
    sends: seq<string>,
    stepOutputs: map<string, Outputs>,
    outputs: Outputs)

  const START := Progress([], [], [], map[], map[])

  function StepsFact(stepOutputs: map<string, Outputs>): Value {
    Obj(map name | name in stepOutputs :: Obj(stepOutputs[name]))
  }

  /** A send and the record of it. */
  function Sent(p: Progress, r: StepRecord): Progress {
    p.(records := p.records + [r], recorded := p.recorded + [r], sends := p.sends + [r.step])
  }

  /** What the program extracts under a name, if it can. */
  function ExtractOne(x: Extraction, doc: Document, lib: Library): Option<Value> {
    match LookupIn(doc, x.path)
    case None => None
    case Some(v) => if x.transform.None? then Some(v) else lib.transform(x.transform.value, v)
  }

  function Extract(extractions: seq<Extraction>, doc: Document, lib: Library): Option<Outputs>
    decreases |extractions|
  {
    if extractions == [] then Some(map[])
    else
      var x := extractions[|extractions| - 1];
      match Extract(extractions[..|extractions| - 1], doc, lib)
      case None => None
      case Some(before) =>
        match ExtractOne(x, doc, lib)
        case None => None
        case Some(v) => Some(before[x.name := v])
  }

  predicate ConditionHolds(spec: ResponseSpec, doc: Document, lib: Library) {
    spec.successWhen.None? ||
    var found := LookupIn(doc, spec.successWhen.value.path);
    found.Some? && (spec.successWhen.value.equals.None? || lib.text(found.value) == spec.successWhen.value.equals.value)
  }

  /** What a reply is worth to its step: the extractions, or why it fails. */
  function Judge(step: Step, reply: Reply, lib: Library): Result<Outputs, Reason> {
    if reply.Unreachable? then Err(NoReply)
    else if reply.status >= 400 then Err(HttpStatus(reply.status))
    else if step.response.None? then Ok(map[])
    else if reply.body.None? then Err(Unparseable)
    else if !ConditionHolds(step.response.value, reply.body.value, lib) then Err(ConditionFailed)
    else
      match Extract(step.response.value.extract, reply.body.value, lib)
      case None => Err(ExtractFailed)
      case Some(outputs) => Ok(outputs)
  }

  /** Form encoding takes flat fields only. */
  predicate FlatFields(body: Value) {
    body.Obj? && forall k :: k in body.fields ==> !IsContainer(body.fields[k])
  }

  function AfterUpload(p: Progress, step: Step, rendered: Rendered, answer: UploadAnswer): (Progress, Option<Failure>) {
    match answer
    case NoUploader => (p, Some(NotImplemented))
    case UploadRefused => (Sent(p, StepRecord(step.name, rendered, None, false)), Some(CarrierCall(UploadFailed)))
    case Uploaded => (Sent(p, StepRecord(step.name, rendered, None, true)), None)
  }

  function AfterHttp(p: Progress, d: CarrierDefinition, step: Step, rendered: Rendered, answer: Answer, lib: Library)
    : (Progress, Option<Failure>)
    requires rendered.Request?
  {
    if step.transport != Http then (p, Some(NotImplemented))
    else if d.auth.PluginAuth? && answer.auth == AuthNotRegistered then (p, Some(Uncaught))
    else if d.auth.PluginAuth? && answer.auth == AuthUnavailable then (p, Some(CarrierCall(AuthFailed)))
    else if step.contentType !in {Json, Form} then (p, Some(NotImplemented))
    else if step.contentType == Form && !FlatFields(rendered.body) then (p, Some(Uncaught))
    else
      var status := if answer.reply.Unreachable? then None else Some(answer.reply.status);
      match Judge(step, answer.reply, lib)
      case Err(reason) => (Sent(p, StepRecord(step.name, rendered, status, false)), Some(CarrierCall(reason)))
      case Ok(extracted) =>
        (Sent(p, StepRecord(step.name, rendered, status, true))
         .(stepOutputs := p.stepOutputs[step.name := extracted], outputs := p.outputs + extracted),
         None)
  }

  function AfterStep(p: Progress, d: CarrierDefinition, step: Step, facts: Facts, answer: Answer, lib: Library)
    : (Progress, Option<Failure>)
  {
    match RenderStep(d, step, facts["steps" := StepsFact(p.stepOutputs)], lib)
    case Err(error) => (p, Some(CarrierCall(RenderFailed(error))))
    case Ok(rendered) =>
      if rendered.Upload? then AfterUpload(p, step, rendered, answer.upload)
      else AfterHttp(p, d, step, rendered, answer, lib)
  }

  function AfterSteps(p: Progress, d: CarrierDefinition, steps: seq<Step>, facts: Facts, answers: seq<Answer>,
                      lib: Library)
    : (Progress, Option<Failure>)
    requires |answers| == |steps|
    decreases |steps|
  {
    if steps == [] then (p, None)
    else
      var (next, failure) := AfterStep(p, d, steps[0], facts, answers[0], lib);
      if failure.Some? then (next, failure) else AfterSteps(next, d, steps[1..], facts, answers[1..], lib)
  }

  // ---------------------------------------------------------------------------------------------
  // What a step must come to, told from the answer alone.
  // ---------------------------------------------------------------------------------------------

  /** A response holds a value at a path. */
  predicate Finds(doc: Document, path: string, v: Value) {
    match doc
    case JsonDocument(root) => Walk(root, Split(path)) == Some(v)
    case XmlDocument(find) => v.Str? && find(path) == Some(v.s)
  }

  /** An extraction yields a value: the one at its path, transformed if it says so. */
  ghost predicate Yields(x: Extraction, doc: Document, lib: Library, v: Value) {
    exists raw :: Finds(doc, x.path, raw)
      && if x.transform.Some? then lib.transform(x.transform.value, raw) == Some(v) else v == raw
  }

  /** The response has a value at the condition's path, with the wanted text if one is wanted. */
  ghost predicate Agrees(spec: ResponseSpec, doc: Document, lib: Library) {
    spec.successWhen.Some? ==>
      exists v :: Finds(doc, spec.successWhen.value.path, v)
        && (spec.successWhen.value.equals.Some? ==> lib.text(v) == spec.successWhen.value.equals.value)
  }

  ghost predicate Yielding(x: Extraction, doc: Document, lib: Library) {
    exists v :: Yields(x, doc, lib, v)
  }

  ghost predicate AllYield(extractions: seq<Extraction>, doc: Document, lib: Library) {
    forall x :: x in extractions ==> Yielding(x, doc, lib)
  }

  /** The reply makes the step a success. */
  ghost predicate Accepted(step: Step, reply: Reply, lib: Library) {
    && reply.Reply?
    && reply.status < 400
    && (step.response.Some? ==>
          && reply.body.Some?
          && Agrees(step.response.value, reply.body.value, lib)
          && AllYield(step.response.value.extract, reply.body.value, lib))
  }

  /** Why a reply makes the step a failure: the first of these that holds. */
  ghost predicate Because(reason: Reason, step: Step, reply: Reply, lib: Library) {
    if reply.Unreachable? then reason == NoReply
    else if reply.status >= 400 then reason == HttpStatus(reply.status)
    else
      && step.response.Some?
      && if reply.body.None? then reason == Unparseable
         else if !Agrees(step.response.value, reply.body.value, lib) then reason == ConditionFailed
         else reason == ExtractFailed && !AllYield(step.response.value.extract, reply.body.value, lib)
  }

  predicate LastOfItsName(extractions: seq<Extraction>, i: nat) {
    i < |extractions| && forall j :: i < j < |extractions| ==> extractions[j].name != extractions[i].name
  }

  /** Every declared name, and no other, holds what the last extraction of that name yields. */
  ghost predicate Extracted(extractions: seq<Extraction>, doc: Document, lib: Library, outputs: Outputs) {
    && outputs.Keys == (set x | x in extractions :: x.name)
    && forall i: nat :: LastOfItsName(extractions, i) ==>
         extractions[i].name in outputs && Yields(extractions[i], doc, lib, outputs[extractions[i].name])
  }

  /** Nothing stops the request before it is sent. */
  predicate Sendable(d: CarrierDefinition, step: Step, rendered: Rendered, auth: AuthAnswer)
    requires rendered.Request?
  {
    && step.transport == Http
    && (d.auth.PluginAuth? ==> auth == AuthOk)
    && (step.contentType == Json || (step.contentType == Form && rendered.body.Obj? &&
                                       forall k :: k in rendered.body.fields ==>
                                         !rendered.body.fields[k].List? && !rendered.body.fields[k].Obj?))
  }

  /** What a request comes to: either it is not sent and nothing changes but the run stops, or it is sent and recorded
      once, as the success or the failure that the reply makes it, and only a success leaves outputs. */
  ghost predicate HttpTells(p: Progress, d: CarrierDefinition, step: Step, rendered: Rendered, answer: Answer,
                            lib: Library, next: Progress, failure: Option<Failure>)
    requires rendered.Request?
  {
    if !Sendable(d, step, rendered, answer.auth) then
      && next == p
      && failure == Some(
           if step.transport != Http then NotImplemented
           else if d.auth.PluginAuth? && answer.auth == AuthUnavailable then CarrierCall(AuthFailed)
           else if d.auth.PluginAuth? && answer.auth == AuthNotRegistered then Uncaught
           else if step.contentType == Form then Uncaught
           else NotImplemented)
    else
      var status := if answer.reply.Reply? then Some(answer.reply.status) else None;
      var sent := StepRecord(step.name, rendered, status, failure.None?);
      && next.records == p.records + [sent]
      && next.recorded == p.recorded + [sent]
      && next.sends == p.sends + [step.name]
      && (failure.None? <==> Accepted(step, answer.reply, lib))
      && (failure.Some? ==>
            && failure.value.CarrierCall? && Because(failure.value.reason, step, answer.reply, lib)
            && next.stepOutputs == p.stepOutputs && next.outputs == p.outputs)
      && (failure.None? ==>
            && step.name in next.stepOutputs
            && next.stepOutputs == p.stepOutputs[step.name := next.stepOutputs[step.name]]
            && next.outputs == p.outputs + next.stepOutputs[step.name]
            && if step.response.None? then next.stepOutputs[step.name] == map[]
               else Extracted(step.response.value.extract, answer.reply.body.value, lib, next.stepOutputs[step.name]))
  }

  /** What an upload comes to: sent and recorded once, unless no uploader serves its transport. */
  predicate UploadTells(p: Progress, step: Step, rendered: Rendered, answer: UploadAnswer, next: Progress,
                        failure: Option<Failure>)
  {
    && next.stepOutputs == p.stepOutputs && next.outputs == p.outputs
    && failure == (match answer
                   case NoUploader => Some(NotImplemented)
                   case UploadRefused => Some(CarrierCall(UploadFailed))
                   case Uploaded => None)
    && var sent := if answer == NoUploader then [] else [StepRecord(step.name, rendered, None, failure.None?)];
       && next.records == p.records + sent
       && next.recorded == p.recorded + sent
       && next.sends == p.sends + if answer == NoUploader then [] else [step.name]
  }

  lemma LookupFinds(doc: Document, path: string)
    ensures var found := LookupIn(doc, path);
            forall v :: Finds(doc, path, v) <==> found == Some(v)
  {
  }

  lemma OneYields(x: Extraction, doc: Document, lib: Library)
    ensures var one := ExtractOne(x, doc, lib);
            if one.Some? then Yields(x, doc, lib, one.value) else forall v :: !Yields(x, doc, lib, v)
  {
    LookupFinds(doc, x.path);
    assert LookupIn(doc, x.path).Some? ==> Finds(doc, x.path, LookupIn(doc, x.path).value);
  }

  lemma StillLast(init: seq<Extraction>, last: Extraction, i: nat)
    requires i < |init| && LastOfItsName(init + [last], i)
    ensures LastOfItsName(init, i) && init[i].name != last.name
  {
    var all := init + [last];
    assert all[|init|] == last && all[i] == init[i];
    assert forall j :: i < j < |init| ==> all[j] == init[j];
  }

  lemma ExtractedNext(init: seq<Extraction>, last: Extraction, doc: Document, lib: Library, before: Outputs, v: Value)
    requires Extracted(init, doc, lib, before) && Yields(last, doc, lib, v)
    ensures Extracted(init + [last], doc, lib, before[last.name := v])
  {
    var (all, outputs) := (init + [last], before[last.name := v]);
    assert outputs.Keys == before.Keys + {last.name};
    forall i: nat | LastOfItsName(all, i)
      ensures all[i].name in outputs && Yields(all[i], doc, lib, outputs[all[i].name])
    {
      if i < |init| {
        StillLast(init, last, i);
        assert all[i] == init[i];
      }
    }
  }

  lemma {:induction false} ExtractExactlyWhen(extractions: seq<Extraction>, doc: Document, lib: Library)
    ensures Extract(extractions, doc, lib).Some? <==> AllYield(extractions, doc, lib)
    decreases |extractions|
  {
    if extractions != [] {
      var (init, last) := (extractions[..|extractions| - 1], extractions[|extractions| - 1]);
      assert extractions == init + [last];
      assert forall x :: x in extractions <==> x in init || x == last;
      ExtractExactlyWhen(init, doc, lib);
      OneYields(last, doc, lib);
      var one := ExtractOne(last, doc, lib);
      assert Yielding(last, doc, lib) <==> one.Some? by {
        assert one.Some? ==> Yields(last, doc, lib, one.value);
      }
      assert AllYield(extractions, doc, lib) <==> AllYield(init, doc, lib) && Yielding(last, doc, lib);
    }
  }

  lemma {:induction false} ExtractYields(extractions: seq<Extraction>, doc: Document, lib: Library)
    requires Extract(extractions, doc, lib).Some?
    ensures Extracted(extractions, doc, lib, Extract(extractions, doc, lib).value)
    decreases |extractions|
  {
    if extractions != [] {
      var (init, last) := (extractions[..|extractions| - 1], extractions[|extractions| - 1]);
      assert extractions == init + [last];
      ExtractYields(init, doc, lib);
      OneYields(last, doc, lib);
      ExtractedNext(init, last, doc, lib, Extract(init, doc, lib).value, ExtractOne(last, doc, lib).value);
    }
  }

  lemma ConditionAgrees(spec: ResponseSpec, doc: Document, lib: Library)
    ensures ConditionHolds(spec, doc, lib) <==> Agrees(spec, doc, lib)
  {
    if spec.successWhen.Some? {
      var path := spec.successWhen.value.path;
      LookupFinds(doc, path);
      assert LookupIn(doc, path).Some? ==> Finds(doc, path, LookupIn(doc, path).value);
    }
  }

  /** The step ends in just this way. */
  lemma HttpMeans(p: Progress, d: CarrierDefinition, step: Step, rendered: Rendered, answer: Answer, lib: Library)
    requires rendered.Request?
    ensures var (next, failure) := AfterHttp(p, d, step, rendered, answer, lib);
            HttpTells(p, d, step, rendered, answer, lib, next, failure)
  {
    if step.response.Some? && answer.reply.Reply? && answer.reply.body.Some? {
      ConditionAgrees(step.response.value, answer.reply.body.value, lib);
      var extract := step.response.value.extract;
      ExtractExactlyWhen(extract, answer.reply.body.value, lib);
      if Extract(extract, answer.reply.body.value, lib).Some? {
        ExtractYields(extract, answer.reply.body.value, lib);
      }
    }
  }

  lemma UploadMeans(p: Progress, step: Step, rendered: Rendered, answer: UploadAnswer)
    ensures var (next, failure) := AfterUpload(p, step, rendered, answer);
            UploadTells(p, step, rendered, answer, next, failure)
  {
    assert p.records + [] == p.records && p.recorded + [] == p.recorded && p.sends + [] == p.sends;
  }

  // ---------------------------------------------------------------------------------------------
  // The program's own form: one object, updated step by step.
  // ---------------------------------------------------------------------------------------------

  class Execution {
    var records: seq<StepRecord>
    var recorded: seq<StepRecord>
    var sends: seq<string>
    var stepOutputs: map<string, Outputs>
    var outputs: Outputs

    constructor ()
      ensures Now() == START
    {
      records, recorded, sends := [], [], [];
      stepOutputs, outputs := map[], map[];
    }

    function Now(): Progress
      reads this
    {
      Progress(records, recorded, sends, stepOutputs, outputs)
    }

    method Record(r: StepRecord)
      modifies this`records, this`recorded
      ensures records == old(records) + [r] && recorded == old(recorded) + [r]
    {
      records := records + [r];
      recorded := recorded + [r];
    }

    method RunUpload(step: Step, rendered: Rendered, answer: UploadAnswer) returns (failure: Option<Failure>)
      modifies this
      ensures (Now(), failure) == AfterUpload(old(Now()), step, rendered, answer)
      ensures UploadTells(old(Now()), step, rendered, answer, Now(), failure)
    {
      UploadMeans(Now(), step, rendered, answer);
      if answer == NoUploader {
        return Some(NotImplemented);
      }
      sends := sends + [step.name];
      if answer == UploadRefused {
        Record(StepRecord(step.name, rendered, None, false));
        return Some(CarrierCall(UploadFailed));
      }
      Record(StepRecord(step.name, rendered, None, true));
      return None;
    }

    method ExtractOutputs(extractions: seq<Extraction>, doc: Document, lib: Library) returns (r: Option<Outputs>)
      ensures r == Extract(extractions, doc, lib)
      ensures r.Some? <==> AllYield(extractions, doc, lib)
      ensures r.Some? ==> Extracted(extractions, doc, lib, r.value)
    {
      ExtractExactlyWhen(extractions, doc, lib);
      if Extract(extractions, doc, lib).Some? {
        ExtractYields(extractions, doc, lib);
      }
      var extracted: Outputs := map[];
      assert extractions[..|extractions|] == extractions;
      for i := 0 to |extractions|
        invariant Extract(extractions[..i], doc, lib) == Some(extracted)
      {
        assert extractions[..i + 1][..i] == extractions[..i];
        var value := LookupIn(doc, extractions[i].path);
        if value.Some? && extractions[i].transform.Some? {
          value := lib.transform(extractions[i].transform.value, value.value);
        }
        if value.None? {
          ExtractFails(extractions, i, doc, lib);
          return None;
        }
        extracted := extracted[extractions[i].name := value.value];
      }
      return Some(extracted);
    }

    method RunHttp(d: CarrierDefinition, step: Step, rendered: Rendered, answer: Answer, lib: Library)
      returns (failure: Option<Failure>)
      requires rendered.Request?
      modifies this
      ensures (Now(), failure) == AfterHttp(old(Now()), d, step, rendered, answer, lib)
      ensures HttpTells(old(Now()), d, step, rendered, answer, lib, Now(), failure)
    {
      HttpMeans(Now(), d, step, rendered, answer, lib);
      if step.transport != Http {
        return Some(NotImplemented);
      }
      if d.auth.PluginAuth? {
        if answer.auth == AuthNotRegistered {
          return Some(Uncaught);
        }
        if answer.auth == AuthUnavailable {
          return Some(CarrierCall(AuthFailed));
        }
      }
      if step.contentType !in {Json, Form} {
        return Some(NotImplemented);
      }
      if step.contentType == Form && !FlatFields(rendered.body) {
        return Some(Uncaught);
      }
      sends := sends + [step.name];
      if answer.reply.Unreachable? {
        Record(StepRecord(step.name, rendered, None, false));
        return Some(CarrierCall(NoReply));
      }
      var status := answer.reply.status;
      var extracted: Outputs := map[];
      if status >= 400 {
        Record(StepRecord(step.name, rendered, Some(status), false));
        return Some(CarrierCall(HttpStatus(status)));
      }
      if step.response.Some? {
        var spec := step.response.value;
        if answer.reply.body.None? {
          Record(StepRecord(step.name, rendered, Some(status), false));
          return Some(CarrierCall(Unparseable));
        }
        if !ConditionHolds(spec, answer.reply.body.value, lib) {
          Record(StepRecord(step.name, rendered, Some(status), false));
          return Some(CarrierCall(ConditionFailed));
        }
        var found := ExtractOutputs(spec.extract, answer.reply.body.value, lib);
        if found.None? {
          Record(StepRecord(step.name, rendered, Some(status), false));
          return Some(CarrierCall(ExtractFailed));
        }
        extracted := found.value;
      }
      Record(StepRecord(step.name, rendered, Some(status), true));
      stepOutputs := stepOutputs[step.name := extracted];
      outputs := outputs + extracted;
      return None;
    }

    method RunStep(d: CarrierDefinition, step: Step, facts: Facts, answer: Answer, lib: Library)
      returns (failure: Option<Failure>)
      modifies this
      ensures (Now(), failure) == AfterStep(old(Now()), d, step, facts, answer, lib)
    {
      var rendered := RenderStep(d, step, facts["steps" := StepsFact(stepOutputs)], lib);
      match rendered {
        case Err(error) => failure := Some(CarrierCall(RenderFailed(error)));
        case Ok(Upload(_, _, _)) => failure := RunUpload(step, rendered.value, answer.upload);
        case Ok(Request(_, _, _)) => failure := RunHttp(d, step, rendered.value, answer, lib);
      }
    }

    method Run(d: CarrierDefinition, steps: seq<Step>, facts: Facts, answers: seq<Answer>, lib: Library)
      returns (failure: Option<Failure>)
      requires |answers| == |steps|
      modifies this
      ensures (Now(), failure) == AfterSteps(old(Now()), d, steps, facts, answers, lib)
    {
      for i := 0 to |steps|
        invariant AfterSteps(old(Now()), d, steps, facts, answers, lib) ==
                  AfterSteps(Now(), d, steps[i..], facts, answers[i..], lib)
      {
        assert steps[i..][1..] == steps[i + 1..] && answers[i..][1..] == answers[i + 1..];
        failure := RunStep(d, steps[i], facts, answers[i], lib);
        if failure.Some? {
          return;
        }
      }
      failure := None;
    }
  }

  lemma {:induction false} ExtractFails(extractions: seq<Extraction>, i: nat, doc: Document, lib: Library)
    requires i < |extractions| && Extract(extractions[..i + 1], doc, lib).None?
    ensures Extract(extractions, doc, lib).None?
    decreases |extractions|
  {
    var init := extractions[..|extractions| - 1];
    if i + 1 < |extractions| {
      assert init[..i + 1] == extractions[..i + 1];
      ExtractFails(init, i, doc, lib);
    } else {
      assert extractions[..i + 1] == extractions;
    }
  }

  // ---------------------------------------------------------------------------------------------
  // The trace of a run.
  // ---------------------------------------------------------------------------------------------

  function NamesOf(records: seq<StepRecord>): seq<string> {
    seq(|records|, i requires 0 <= i < |records| => records[i].step)
  }

  /** Records, recorder and sends tell one story. */
  predicate InStep(p: Progress) {
    p.recorded == p.records && p.sends == NamesOf(p.records)
  }

  /** The failures before anything is sent. */
  predicate BeforeSend(f: Failure) {
    f.CarrierCall? ==> f.reason.RenderFailed? || f.reason.AuthFailed?
  }

  /** The answer makes a step that is sent a success. */
  ghost predicate Succeeds(step: Step, answer: Answer, lib: Library) {
    if step.transport in {FtpUpload, SftpUpload} then answer.upload == Uploaded else Accepted(step, answer.reply, lib)
  }

  /** The records are of the first steps, in order, and each tells what its answer made of it. */
  ghost predicate Told(records: seq<StepRecord>, steps: seq<Step>, answers: seq<Answer>, lib: Library)
    requires |steps| == |answers|
  {
    && |records| <= |steps|
    && forall i :: 0 <= i < |records| ==>
         records[i].step == steps[i].name && (records[i].success <==> Succeeds(steps[i], answers[i], lib))
  }

  /** The run stopped at step k: the steps before it were sent once each and succeeded; it was sent, and
      recorded as failed, exactly when the failure came after sending. */
  ghost predicate StoppedAt(p: Progress, steps: seq<Step>, answers: seq<Answer>, lib: Library, k: nat,
                            failure: Failure)
    requires |steps| == |answers|
  {
    && k < |steps|
    && InStep(p)
    && |p.records| == (if BeforeSend(failure) then k else k + 1)
    && Told(p.records, steps, answers, lib)
    && forall i :: 0 <= i < |p.records| ==> p.records[i].success == (i < k)
  }

  /** One record more when the step was sent, and none otherwise. */
  ghost predicate Traced(p: Progress, step: Step, answer: Answer, lib: Library, next: Progress,
                         failure: Option<Failure>)
  {
    && InStep(next)
    && if failure.Some? && BeforeSend(failure.value) then next.records == p.records
       else
         && |next.records| == |p.records| + 1
         && next.records[..|p.records|] == p.records
         && next.records[|p.records|].step == step.name
         && next.records[|p.records|].success == failure.None?
         && (failure.None? <==> Succeeds(step, answer, lib))
  }

  lemma StepTrace(p: Progress, d: CarrierDefinition, step: Step, facts: Facts, answer: Answer, lib: Library)
    requires InStep(p)
    ensures var (next, failure) := AfterStep(p, d, step, facts, answer, lib);
            Traced(p, step, answer, lib, next, failure)
  {
    var rendered := RenderStep(d, step, facts["steps" := StepsFact(p.stepOutputs)], lib);
    if rendered.Ok? {
      if rendered.value.Upload? {
        UploadMeans(p, step, rendered.value, answer.upload);
      } else {
        HttpMeans(p, d, step, rendered.value, answer, lib);
      }
    }
  }

  ghost predicate Through(records: seq<StepRecord>, steps: seq<Step>, answers: seq<Answer>, lib: Library, k: nat)
    requires |steps| == |answers|
  {
    |records| == k && Told(records, steps, answers, lib) && forall i :: 0 <= i < k ==> records[i].success
  }

  /** Nothing is added to the records, or what the next step came to. */
  lemma ToldNext(before: seq<StepRecord>, after: seq<StepRecord>, steps: seq<Step>, answers: seq<Answer>, lib: Library,
                 k: nat)
    requires k < |steps| == |answers| && Through(before, steps, answers, lib, k)
    requires after == before || (|after| == k + 1 && after[..k] == before)
    ensures after == before ==> Told(after, steps, answers, lib)
    ensures after != before && after[k].step == steps[k].name
            && after[k].success == Succeeds(steps[k], answers[k], lib) ==>
              Told(after, steps, answers, lib)
    ensures forall i :: 0 <= i < k ==> after[i].success
  {
    assert forall i :: 0 <= i < k ==> after[i] == before[i];
  }

  lemma {:induction false} TraceFrom(p: Progress, d: CarrierDefinition, steps: seq<Step>, k: nat, facts: Facts,
                                     answers: seq<Answer>, lib: Library)
    requires k <= |steps| == |answers| && InStep(p) && Through(p.records, steps, answers, lib, k)
    ensures var (end, failure) := AfterSteps(p, d, steps[k..], facts, answers[k..], lib);
            match failure
            case None => InStep(end) && Through(end.records, steps, answers, lib, |steps|)
            case Some(f) => exists stop :: StoppedAt(end, steps, answers, lib, stop, f)
    decreases |steps| - k
  {
    if k < |steps| {
      var (next, failure) := AfterStep(p, d, steps[k], facts, answers[k], lib);
      StepTrace(p, d, steps[k], facts, answers[k], lib);
      assert steps[k..][1..] == steps[k + 1..] && answers[k..][1..] == answers[k + 1..];
      ToldNext(p.records, next.records, steps, answers, lib, k);
      if failure.None? {
        TraceFrom(next, d, steps, k + 1, facts, answers, lib);
      } else {
        assert StoppedAt(next, steps, answers, lib, k, failure.value);
      }
    }
  }

  /** A successful run records one success per step, in order, the carrier having accepted each; a run that stops at
      step k has recorded the k successes before it, and one failure if and only if step k was sent. The records a
      carrier call error carries are the ones the recorder was handed, one per send. */
  lemma RunTrace(d: CarrierDefinition, steps: seq<Step>, facts: Facts, answers: seq<Answer>, lib: Library)
    requires |answers| == |steps|
    ensures var (end, failure) := AfterSteps(START, d, steps, facts, answers, lib);
            match failure
            case None => InStep(end) && Through(end.records, steps, answers, lib, |steps|)
            case Some(f) => exists stop :: StoppedAt(end, steps, answers, lib, stop, f)
  {
    TraceFrom(START, d, steps, 0, facts, answers, lib);
    assert steps[0..] == steps && answers[0..] == answers;
  }

  lemma {:induction false} SplitNoDot(s: string)
    requires NoDot(s)
    ensures Split(s) == [s]
    decreases |s|
  {
    if s != "" {
      SplitNoDot(s[1..]);
      assert [s[0]] + s[1..] == s;
    }
  }

  /** The source `steps.<name>.<output>` reads what that step's answer gave for that output, and nothing else. */
  lemma StepOutputReads(stepOutputs: map<string, Outputs>, facts: Facts, name: string, output: string)
    requires NoDot(name) && NoDot(output)
    ensures Walk(Obj(facts["steps" := StepsFact(stepOutputs)]), Split("steps" + "." + (name + "." + output))) ==
            if name in stepOutputs && output in stepOutputs[name] then Some(stepOutputs[name][output]) else None
  {
    SplitAfterRoot("steps", name + "." + output);
    SplitAfterRoot(name, output);
    SplitNoDot(output);
    var root := Obj(facts["steps" := StepsFact(stepOutputs)]);
    WalkOneFurther(root, [], "steps");
    WalkOneFurther(root, ["steps"], name);
    WalkOneFurther(root, ["steps", name], output);
    assert ["steps"] + ([name] + [output]) == ["steps", name] + [output];
    assert [] + ["steps"] == ["steps"] && ["steps"] + [name] == ["steps", name];
  }

  // ---------------------------------------------------------------------------------------------
  // What a strictly valid definition can never suffer.
  // ---------------------------------------------------------------------------------------------

  /** The outputs so far hold all that the checker credits the steps so far with. */
  predicate Credited(p: Progress, known: KnownSteps) {
    forall name :: name in known && known[name] != {} ==>
      name in p.stepOutputs && known[name] <= p.stepOutputs[name].Keys
  }

  lemma {:induction false} ExtractNames(extractions: seq<Extraction>, doc: Document, lib: Library)
    requires Extract(extractions, doc, lib).Some?
    ensures Extract(extractions, doc, lib).value.Keys == set x | x in extractions :: x.name
    decreases |extractions|
  {
    if extractions != [] {
      var (init, last) := (extractions[..|extractions| - 1], extractions[|extractions| - 1]);
      ExtractNames(init, doc, lib);
      assert extractions == init + [last];
    }
  }

  /** Failures a checked definition leaves possible, at the point `end` a run stopped. `complete` says the config has
      every key. */
  predicate Blameless(f: Failure, end: Progress, answers: seq<Answer>, complete: bool) {
    && (f.CarrierCall? && f.reason.RenderFailed? ==>
          var error := f.reason.error;
          && !error.TargetConflict?
          && (error.NoFact? ==>
                && (IsStepSource(error.path) ==> BeyondOutput(error.path, map["steps" := StepsFact(end.stepOutputs)]))
                && (complete ==> !IsConfigSource(error.path))))
    && (f.NotImplemented? ==> exists i :: 0 <= i < |answers| && answers[i].upload.NoUploader?)
  }

  lemma SuccessfulStepOutputs(p: Progress, d: CarrierDefinition, step: Step, facts: Facts, answer: Answer, lib: Library)
    requires ValidStepShape(step) && AfterStep(p, d, step, facts, answer, lib).1.None?
    ensures var next := AfterStep(p, d, step, facts, answer, lib).0;
            && p.outputs.Keys + Extracts(step) <= next.outputs.Keys
            && if next.stepOutputs == p.stepOutputs then
                 Extracts(step) == {} || (step.name in p.stepOutputs && Extracts(step) <= p.stepOutputs[step.name].Keys)
               else
                 && step.name in next.stepOutputs
                 && next.stepOutputs == p.stepOutputs[step.name := next.stepOutputs[step.name]]
                 && Extracts(step) <= next.stepOutputs[step.name].Keys
  {
    if step.transport == Http && step.response.Some? {
      ExtractNames(step.response.value.extract, answer.reply.body.value, lib);
    }
  }

  lemma CreditedNext(p: Progress, d: CarrierDefinition, step: Step, known: KnownSteps, facts: Facts, answer: Answer,
                     lib: Library)
    requires ValidStepShape(step) && Credited(p, known)
    requires AfterStep(p, d, step, facts, answer, lib).1.None?
    ensures var next := AfterStep(p, d, step, facts, answer, lib).0;
            && Credited(next, known[step.name := Extracts(step)])
            && p.outputs.Keys + Extracts(step) <= next.outputs.Keys
  {
    SuccessfulStepOutputs(p, d, step, facts, answer, lib);
  }

  /** A walk that starts at `steps` sees nothing else of the facts. */
  lemma WalkFromSteps(facts: Facts, steps: Facts, parts: seq<string>)
    requires parts != [] && parts[0] == "steps" && "steps" in facts && "steps" in steps
    requires facts["steps"] == steps["steps"]
    ensures Walk(Obj(facts), parts) == Walk(Obj(steps), parts)
  {
  }

  lemma StepBlameless(p: Progress, d: CarrierDefinition, name: string, step: Step, known: KnownSteps,
                      roots: set<string>, config: Config, facts: Facts, answer: Answer, lib: Library)
    requires name in d.operations && step in d.operations[name].steps
    requires ValidStepShape(step) && TargetsValid(step.mapping)
    requires ValidStepSources(step, known, roots) && "steps" !in roots
    requires SecretOf(d.auth).Some? ==> ValidSource(SecretOf(d.auth).value, map[], false, roots)
    requires "config" in facts && facts["config"] == Obj(config)
    requires Credited(p, known)
    requires AfterStep(p, d, step, facts, answer, lib).1.Some?
    ensures var (end, failure) := AfterStep(p, d, step, facts, answer, lib);
            Blameless(failure.value, end, [answer], MissingConfigKeys(d, config) == {})
  {
    var bound := facts["steps" := StepsFact(p.stepOutputs)];
    if RenderStep(d, step, bound, lib).Err? {
      var error := RenderStep(d, step, bound, lib).error;
      CheckedStepErrors(d, step, known, roots, bound, lib);
      StepErrors(d, step, bound, lib);
      if error.NoFact? && IsStepSource(error.path) {
        WalkFromSteps(bound, map["steps" := StepsFact(p.stepOutputs)], Split(error.path)[..3]);
      }
      if error.NoFact? && IsConfigSource(error.path) && MissingConfigKeys(d, config) == {} {
        CompleteConfigResolves(d, name, step, config, bound, error.path);
      }
    } else if AfterStep(p, d, step, facts, answer, lib).1 == Some(NotImplemented) {
      assert [answer][0].upload.NoUploader?;
    }
  }

  lemma {:induction false} StepsBlameless(p: Progress, d: CarrierDefinition, name: string, steps: seq<Step>,
                                          known: KnownSteps, roots: set<string>, config: Config, facts: Facts,
                                          answers: seq<Answer>, lib: Library)
    requires |answers| == |steps| && "steps" !in roots
    requires name in d.operations && forall s :: s in steps ==> s in d.operations[name].steps
    requires forall s :: s in steps ==> ValidStepShape(s) && TargetsValid(s.mapping)
    requires StepsResolve(steps, known, roots)
    requires SecretOf(d.auth).Some? ==> ValidSource(SecretOf(d.auth).value, map[], false, roots)
    requires "config" in facts && facts["config"] == Obj(config)
    requires Credited(p, known)
    ensures var (end, failure) := AfterSteps(p, d, steps, facts, answers, lib);
            match failure
            case Some(f) => Blameless(f, end, answers, MissingConfigKeys(d, config) == {})
            case None =>
              p.outputs.Keys <= end.outputs.Keys && forall s :: s in steps ==> Extracts(s) <= end.outputs.Keys
    decreases |steps|
  {
    if steps != [] {
      var (next, failure) := AfterStep(p, d, steps[0], facts, answers[0], lib);
      if failure.Some? {
        StepBlameless(p, d, name, steps[0], known, roots, config, facts, answers[0], lib);
        assert failure.value.NotImplemented? ==> answers[0].upload.NoUploader?;
      } else {
        CreditedNext(p, d, steps[0], known, facts, answers[0], lib);
        var known' := known[steps[0].name := Extracts(steps[0])];
        StepsBlameless(next, d, name, steps[1..], known', roots, config, facts, answers[1..], lib);
      }
    }
  }

  /** For a strictly valid definition, whatever the facts and however the carrier answers: no target
      conflict, no missing output of an earlier step (a source that goes on into an output may find that
      the carrier did not send what it asks for), and with a complete config no missing config fact
      ever stops a run; only an unregistered uploader is unimplemented; and a run that succeeds has every
      declared extraction, so a base64 label finds the one it names. */
  lemma CheckedOperationSound(d: CarrierDefinition, name: string, config: Config, facts: Facts, answers: seq<Answer>,
                              lib: Library)
    requires StrictlyValid(d) && name in d.operations
    requires |answers| == |d.operations[name].steps|
    requires "config" in facts && facts["config"] == Obj(config)
    ensures var op := d.operations[name];
            var (end, failure) := AfterSteps(START, d, op.steps, facts, answers, lib);
            match failure
            case Some(f) => Blameless(f, end, answers, MissingConfigKeys(d, config) == {})
            case None =>
              && (forall s :: s in op.steps ==> Extracts(s) <= end.outputs.Keys)
              && (op.labelSpec.Some? && op.labelSpec.value.source == Base64Pdf ==>
                    op.labelSpec.value.fromExtract.Some? && op.labelSpec.value.fromExtract.value in end.outputs)
  {
    var op := d.operations[name];
    StepsBlameless(START, d, name, op.steps, map[], FactRoots(name, op.fanOut), config, facts, answers, lib);
  }
}
