/** The carrier builder's edits to a definition being assembled turn by turn (carrier_builder/tools.py). */
module BuilderTools {
  import opened Definition
  import opened Keyed
  import opened Prelude

  const PRUNABLE_CAPABILITIES := {"label", "manifest"}

  /** An operation as the working copy holds it. A seed may carry one that does not parse, or that has a
      misspelt field: it is kept, but no edit accepts it. */
  datatype Stored = Raw(labelled: bool) | Parsed(op: Operation)

  /** What a call supplies for a step or an entry: nothing with a usable key, something that would not parse, or
      a parsed one. */
  datatype Given<T> = Unusable | Malformed(key: string) | Given(item: T)

  /** The single gate for every write path into an operation. */
  predicate Storable(s: Stored) {
    s.Parsed? && ValidOperation(s.op)
  }

  predicate HasLabel(s: Stored) {
    match s
    case Raw(labelled) => labelled
    case Parsed(op) => op.labelSpec.Some?
  }

  type Operations = map<string, Stored>

  predicate Drafted(operations: Operations, capability: string) {
    if capability == "label" then exists name :: name in operations && HasLabel(operations[name])
    else capability in operations
  }

  predicate Blank(s: string) {
    forall i :: 0 <= i < |s| ==> IsSpace(s[i])
  }

  // ---------------------------------------------------------------------------------------------
  // The granular edits, on one operation.
  // ---------------------------------------------------------------------------------------------

  const NAME_OF := (s: Step) => s.name
  const TARGET_OF := (e: Entry) => e.target

  function IfValid(op: Operation): Option<Operation> {
    if ValidOperation(op) then Some(op) else None
  }

  function StepPut(op: Operation, step: Given<Step>): Option<Operation> {
    if !step.Given? || SoleIndex(op.steps, NAME_OF, step.item.name).Ambiguous? then None
    else IfValid(op.(steps := Put(op.steps, NAME_OF, step.item)))
  }

  function StepRemoved(op: Operation, name: string): Option<Operation> {
    if !SoleIndex(op.steps, NAME_OF, name).At? then None
    else IfValid(op.(steps := Remove(op.steps, NAME_OF, name)))
  }

  function MappingSet(op: Operation, i: nat, mapping: seq<Entry>): Operation
    requires i < |op.steps|
  {
    op.(steps := op.steps[i := op.steps[i].(mapping := mapping)])
  }

  function EntryPut(op: Operation, stepName: string, entry: Given<Entry>): Option<Operation> {
    var at := SoleIndex(op.steps, NAME_OF, stepName);
    if !at.At? || !entry.Given? then None
    else
      var mapping := op.steps[at.index].mapping;
      if SoleIndex(mapping, TARGET_OF, entry.item.target).Ambiguous? then None
      else IfValid(MappingSet(op, at.index, Put(mapping, TARGET_OF, entry.item)))
  }

  function EntryRemoved(op: Operation, stepName: string, target: string): Option<Operation> {
    var at := SoleIndex(op.steps, NAME_OF, stepName);
    if !at.At? then None
    else
      var mapping := op.steps[at.index].mapping;
      if !SoleIndex(mapping, TARGET_OF, target).At? then None
      else IfValid(MappingSet(op, at.index, Remove(mapping, TARGET_OF, target)))
  }

  /** What the gate makes of an edited operation. */
  predicate Gated(edited: Operation, result: Option<Operation>) {
    match result
    case Some(after) => after == edited && ValidOperation(edited)
    case None => !ValidOperation(edited)
  }

  /** One item has the key, at i. */
  predicate OnlyAt<T>(items: seq<T>, key: T -> string, k: string, i: nat) {
    && i < |items|
    && key(items[i]) == k
    && forall j :: 0 <= j < |items| && j != i ==> key(items[j]) != k
  }

  predicate Twice<T>(items: seq<T>, key: T -> string, k: string) {
    exists i, j :: 0 <= i < j < |items| && key(items[i]) == k && key(items[j]) == k
  }

  predicate Nowhere<T>(items: seq<T>, key: T -> string, k: string) {
    forall i :: 0 <= i < |items| ==> key(items[i]) != k
  }

  /** A step put goes in place of the one of its name, or last if there is none, as long as what results is valid;
      with two of its name, or nothing usable given, it is refused. */
  lemma StepPutExactlyWhen(op: Operation, step: Given<Step>)
    ensures !step.Given? ==> StepPut(op, step).None?
    ensures step.Given? && Twice(op.steps, NAME_OF, step.item.name) ==> StepPut(op, step).None?
    ensures step.Given? && Nowhere(op.steps, NAME_OF, step.item.name) ==>
              Gated(op.(steps := op.steps + [step.item]), StepPut(op, step))
    ensures forall i: nat :: step.Given? && OnlyAt(op.steps, NAME_OF, step.item.name, i) ==>
              Gated(op.(steps := op.steps[i := step.item]), StepPut(op, step))
  {
  }

  /** A removal takes the one step of the name, as long as what results is valid. */
  lemma StepRemovedExactlyWhen(op: Operation, name: string)
    ensures Twice(op.steps, NAME_OF, name) || Nowhere(op.steps, NAME_OF, name) ==> StepRemoved(op, name).None?
    ensures forall i: nat :: OnlyAt(op.steps, NAME_OF, name, i) ==>
              Gated(op.(steps := op.steps[..i] + op.steps[i + 1..]), StepRemoved(op, name))
  {
  }

  /** The i-th step with another mapping. */
  function Remapped(op: Operation, i: nat, mapping: seq<Entry>): Operation
    requires i < |op.steps|
  {
    op.(steps := op.steps[..i] + [op.steps[i].(mapping := mapping)] + op.steps[i + 1..])
  }

  lemma RemappedIs(op: Operation, i: nat, mapping: seq<Entry>)
    requires i < |op.steps|
    ensures Remapped(op, i, mapping) == MappingSet(op, i, mapping)
  {
    assert Remapped(op, i, mapping).steps == MappingSet(op, i, mapping).steps;
  }

  /** An entry put goes into the one step of the name, in place of the entry of its target or last. */
  lemma EntryPutExactlyWhen(op: Operation, stepName: string, entry: Given<Entry>, i: nat)
    ensures !entry.Given? || Twice(op.steps, NAME_OF, stepName) || Nowhere(op.steps, NAME_OF, stepName) ==>
              EntryPut(op, stepName, entry).None?
    ensures entry.Given? && OnlyAt(op.steps, NAME_OF, stepName, i) ==>
              var mapping := op.steps[i].mapping;
              && (Twice(mapping, TARGET_OF, entry.item.target) ==> EntryPut(op, stepName, entry).None?)
              && (Nowhere(mapping, TARGET_OF, entry.item.target) ==>
                    Gated(Remapped(op, i, mapping + [entry.item]), EntryPut(op, stepName, entry)))
              && forall k: nat :: OnlyAt(mapping, TARGET_OF, entry.item.target, k) ==>
                   Gated(Remapped(op, i, mapping[k := entry.item]), EntryPut(op, stepName, entry))
  {
    if entry.Given? && OnlyAt(op.steps, NAME_OF, stepName, i) {
      var mapping := op.steps[i].mapping;
      RemappedIs(op, i, mapping + [entry.item]);
      forall k: nat | OnlyAt(mapping, TARGET_OF, entry.item.target, k)
        ensures Gated(Remapped(op, i, mapping[k := entry.item]), EntryPut(op, stepName, entry))
      {
        RemappedIs(op, i, mapping[k := entry.item]);
      }
    }
  }

  /** An entry's removal takes the one entry of the target out of the one step of the name. */
  lemma EntryRemovedExactlyWhen(op: Operation, stepName: string, target: string, i: nat)
    ensures Twice(op.steps, NAME_OF, stepName) || Nowhere(op.steps, NAME_OF, stepName) ==>
              EntryRemoved(op, stepName, target).None?
    ensures OnlyAt(op.steps, NAME_OF, stepName, i) ==>
              var mapping := op.steps[i].mapping;
              && (Twice(mapping, TARGET_OF, target) || Nowhere(mapping, TARGET_OF, target) ==>
                    EntryRemoved(op, stepName, target).None?)
              && forall k: nat :: OnlyAt(mapping, TARGET_OF, target, k) ==>
                   Gated(Remapped(op, i, mapping[..k] + mapping[k + 1..]), EntryRemoved(op, stepName, target))
  {
    if OnlyAt(op.steps, NAME_OF, stepName, i) {
      var mapping := op.steps[i].mapping;
      forall k: nat | OnlyAt(mapping, TARGET_OF, target, k)
        ensures Gated(Remapped(op, i, mapping[..k] + mapping[k + 1..]), EntryRemoved(op, stepName, target))
      {
        RemappedIs(op, i, mapping[..k] + mapping[k + 1..]);
      }
    }
  }

  /** An accepted step edit leaves one step of the name, puts it in the old one's place or last, and touches
      nothing else of the operation. */
  lemma StepPutChangesOne(op: Operation, step: Step)
    requires StepPut(op, Given(step)).Some?
    ensures var after := StepPut(op, Given(step)).value;
      && ValidOperation(after)
      && after == op.(steps := after.steps)
      && Select(after.steps, NAME_OF, step.name, true) == [step]
      && Select(after.steps, NAME_OF, step.name, false) == Select(op.steps, NAME_OF, step.name, false)
      && |op.steps| <= |after.steps|
      && forall i :: 0 <= i < |op.steps| ==>
           after.steps[i] == if op.steps[i].name == step.name then step else op.steps[i]
  {
    PutChangesOne(op.steps, NAME_OF, step);
  }

  lemma StepRemovedTakesOne(op: Operation, name: string)
    requires StepRemoved(op, name).Some?
    ensures var after := StepRemoved(op, name).value;
      && ValidOperation(after)
      && after == op.(steps := Select(op.steps, NAME_OF, name, false))
      && |after.steps| + 1 == |op.steps|
  {
    RemoveTakesOne(op.steps, NAME_OF, name);
  }

  /** Every step but the i-th is as it was, and the i-th differs in its mapping alone. */
  predicate OnlyMappingDiffers(op: Operation, after: Operation, i: nat) {
    && i < |op.steps| == |after.steps|
    && after == op.(steps := after.steps)
    && after.steps[i] == op.steps[i].(mapping := after.steps[i].mapping)
    && forall j :: 0 <= j < |op.steps| && j != i ==> after.steps[j] == op.steps[j]
  }

  lemma EntryPutChangesOne(op: Operation, stepName: string, entry: Entry) returns (i: nat)
    requires EntryPut(op, stepName, Given(entry)).Some?
    ensures var after := EntryPut(op, stepName, Given(entry)).value;
      && ValidOperation(after)
      && OnlyMappingDiffers(op, after, i)
      && op.steps[i].name == stepName
      && var (was, now) := (op.steps[i].mapping, after.steps[i].mapping);
      && Select(now, TARGET_OF, entry.target, true) == [entry]
      && Select(now, TARGET_OF, entry.target, false) == Select(was, TARGET_OF, entry.target, false)
      && |was| <= |now|
      && forall k :: 0 <= k < |was| ==> now[k] == if was[k].target == entry.target then entry else was[k]
  {
    i := SoleIndex(op.steps, NAME_OF, stepName).index;
    PutChangesOne(op.steps[i].mapping, TARGET_OF, entry);
  }

  lemma EntryRemovedTakesOne(op: Operation, stepName: string, target: string) returns (i: nat)
    requires EntryRemoved(op, stepName, target).Some?
    ensures var after := EntryRemoved(op, stepName, target).value;
      && ValidOperation(after)
      && OnlyMappingDiffers(op, after, i)
      && op.steps[i].name == stepName
      && after.steps[i].mapping == Select(op.steps[i].mapping, TARGET_OF, target, false)
      && |after.steps[i].mapping| + 1 == |op.steps[i].mapping|
  {
    i := SoleIndex(op.steps, NAME_OF, stepName).index;
    RemoveTakesOne(op.steps[i].mapping, TARGET_OF, target);
  }

  // ---------------------------------------------------------------------------------------------
  // The working copy.
  // ---------------------------------------------------------------------------------------------

  datatype Call =
    | PutOperationCall(name: Option<string>, whole: Option<Stored>)
    | RemoveOperationCall(name: Option<string>)
    | PutStepCall(operation: Option<string>, step: Given<Step>)
    | RemoveStepCall(operation: Option<string>, name: Option<string>)
    | PutEntryCall(operation: Option<string>, stepName: Option<string>, entry: Given<Entry>)
    | RemoveEntryCall(operation: Option<string>, stepName: Option<string>, target: Option<string>)
    | MarkNotApplicableCall(capability: Option<string>, reason: Option<string>)
    | MarkApplicableCall(capability: Option<string>)

  class WorkingDefinition {
    var operations: Operations
    var notApplicable: map<string, string>

    /** Only a prunable capability with a real reason is ever marked. */
    predicate Valid()
      reads this
    {
      forall c :: c in notApplicable ==> c in PRUNABLE_CAPABILITIES && !Blank(notApplicable[c])
    }

    /** The capabilities both drafted and marked not applicable. */
    function Both(): set<string>
      reads this
    {
      set c | c in notApplicable && Drafted(operations, c)
    }

    /** The seed's marks are kept only where they could have been made. */
    constructor (operations: Operations, marks: map<string, string>)
      ensures Valid() && this.operations == operations
      ensures notApplicable == map c | c in marks && c in PRUNABLE_CAPABILITIES && !Blank(marks[c]) :: marks[c]
    {
      this.operations := operations;
      this.notApplicable := map c | c in marks && c in PRUNABLE_CAPABILITIES && !Blank(marks[c]) :: marks[c];
    }

    /** An operation that may be edited: named, present and itself valid. */
    function Existing(name: Option<string>): Option<Operation>
      reads this
    {
      if name.Some? && name.value in operations && Storable(operations[name.value])
      then Some(operations[name.value].op) else None
    }

    /** Replaces an edited operation; nothing else changes. */
    method Store(name: string, candidate: Operation)
      requires Existing(Some(name)).Some? && candidate.labelSpec == Existing(Some(name)).value.labelSpec
      modifies `operations
      ensures operations == old(operations)[name := Parsed(candidate)]
      ensures Both() == old(Both())
    {
      operations := operations[name := Parsed(candidate)];
      LabelKept(old(operations), name, candidate);
    }

    method PutOperation(name: Option<string>, operation: Option<Stored>) returns (ok: bool)
      requires Valid()
      modifies this
      ensures Valid()
      ensures ok <==> name.Some? && operation.Some? && Storable(operation.value)
      ensures operations == if ok then old(operations)[name.value := operation.value] else old(operations)
      ensures !ok ==> notApplicable == old(notApplicable)
      ensures ok ==>
                notApplicable == map c | c in old(notApplicable) && !Drafted(operations, c) :: old(notApplicable)[c]
    {
      if name.None? || operation.None? || !Storable(operation.value) {
        return false;
      }
      operations := operations[name.value := operation.value];
      var cleared := set c | c in notApplicable && Drafted(operations, c);
      notApplicable := notApplicable - cleared;
      ok := true;
    }

    method RemoveOperation(name: Option<string>) returns (ok: bool)
      requires Valid()
      modifies `operations
      ensures Valid()
      ensures ok <==> name.Some? && name.value in old(operations)
      ensures operations == if ok then old(operations) - {name.value} else old(operations)
    {
      if name.None? || name.value !in operations {
        return false;
      }
      operations := operations - {name.value};
      ok := true;
    }

    method PutStep(operation: Option<string>, step: Given<Step>) returns (ok: bool)
      requires Valid()
      modifies `operations
      ensures Valid() && Both() == old(Both())
      ensures ok <==> old(Existing(operation)).Some? && StepPut(old(Existing(operation)).value, step).Some?
      ensures operations ==
              if ok then old(operations)[operation.value := Parsed(StepPut(old(Existing(operation)).value, step).value)]
              else old(operations)
    {
      var found := Existing(operation);
      if found.None? || !step.Given? {
        return false;
      }
      var candidate := found.value;
      match SoleIndex(candidate.steps, NAME_OF, step.item.name) {
        case Ambiguous => return false;
        case Absent => candidate := candidate.(steps := candidate.steps + [step.item]);
        case At(i) => candidate := candidate.(steps := candidate.steps[i := step.item]);
      }
      if !ValidOperation(candidate) {
        return false;
      }
      Store(operation.value, candidate);
      ok := true;
    }

    method RemoveStep(operation: Option<string>, name: Option<string>) returns (ok: bool)
      requires Valid()
      modifies `operations
      ensures Valid() && Both() == old(Both())
      ensures ok <==> name.Some? && old(Existing(operation)).Some? &&
                      StepRemoved(old(Existing(operation)).value, name.value).Some?
      ensures operations ==
              if ok then
                old(operations)[operation.value :=
                  Parsed(StepRemoved(old(Existing(operation)).value, name.value).value)]
              else old(operations)
    {
      var found := Existing(operation);
      if found.None? || name.None? {
        return false;
      }
      var candidate := found.value;
      match SoleIndex(candidate.steps, NAME_OF, name.value) {
        case Ambiguous => return false;
        case Absent => return false;
        case At(i) => candidate := candidate.(steps := candidate.steps[..i] + candidate.steps[i + 1..]);
      }
      if !ValidOperation(candidate) {
        return false;
      }
      Store(operation.value, candidate);
      ok := true;
    }

    method PutMappingEntry(operation: Option<string>, stepName: Option<string>, entry: Given<Entry>)
      returns (ok: bool)
      requires Valid()
      modifies `operations
      ensures Valid() && Both() == old(Both())
      ensures ok <==> stepName.Some? && old(Existing(operation)).Some? &&
                      EntryPut(old(Existing(operation)).value, stepName.value, entry).Some?
      ensures operations ==
              if ok then
                old(operations)[operation.value :=
                  Parsed(EntryPut(old(Existing(operation)).value, stepName.value, entry).value)]
              else old(operations)
    {
      var found := Existing(operation);
      if found.None? || stepName.None? || !entry.Given? {
        return false;
      }
      var candidate := found.value;
      var at := SoleIndex(candidate.steps, NAME_OF, stepName.value);
      if !at.At? {
        return false;
      }
      var mapping := candidate.steps[at.index].mapping;
      match SoleIndex(mapping, TARGET_OF, entry.item.target) {
        case Ambiguous => return false;
        case Absent => mapping := mapping + [entry.item];
        case At(k) => mapping := mapping[k := entry.item];
      }
      candidate := MappingSet(candidate, at.index, mapping);
      if !ValidOperation(candidate) {
        return false;
      }
      Store(operation.value, candidate);
      ok := true;
    }

    method RemoveMappingEntry(operation: Option<string>, stepName: Option<string>, target: Option<string>)
      returns (ok: bool)
      requires Valid()
      modifies `operations
      ensures Valid() && Both() == old(Both())
      ensures ok <==> stepName.Some? && target.Some? && old(Existing(operation)).Some? &&
                      EntryRemoved(old(Existing(operation)).value, stepName.value, target.value).Some?
      ensures operations ==
              if ok then
                old(operations)[operation.value :=
                  Parsed(EntryRemoved(old(Existing(operation)).value, stepName.value, target.value).value)]
              else old(operations)
    {
      var found := Existing(operation);
      if found.None? || stepName.None? || target.None? {
        return false;
      }
      var candidate := found.value;
      var at := SoleIndex(candidate.steps, NAME_OF, stepName.value);
      if !at.At? {
        return false;
      }
      var mapping := candidate.steps[at.index].mapping;
      match SoleIndex(mapping, TARGET_OF, target.value) {
        case Ambiguous => return false;
        case Absent => return false;
        case At(k) => mapping := mapping[..k] + mapping[k + 1..];
      }
      candidate := MappingSet(candidate, at.index, mapping);
      if !ValidOperation(candidate) {
        return false;
      }
      Store(operation.value, candidate);
      ok := true;
    }

    method MarkNotApplicable(capability: Option<string>, reason: Option<string>) returns (ok: bool)
      requires Valid()
      modifies `notApplicable
      ensures Valid() && Both() == old(Both())
      ensures ok <==> capability.Some? && reason.Some? && capability.value in PRUNABLE_CAPABILITIES &&
                      !Blank(reason.value) && !Drafted(operations, capability.value)
      ensures notApplicable == if ok then old(notApplicable)[capability.value := reason.value] else old(notApplicable)
      ensures ok <==>
                && capability.Some? && reason.Some?
                && (exists i :: 0 <= i < |reason.value| && !IsSpace(reason.value[i]))
                && if capability.value == "label" then
                     forall name :: name in operations ==>
                       match operations[name] case Raw(labelled) => !labelled case Parsed(op) => op.labelSpec.None?
                   else capability.value == "manifest" && "manifest" !in operations
    {
      if capability.None? || reason.None? || capability.value !in PRUNABLE_CAPABILITIES {
        return false;
      }
      if Blank(reason.value) || Drafted(operations, capability.value) {
        return false;
      }
      notApplicable := notApplicable[capability.value := reason.value];
      ok := true;
    }

    method MarkApplicable(capability: Option<string>) returns (ok: bool)
      requires Valid()
      modifies `notApplicable
      ensures Valid()
      ensures ok <==> capability.Some? && capability.value in old(notApplicable)
      ensures notApplicable == if ok then old(notApplicable) - {capability.value} else old(notApplicable)
    {
      if capability.None? || capability.value !in notApplicable {
        return false;
      }
      notApplicable := notApplicable - {capability.value};
      ok := true;
    }

    /** One tool call. */
    method Dispatch(call: Call) returns (ok: bool)
      requires Valid()
      modifies this
      ensures Valid() && Both() <= old(Both())
      ensures Earned(operations, old(operations))
      ensures !ok ==> operations == old(operations) && notApplicable == old(notApplicable)
    {
      match call
      case PutOperationCall(name, operation) => ok := PutOperation(name, operation);
      case RemoveOperationCall(name) =>
        ok := RemoveOperation(name);
        FewerDrafted(old(operations), operations);
      case PutStepCall(operation, step) => ok := PutStep(operation, step);
      case RemoveStepCall(operation, name) => ok := RemoveStep(operation, name);
      case PutEntryCall(operation, stepName, entry) => ok := PutMappingEntry(operation, stepName, entry);
      case RemoveEntryCall(operation, stepName, target) => ok := RemoveMappingEntry(operation, stepName, target);
      case MarkNotApplicableCall(capability, reason) => ok := MarkNotApplicable(capability, reason);
      case MarkApplicableCall(capability) => ok := MarkApplicable(capability);
    }

    /** Any sequence of calls: no capability becomes both drafted and not applicable, and every operation is
        either the seed's own or one the gate let in. */
    method DispatchAll(calls: seq<Call>)
      requires Valid()
      modifies this
      ensures Valid() && Both() <= old(Both())
      ensures Earned(operations, old(operations))
    {
      for i := 0 to |calls|
        invariant Valid() && Both() <= old(Both())
        invariant Earned(operations, old(operations))
      {
        var ok := Dispatch(calls[i]);
      }
    }
  }

  /** Each operation is as it was, or valid. */
  predicate Earned(operations: Operations, before: Operations) {
    forall name :: name in operations ==>
      Storable(operations[name]) || (name in before && operations[name] == before[name])
  }

  lemma LabelKept(operations: Operations, name: string, candidate: Operation)
    requires name in operations && operations[name].Parsed?
    requires candidate.labelSpec == operations[name].op.labelSpec
    ensures forall c :: Drafted(operations[name := Parsed(candidate)], c) <==> Drafted(operations, c)
  {
    var after := operations[name := Parsed(candidate)];
    forall other | other in operations
      ensures other in after && (HasLabel(after[other]) <==> HasLabel(operations[other]))
    {
    }
    assert Drafted(after, "label") <==> Drafted(operations, "label");
  }

  lemma FewerDrafted(operations: Operations, fewer: Operations)
    requires fewer.Keys <= operations.Keys && forall name :: name in fewer ==> fewer[name] == operations[name]
    ensures forall c :: Drafted(fewer, c) ==> Drafted(operations, c)
  {
  }
}
