/** Which service a shipment is given (domain/allocation.py, domain/model.py, domain/checks/): every service is
    checked, the eligible ones are costed, the cheapest wins. */
module Allocation {
  import opened Costs
  import opened Prelude

  datatype Service = Service(
    code: string,
    carrier: string,
    minKg: real,
    maxKg: real,
    countries: seq<string>,
    cost: real,
    tieBreak: int,
    maxDimensionCm: Option<real>,
    maxGirthCm: Option<real>,
    areasServed: Option<seq<string>>,
    areasBlocked: seq<string>,
    propositions: seq<string>,
    groups: seq<string>,
    bands: Option<seq<CostBand>>)

  /** The facts; an absent one is not yet known. */
  datatype Shipment = Shipment(
    country: string,
    weightKg: real,
    parcels: int,
    dimensionCm: Option<real>,
    girthCm: Option<real>,
    proposition: Option<string>,
    acceptedGroups: seq<string>,
    areas: seq<string>)

  // ---------------------------------------------------------------------------------------------
  // The checks.
  // ---------------------------------------------------------------------------------------------

  datatype CheckName =
    | Country | Weight | MaxDimension | Proposition | ServiceGroup | Girth | AreaBlocked | AreaServed | NoCostData

  datatype Check = Check(name: CheckName, ok: bool)

  predicate Overlap(a: seq<string>, b: seq<string>) {
    exists x :: x in a && x in b
  }

  predicate Within(limit: Option<real>, fact: Option<real>) {
    limit.None? || fact.None? || fact.value <= limit.value
  }

  predicate Holds(name: CheckName, v: Service, s: Shipment) {
    match name
    case Country => s.country in v.countries
    case Weight => v.minKg <= s.weightKg <= v.maxKg
    case MaxDimension => Within(v.maxDimensionCm, s.dimensionCm)
    case Proposition => v.propositions == [] || s.proposition.None? || s.proposition.value in v.propositions
    case ServiceGroup => s.acceptedGroups == [] || Overlap(s.acceptedGroups, v.groups)
    case Girth => Within(v.maxGirthCm, s.girthCm)
    case AreaBlocked => v.areasBlocked == [] || s.areas == [] || !Overlap(s.areas, v.areasBlocked)
    case AreaServed => v.areasServed.None? || s.areas == [] || Overlap(s.areas, v.areasServed.value)
    case NoCostData => false
  }

  /** The registry, in the order the trace shows. */
  const ALL_CHECKS := [Country, Weight, MaxDimension, Proposition, ServiceGroup, Girth, AreaBlocked, AreaServed]

  function Evaluate(v: Service, s: Shipment): seq<Check> {
    seq(|ALL_CHECKS|, i requires 0 <= i < |ALL_CHECKS| => Check(ALL_CHECKS[i], Holds(ALL_CHECKS[i], v, s)))
  }

  predicate AllOk(checks: seq<Check>) {
    forall i :: 0 <= i < |checks| ==> checks[i].ok
  }

  predicate Passes(v: Service, s: Shipment) {
    AllOk(Evaluate(v, s))
  }

  /** What a service declares, rule by rule. */
  predicate Declared(v: Service, s: Shipment) {
    && s.country in v.countries
    && v.minKg <= s.weightKg <= v.maxKg
    && (v.maxDimensionCm.Some? && s.dimensionCm.Some? ==> s.dimensionCm.value <= v.maxDimensionCm.value)
    && (v.maxGirthCm.Some? && s.girthCm.Some? ==> s.girthCm.value <= v.maxGirthCm.value)
    && (v.propositions != [] && s.proposition.Some? ==> s.proposition.value in v.propositions)
    && (s.acceptedGroups != [] ==> exists g :: g in s.acceptedGroups && g in v.groups)
    && (forall a :: a in s.areas ==> a !in v.areasBlocked)
    && (v.areasServed.Some? && s.areas != [] ==> exists a :: a in s.areas && a in v.areasServed.value)
  }

  lemma PassesExactlyWhen(v: Service, s: Shipment)
    ensures Passes(v, s) <==> Declared(v, s)
  {
    var checks := Evaluate(v, s);
    assert Passes(v, s) <==> checks[0].ok && checks[1].ok && checks[2].ok && checks[3].ok
                             && checks[4].ok && checks[5].ok && checks[6].ok && checks[7].ok;
  }

  /** A shipment with fewer facts known. */
  predicate Forgets(s: Shipment, less: Shipment) {
    && less.country == s.country && less.weightKg == s.weightKg && less.parcels == s.parcels
    && less.dimensionCm in {None, s.dimensionCm}
    && less.girthCm in {None, s.girthCm}
    && less.proposition in {None, s.proposition}
    && less.acceptedGroups in {[], s.acceptedGroups}
    && less.areas in {[], s.areas}
  }

  /** Unknown facts are treated optimistically: knowing less never makes a service ineligible. */
  lemma UnknownIsOptimistic(v: Service, s: Shipment, less: Shipment)
    requires Forgets(s, less) && Passes(v, s)
    ensures Passes(v, less)
  {
    PassesExactlyWhen(v, s);
    PassesExactlyWhen(v, less);
  }

  // ---------------------------------------------------------------------------------------------
  // Costing and choosing.
  // ---------------------------------------------------------------------------------------------

  /** What the selection compares: the banded cost when bands are configured, else the flat one. */
  function SelectionCost(v: Service, s: Shipment): Option<real> {
    if v.bands.None? then Some(v.cost)
    else CalculateCost(v.bands.value, Load(s.weightKg, s.parcels, s.dimensionCm))
  }

  predicate Candidate(v: Service, s: Shipment) {
    Passes(v, s) && SelectionCost(v, s).Some?
  }

  datatype Verdict = Verdict(code: string, eligible: bool, checks: seq<Check>)

  /** A service's final verdict: an eligible service that cannot be costed is excluded in the trace. */
  function VerdictOn(v: Service, s: Shipment): Verdict {
    var checks := Evaluate(v, s);
    if Passes(v, s) && SelectionCost(v, s).None? then Verdict(v.code, false, checks + [Check(NoCostData, false)])
    else Verdict(v.code, Passes(v, s), checks)
  }

  /** The eligible flag agrees with the checks shown, the appended one included, and says who can be chosen. */
  lemma EligibleIsTheConjunction(v: Service, s: Shipment)
    ensures VerdictOn(v, s).eligible <==> AllOk(VerdictOn(v, s).checks)
    ensures VerdictOn(v, s).eligible <==> Candidate(v, s)
  {
    var checks := VerdictOn(v, s).checks;
    if Passes(v, s) && SelectionCost(v, s).None? {
      assert !checks[|checks| - 1].ok;
    }
  }

  /** What a service would cost for a shipment: what its bands ask, or its flat cost if it has no bands. */
  ghost predicate WouldCost(v: Service, s: Shipment, cost: real) {
    match v.bands
    case None => cost == v.cost
    case Some(bands) => Asked(bands, Load(s.weightKg, s.parcels, s.dimensionCm), cost)
  }

  lemma SelectionCostIs(v: Service, s: Shipment, cost: real)
    ensures SelectionCost(v, s) == Some(cost) <==> WouldCost(v, s, cost)
  {
    if v.bands.Some? {
      CostIsAsked(v.bands.value, Load(s.weightKg, s.parcels, s.dimensionCm), cost);
    }
  }

  datatype Reason = NoneEligible | NoneCosted | Cheapest

  datatype Outcome = Outcome(selected: Option<Service>, cost: Option<real>, reason: Reason)

  predicate Ahead(a: Service, b: Service, s: Shipment)
    requires Candidate(a, s) && Candidate(b, s)
  {
    var (ca, cb) := (SelectionCost(a, s).value, SelectionCost(b, s).value);
    ca < cb || (ca == cb && a.tieBreak < b.tieBreak)
  }

  /** The one candidate ahead of every other. */
  predicate Wins(services: seq<Service>, s: Shipment, w: Service) {
    && w in services
    && Candidate(w, s)
    && forall v :: v in services && v != w && Candidate(v, s) ==> Ahead(w, v, s)
  }

  /** Unique codes and tie-break orders, and at least one service. */
  predicate ValidRulebook(services: seq<Service>) {
    services != [] && NoDuplicateField(services)
  }

  predicate NoDuplicateField(services: seq<Service>) {
    forall i, j :: 0 <= i < j < |services| ==>
      services[i].code != services[j].code && services[i].tieBreak != services[j].tieBreak
  }

  /** What an allocation answers, said without its loop. */
  ghost predicate Answers(services: seq<Service>, s: Shipment, o: Outcome) {
    match o.reason
    case NoneEligible => o == Outcome(None, None, NoneEligible) && forall v :: v in services ==> !Passes(v, s)
    case NoneCosted =>
      && o == Outcome(None, None, NoneCosted)
      && (exists v :: v in services && Passes(v, s))
      && (forall v :: v in services ==> !Candidate(v, s))
    case Cheapest =>
      && o.selected.Some?
      && Wins(services, s, o.selected.value)
      && o.cost == SelectionCost(o.selected.value, s)
  }

  /** A service that can be chosen, and at what cost. */
  ghost predicate Chosen(services: seq<Service>, s: Shipment, v: Service, cost: real) {
    v in services && Declared(v, s) && WouldCost(v, s, cost)
  }

  /** What an allocation answers, from the services' own fields: the service that can be chosen and costs less than
      every other, or as much and comes first in the tie-break order; with its cost; and none exactly when none can be
      chosen, told apart by whether any service's rules hold. */
  lemma AnswerFromTheServices(services: seq<Service>, s: Shipment, o: Outcome)
    requires Answers(services, s, o)
    ensures o.selected.Some? <==> exists v, cost :: Chosen(services, s, v, cost)
    ensures o.selected.Some? ==>
              && o.reason == Cheapest && o.cost.Some? && Chosen(services, s, o.selected.value, o.cost.value)
              && forall v, cost :: v != o.selected.value && Chosen(services, s, v, cost) ==>
                   o.cost.value < cost || (o.cost.value == cost && o.selected.value.tieBreak < v.tieBreak)
    ensures o.selected.None? ==>
              && o.cost.None? && o.reason != Cheapest
              && (o.reason == NoneCosted <==> exists v :: v in services && Declared(v, s))
  {
    forall v
      ensures Passes(v, s) <==> Declared(v, s)
    {
      PassesExactlyWhen(v, s);
    }
    forall v, cost
      ensures SelectionCost(v, s) == Some(cost) <==> WouldCost(v, s, cost)
    {
      SelectionCostIs(v, s, cost);
    }
    if o.selected.Some? {
      assert Chosen(services, s, o.selected.value, o.cost.value);
    }
  }

  // ---------------------------------------------------------------------------------------------
  // Order-blindness.
  // ---------------------------------------------------------------------------------------------

  lemma SameMembers(a: seq<Service>, b: seq<Service>)
    requires multiset(a) == multiset(b)
    ensures forall v :: v in a <==> v in b
  {
    assert forall v :: v in a <==> v in multiset(a);
    assert forall v :: v in b <==> v in multiset(b);
  }

  lemma OneWinner(services: seq<Service>, s: Shipment, w: Service, x: Service)
    requires Wins(services, s, w) && Wins(services, s, x)
    ensures w == x
  {
  }

  /** The answer does not depend on the order of the services: whatever two allocations of the same services
      answer, they answer the same. */
  lemma AllocationIsOrderBlind(a: seq<Service>, b: seq<Service>, s: Shipment, oa: Outcome, ob: Outcome)
    requires multiset(a) == multiset(b) && Answers(a, s, oa) && Answers(b, s, ob)
    ensures oa == ob
  {
    SameMembers(a, b);
    if oa.reason == Cheapest && ob.reason == Cheapest {
      assert Wins(a, s, ob.selected.value);
      OneWinner(a, s, oa.selected.value, ob.selected.value);
    }
  }

  /** The same service with its cost bands listed in another order. */
  predicate Relisted(v: Service, w: Service) {
    && w == v.(bands := w.bands)
    && (v.bands.Some? <==> w.bands.Some?)
    && (v.bands.Some? ==> multiset(v.bands.value) == multiset(w.bands.value))
  }

  lemma RelistedCost(v: Service, w: Service, s: Shipment)
    requires Relisted(v, w)
    ensures SelectionCost(v, s) == SelectionCost(w, s)
  {
    if v.bands.Some? {
      CostIsBandOrderBlind(v.bands.value, w.bands.value, Load(s.weightKg, s.parcels, s.dimensionCm));
    }
  }

  lemma RelistedChecks(v: Service, w: Service, s: Shipment)
    requires Relisted(v, w)
    ensures Evaluate(v, s) == Evaluate(w, s)
  {
  }

  predicate RelistedAll(a: seq<Service>, b: seq<Service>) {
    |a| == |b| && forall i :: 0 <= i < |a| ==> Relisted(a[i], b[i])
  }

  lemma RelistedCandidates(a: seq<Service>, b: seq<Service>, s: Shipment, i: nat)
    requires RelistedAll(a, b) && i < |a|
    ensures VerdictOn(a[i], s) == VerdictOn(b[i], s) && (Passes(a[i], s) <==> Passes(b[i], s))
    ensures (Candidate(a[i], s) <==> Candidate(b[i], s)) && SelectionCost(a[i], s) == SelectionCost(b[i], s)
  {
    RelistedCost(a[i], b[i], s);
    RelistedChecks(a[i], b[i], s);
  }

  lemma RelistedWinner(a: seq<Service>, b: seq<Service>, s: Shipment, i: nat)
    requires RelistedAll(a, b) && NoDuplicateField(a) && i < |a| && Wins(a, s, a[i])
    ensures Wins(b, s, b[i])
  {
    RelistedCandidates(a, b, s, i);
    forall j | 0 <= j < |b| && b[j] != b[i] && Candidate(b[j], s)
      ensures Ahead(b[i], b[j], s)
    {
      RelistedCandidates(a, b, s, j);
      assert a[j] != a[i];
      assert Ahead(a[i], a[j], s);
    }
  }

  /** Listing any service's cost bands in another order changes no verdict, nor the winner, its cost or the
      reason. */
  lemma AllocationIsBandOrderBlind(a: seq<Service>, b: seq<Service>, s: Shipment, oa: Outcome, ob: Outcome)
    requires RelistedAll(a, b) && NoDuplicateField(a) && Answers(a, s, oa) && Answers(b, s, ob)
    ensures forall i :: 0 <= i < |a| ==> VerdictOn(a[i], s) == VerdictOn(b[i], s)
    ensures oa.reason == ob.reason && oa.cost == ob.cost
    ensures oa.selected.Some? <==> ob.selected.Some?
    ensures oa.selected.Some? ==> Relisted(oa.selected.value, ob.selected.value)
  {
    forall i | 0 <= i < |a|
      ensures VerdictOn(a[i], s) == VerdictOn(b[i], s) && (Passes(a[i], s) <==> Passes(b[i], s))
      ensures Candidate(a[i], s) <==> Candidate(b[i], s)
    {
      RelistedCandidates(a, b, s, i);
    }
    SameReason(a, b, s, oa, ob);
    if oa.reason == Cheapest {
      var i :| 0 <= i < |a| && a[i] == oa.selected.value;
      RelistedWinner(a, b, s, i);
      RelistedCandidates(a, b, s, i);
      OneWinner(b, s, b[i], ob.selected.value);
    }
  }

  lemma SameReason(a: seq<Service>, b: seq<Service>, s: Shipment, oa: Outcome, ob: Outcome)
    requires |a| == |b| && Answers(a, s, oa) && Answers(b, s, ob)
    requires forall i :: 0 <= i < |a| ==> Passes(a[i], s) == Passes(b[i], s) && Candidate(a[i], s) == Candidate(b[i], s)
    ensures oa.reason == ob.reason
  {
  }

  // ---------------------------------------------------------------------------------------------
  // The loops.
  // ---------------------------------------------------------------------------------------------

  datatype DuplicateField = DuplicateCode(code: string) | DuplicateTieBreak(order: int)

  /** Reports the first service that repeats an earlier code or, its code being new, an earlier order. */
  method DuplicateServiceField(services: seq<Service>) returns (duplicate: Option<DuplicateField>)
    ensures duplicate.None? <==> NoDuplicateField(services)
    ensures duplicate.Some? ==> exists i :: 0 <= i < |services| && FirstRepeat(services, i, duplicate.value)
  {
    var seenCodes: set<string>, seenOrders: set<int> := {}, {};
    for i := 0 to |services|
      invariant seenCodes == set j | 0 <= j < i :: services[j].code
      invariant seenOrders == set j | 0 <= j < i :: services[j].tieBreak
      invariant NoDuplicateField(services[..i])
    {
      assert services[i].code in seenCodes <==> RepeatsCode(services, i);
      assert services[i].tieBreak in seenOrders <==> RepeatsOrder(services, i);
      if services[i].code in seenCodes {
        assert FirstRepeat(services, i, DuplicateCode(services[i].code));
        return Some(DuplicateCode(services[i].code));
      }
      if services[i].tieBreak in seenOrders {
        assert FirstRepeat(services, i, DuplicateTieBreak(services[i].tieBreak));
        return Some(DuplicateTieBreak(services[i].tieBreak));
      }
      seenCodes := seenCodes + {services[i].code};
      seenOrders := seenOrders + {services[i].tieBreak};
    }
    assert services[..|services|] == services;
    duplicate := None;
  }

  predicate RepeatsCode(services: seq<Service>, i: nat)
    requires i < |services|
  {
    exists j :: 0 <= j < i && services[j].code == services[i].code
  }

  predicate RepeatsOrder(services: seq<Service>, i: nat)
    requires i < |services|
  {
    exists j :: 0 <= j < i && services[j].tieBreak == services[i].tieBreak
  }

  /** The i-th service is the first to repeat anything, and what is reported is what it repeats. */
  predicate FirstRepeat(services: seq<Service>, i: nat, d: DuplicateField)
    requires i < |services|
  {
    && NoDuplicateField(services[..i])
    && match d
       case DuplicateCode(code) => services[i].code == code && RepeatsCode(services, i)
       case DuplicateTieBreak(order) =>
         services[i].tieBreak == order && RepeatsOrder(services, i) && !RepeatsCode(services, i)
  }

  /** One line of the trace, corrected in place when its service turns out to have no cost. */
  class ServiceResult {
    const code: string
    var eligible: bool
    var checks: seq<Check>

    constructor (v: Service, s: Shipment)
      ensures code == v.code && eligible == Passes(v, s) && checks == Evaluate(v, s)
    {
      code := v.code;
      eligible := Passes(v, s);
      checks := Evaluate(v, s);
    }

    function Now(): Verdict
      reads this
    {
      Verdict(code, eligible, checks)
    }

    method ExcludeWithoutCost()
      modifies this
      ensures checks == old(checks) + [Check(NoCostData, false)] && !eligible
    {
      checks := checks + [Check(NoCostData, false)];
      eligible := false;
    }
  }

  method EvaluateServices(services: seq<Service>, s: Shipment) returns (results: seq<ServiceResult>)
    ensures |results| == |services| && fresh(results)
    ensures forall i :: 0 <= i < |results| ==>
              results[i].Now() == Verdict(services[i].code, Passes(services[i], s), Evaluate(services[i], s))
    ensures forall i, j :: 0 <= i < j < |results| ==> results[i] != results[j]
  {
    results := [];
    for i := 0 to |services|
      invariant |results| == i && fresh(results)
      invariant forall j :: 0 <= j < i ==>
                  results[j].Now() == Verdict(services[j].code, Passes(services[j], s), Evaluate(services[j], s))
      invariant forall j, k :: 0 <= j < k < i ==> results[j] != results[k]
    {
      var r := new ServiceResult(services[i], s);
      results := results + [r];
    }
  }

  /** Each service's result, found by its code. */
  ghost predicate ByCode(services: seq<Service>, results: seq<ServiceResult>, byCode: map<string, ServiceResult>) {
    && |results| == |services|
    && (forall i, j :: 0 <= i < j < |results| ==> results[i] != results[j])
    && (forall i :: 0 <= i < |services| ==> services[i].code in byCode && byCode[services[i].code] == results[i])
  }

  method IndexByCode(services: seq<Service>, results: seq<ServiceResult>) returns (byCode: map<string, ServiceResult>)
    requires NoDuplicateField(services) && |results| == |services|
    requires forall i :: 0 <= i < |results| ==> results[i].code == services[i].code
    requires forall i, j :: 0 <= i < j < |results| ==> results[i] != results[j]
    ensures ByCode(services, results, byCode)
  {
    byCode := map[];
    for i := 0 to |results|
      invariant forall j :: 0 <= j < i ==> services[j].code in byCode && byCode[services[j].code] == results[j]
    {
      byCode := byCode[results[i].code := results[i]];
    }
  }

  predicate Once(services: seq<Service>) {
    forall i, j :: 0 <= i < j < |services| ==> services[i] != services[j]
  }

  ghost predicate EligibleAmong(services: seq<Service>, s: Shipment, eligible: seq<Service>) {
    Once(eligible) && forall v :: v in eligible <==> v in services && Passes(v, s)
  }

  method PickEligible(services: seq<Service>, s: Shipment, byCode: map<string, ServiceResult>,
                      ghost results: seq<ServiceResult>)
    returns (eligible: seq<Service>)
    requires NoDuplicateField(services) && ByCode(services, results, byCode)
    requires forall i :: 0 <= i < |results| ==> results[i].eligible == Passes(services[i], s)
    ensures EligibleAmong(services, s, eligible)
  {
    eligible := [];
    for i := 0 to |services|
      invariant EligibleAmong(services[..i], s, eligible)
    {
      assert services[..i + 1] == services[..i] + [services[i]];
      assert services[i] !in services[..i];
      if byCode[services[i].code].eligible {
        eligible := eligible + [services[i]];
      }
    }
    assert services[..|services|] == services;
  }

  /** The candidates among some services, each with its cost. */
  ghost predicate CostedAmong(eligible: seq<Service>, s: Shipment, costed: seq<(real, Service)>) {
    && (forall k :: 0 <= k < |costed| ==>
          costed[k].1 in eligible && SelectionCost(costed[k].1, s) == Some(costed[k].0))
    && (forall v :: v in eligible && SelectionCost(v, s).Some? ==> (SelectionCost(v, s).value, v) in costed)
  }

  /** Where the trace stands once the costs of some eligible services have been looked up. */
  function VerdictSoFar(v: Service, s: Shipment, costed: seq<Service>): Verdict {
    if v in costed then VerdictOn(v, s) else Verdict(v.code, Passes(v, s), Evaluate(v, s))
  }

  method CostEligible(services: seq<Service>, s: Shipment, eligible: seq<Service>, byCode: map<string, ServiceResult>,
                      ghost results: seq<ServiceResult>)
    returns (costed: seq<(real, Service)>)
    requires NoDuplicateField(services) && ByCode(services, results, byCode) && EligibleAmong(services, s, eligible)
    requires forall i :: 0 <= i < |results| ==> results[i].Now() == VerdictSoFar(services[i], s, [])
    modifies results
    ensures CostedAmong(eligible, s, costed)
    ensures forall i :: 0 <= i < |results| ==> results[i].Now() == VerdictOn(services[i], s)
  {
    costed := [];
    for k := 0 to |eligible|
      invariant CostedAmong(eligible[..k], s, costed)
      invariant forall i :: 0 <= i < |results| ==> results[i].Now() == VerdictSoFar(services[i], s, eligible[..k])
    {
      var v := eligible[k];
      assert eligible[..k + 1] == eligible[..k] + [v];
      assert v !in eligible[..k];
      assert v in eligible && v in services;
      ghost var i :| 0 <= i < |services| && services[i] == v;
      var cost := SelectionCost(v, s);
      if cost.None? {
        byCode[v.code].ExcludeWithoutCost();
      } else {
        costed := costed + [(cost.value, v)];
      }
    }
    assert eligible[..|eligible|] == eligible;
  }

  predicate NotAfter(a: (real, Service), b: (real, Service)) {
    a.0 < b.0 || (a.0 == b.0 && a.1.tieBreak <= b.1.tieBreak)
  }

  method Minimum(costed: seq<(real, Service)>) returns (best: (real, Service))
    requires costed != []
    ensures best in costed && forall p :: p in costed ==> NotAfter(best, p)
  {
    best := costed[0];
    for k := 1 to |costed|
      invariant best in costed && forall j :: 0 <= j < k ==> NotAfter(best, costed[j])
    {
      if !NotAfter(best, costed[k]) {
        best := costed[k];
      }
    }
  }

  method Allocate(services: seq<Service>, s: Shipment) returns (results: seq<ServiceResult>, o: Outcome)
    requires ValidRulebook(services)
    ensures |results| == |services|
    ensures forall i :: 0 <= i < |results| ==> results[i].Now() == VerdictOn(services[i], s)
    ensures Answers(services, s, o)
  {
    results := EvaluateServices(services, s);
    var byCode := IndexByCode(services, results);
    var eligible := PickEligible(services, s, byCode, results);
    var costed := CostEligible(services, s, eligible, byCode, results);
    if costed == [] {
      assert forall v :: v in services ==> !Candidate(v, s);
      if eligible == [] {
        return results, Outcome(None, None, NoneEligible);
      }
      assert eligible[0] in eligible;
      return results, Outcome(None, None, NoneCosted);
    }
    var best := Minimum(costed);
    forall v | v in services && v != best.1 && Candidate(v, s)
      ensures Ahead(best.1, v, s)
    {
      assert NotAfter(best, (SelectionCost(v, s).value, v));
      assert v.tieBreak != best.1.tieBreak;
    }
    o := Outcome(Some(best.1), Some(best.0), Cheapest);
  }
}
