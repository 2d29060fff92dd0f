/** What every sequence of deliveries and redeliveries does to a manifest: what its status tells of the run, and
    what never changes once it is sent. */
module Deliveries {
  import opened Bookings
  import opened Lifecycle
  import opened LifecycleProofs
  import opened Prelude

  // ---------------------------------------------------------------------------------------------
  // One call.
  // ---------------------------------------------------------------------------------------------

  /** The operation is published, and the warehouse known if one is named. */
  predicate Possible(w: World, m: nat, met: Meeting)
    requires m < |w.manifests|
  {
    met.fanOut.Some? && (w.manifests[m].warehouse.Some? ==> met.warehouseKnown)
  }

  /** One document per consignment on the manifest, or one for all. */
  function Needed(w: World, m: nat, met: Meeting): nat
    requires m < |w.manifests| && Possible(w, m, met)
  {
    if met.fanOut.value then |IdsOn(w.members, m)| else 1
  }

  /** Every document the manifest needs goes out. */
  predicate Goes(w: World, m: nat, met: Meeting)
    requires m < |w.manifests|
  {
    && Possible(w, m, met)
    && forall k :: 0 <= k < Needed(w, m, met) ==> Emits(met.outcomes, k)
  }

  /** The delivery comes upon an infrastructure fault, which rolls it back. */
  predicate Faults(w: World, m: nat, met: Meeting)
    requires m < |w.manifests|
  {
    && Possible(w, m, met)
    && exists k :: 0 <= k < Needed(w, m, met) && k < |met.outcomes| && met.outcomes[k] == Fault
                   && forall j :: 0 <= j < k ==> Emits(met.outcomes, j)
  }

  /** The first `k` documents have gone out: each consignment's in the order they are declared, or the one for all. */
  predicate DocumentsOut(w: World, m: nat, met: Meeting, k: nat, w': World)
    requires m < |w.manifests| && Possible(w, m, met)
  {
    && k <= Needed(w, m, met)
    && |w'.documents| == |w.documents| + k
    && w.documents <= w'.documents
    && forall i :: 0 <= i < k ==>
         w'.documents[|w.documents| + i] ==
         Document(m, if met.fanOut.value then Some(IdsOn(w.members, m)[i]) else None)
  }

  /** The events of one stage for the manifest's consignments, in the order they are declared. */
  predicate EventsAdded(w: World, m: nat, stage: Stage, w': World) {
    var ids := IdsOn(w.members, m);
    && |w'.events| == |w.events| + |ids|
    && w.events <= w'.events
    && forall i :: 0 <= i < |ids| && ids[i] < |w.consignments| ==>
         w'.events[|w.events| + i] == Event(w.consignments[ids[i]].order, stage, Some(m))
  }

  /** The manifest's row is now `now`, its consignments have left, each with its event, and no other row changed. */
  predicate Away(w: World, m: nat, now: Manifest, w': World)
    requires m < |w.manifests|
  {
    && w' == w.(manifests := w.manifests[m := now], consignments := w'.consignments, events := w'.events,
                documents := w'.documents)
    && |w'.consignments| == |w.consignments|
    && (forall c :: 0 <= c < |w.consignments| ==>
          w'.consignments[c] ==
          if Member(m, c) in w.members then w.consignments[c].(status := Dispatched) else w.consignments[c])
    && EventsAdded(w, m, AsManifested, w')
  }

  /** What one delivery leaves, told from the manifest and what the delivery meets. */
  ghost predicate DeliveryTells(w: World, m: nat, attempts: nat, met: Meeting, w': World)
    requires m < |w.manifests|
  {
    var counted := w.manifests[m].(attempts := attempts + 1);
    if w.manifests[m].status == Sent then w' == w.(manifests := w.manifests[m := counted])
    else
      && (if Possible(w, m, met) then
            exists k: nat :: GoOut(met.outcomes, Needed(w, m, met), k) && DocumentsOut(w, m, met, k, w')
          else w'.documents == w.documents)
      && if Goes(w, m, met) then Away(w, m, counted.(status := Sent), w')
         else if Faults(w, m, met) then w' == w.(documents := w'.documents)
         else if attempts < MAX_ATTEMPTS then
           w' == w.(manifests := w.manifests[m := counted.(erred := true)], documents := w'.documents)
         else
           && w' == w.(manifests := w.manifests[m := counted.(erred := true, status := Failed)],
                       events := w'.events, documents := w'.documents)
           && EventsAdded(w, m, AsManifestFailed, w')
  }

  /** Which documents a send attempt gets out. */
  lemma OutMeans(w: World, m: nat, met: Meeting)
    requires m < |w.manifests| && Possible(w, m, met)
    ensures var documents := Documents(w, m, met.fanOut.value);
            var k := EmittedCount(met.outcomes, |documents|);
      && |documents| == Needed(w, m, met)
      && GoOut(met.outcomes, Needed(w, m, met), k)
      && (k == |documents| <==> Goes(w, m, met))
      && (k < |documents| && k < |met.outcomes| && met.outcomes[k].Fault? <==> Faults(w, m, met))
      && DocumentsOut(w, m, met, k, w.(documents := w.documents + documents[..k]))
  {
    var k := EmittedCount(met.outcomes, |Documents(w, m, met.fanOut.value)|);
    if Faults(w, m, met) {
      var f :| 0 <= f < Needed(w, m, met) && f < |met.outcomes| && met.outcomes[f] == Fault
               && forall j :: 0 <= j < f ==> Emits(met.outcomes, j);
      assert !Emits(met.outcomes, f) && f == k;
    }
  }

  lemma AwayMeans(w: World, m: nat, attempts: nat, documents: seq<Document>)
    requires m < |w.manifests|
    ensures var sent := w.manifests[m].(attempts := attempts + 1, status := Sent);
            Away(w, m, sent, SendSucceeds(w.(documents := documents), m, attempts))
  {
    IdsOnExact(w.members, m);
  }

  lemma FailMeans(w: World, m: nat, attempts: nat, documents: seq<Document>)
    requires m < |w.manifests|
    ensures var failed := w.manifests[m].(attempts := attempts + 1, erred := true);
            var w' := FailDelivery(w.(documents := documents), m, attempts);
      if attempts < MAX_ATTEMPTS then w' == w.(manifests := w.manifests[m := failed], documents := documents)
      else
        && w' == w.(manifests := w.manifests[m := failed.(status := Failed)], events := w'.events,
                    documents := documents)
        && EventsAdded(w, m, AsManifestFailed, w')
  {
  }

  /** A delivery does just this. */
  lemma DeliverMeans(w: World, m: nat, attempts: nat, met: Meeting)
    requires m < |w.manifests|
    ensures DeliveryTells(w, m, attempts, met, Deliver(w, m, attempts, met))
  {
    if Possible(w, m, met) {
      OutMeans(w, m, met);
      var documents := Documents(w, m, met.fanOut.value);
      var out := w.documents + documents[..EmittedCount(met.outcomes, |documents|)];
      AwayMeans(w, m, attempts, out);
      FailMeans(w, m, attempts, out);
    } else {
      FailMeans(w, m, attempts, w.documents);
    }
  }

  /** The consignments declared on a manifest, row by row: those of the rows that name it, in the rows' order. */
  lemma {:induction false} IdsOnByRow(before: seq<Member>, after: seq<Member>, row: Member, m: nat)
    ensures IdsOn([], m) == []
    ensures IdsOn(before + [row] + after, m) ==
            IdsOn(before, m) + (if row.manifest == m then [row.consignment] else []) + IdsOn(after, m)
    decreases |after|
  {
    var all := before + [row] + after;
    if after == [] {
      assert all[..|all| - 1] == before && all[|all| - 1] == row;
    } else {
      var n := |after| - 1;
      IdsOnByRow(before, after[..n], row, m);
      assert all[..|all| - 1] == before + [row] + after[..n] && all[|all| - 1] == after[n];
    }
  }

  /** The delivery fails for a recorded reason and has no retry left. */
  predicate GivesUp(w: World, m: nat, attempts: nat, met: Meeting)
    requires m < |w.manifests|
  {
    attempts >= MAX_ATTEMPTS && !Goes(w, m, met) && !Faults(w, m, met)
  }

  function NextStatus(w: World, a: Action, m: nat): SendStatus
    requires m < |w.manifests|
  {
    if !a.DoDeliver? || a.mid != m || w.manifests[m].status == Sent then w.manifests[m].status
    else if Goes(w, m, a.met) then Sent
    else if GivesUp(w, m, a.attempts, a.met) then Failed
    else w.manifests[m].status
  }

  /** The documents about one manifest, in the order they went out. */
  function About(documents: seq<Document>, m: nat): seq<Document>
    decreases |documents|
  {
    if documents == [] then []
    else
      var (init, last) := (documents[..|documents| - 1], documents[|documents| - 1]);
      if last.manifest == m then About(init, m) + [last] else About(init, m)
  }

  /** No call changes a manifest's carrier, warehouse or members. */
  predicate SameManifest(w: World, w': World, m: nat) {
    && m < |w.manifests| <= |w'.manifests|
    && w'.manifests[m].carrier == w.manifests[m].carrier
    && w'.manifests[m].warehouse == w.manifests[m].warehouse
    && w'.manifests[m].code == w.manifests[m].code
    && IdsOn(w'.members, m) == IdsOn(w.members, m)
  }

  lemma {:induction false} NoneAdded(before: seq<Member>, rows: seq<Member>, m: nat)
    requires forall i :: 0 <= i < |rows| ==> rows[i].manifest != m
    ensures IdsOn(before + rows, m) == IdsOn(before, m)
    decreases |rows|
  {
    if rows == [] {
      assert before + rows == before;
    } else {
      var n := |rows| - 1;
      NoneAdded(before, rows[..n], m);
      assert (before + rows)[..|before + rows| - 1] == before + rows[..n];
    }
  }

  lemma ManifestsKeep(w: World, sel: seq<nat>, manifesting: set<string>, m: nat)
    requires Inv(w) && Eligible(w, sel) && m < |w.manifests|
    ensures var w' := CreateManifests(w, sel, manifesting);
            SameManifest(w, w', m) && w'.manifests[m] == w.manifests[m] && w'.documents == w.documents
  {
    NewRows(w, sel, manifesting);
    NoneAdded(w.members, RowsAdded(w, sel, manifesting), m);
  }

  lemma {:induction false} NoneAbout(before: seq<Document>, more: seq<Document>, m: nat)
    requires forall i :: 0 <= i < |more| ==> more[i].manifest != m
    ensures About(before + more, m) == About(before, m)
    decreases |more|
  {
    if more == [] {
      assert before + more == before;
    } else {
      var n := |more| - 1;
      NoneAbout(before, more[..n], m);
      assert (before + more)[..|before + more| - 1] == before + more[..n];
    }
  }

  /** Another manifest's delivery is nothing to this one. */
  lemma DeliveredElsewhere(w: World, mid: nat, attempts: nat, met: Meeting, m: nat)
    requires m < |w.manifests| && mid != m
    ensures var w' := Deliver(w, mid, attempts, met);
      && |w'.manifests| == |w.manifests|
      && w'.members == w.members
      && w'.manifests[m] == w.manifests[m]
      && About(w'.documents, m) == About(w.documents, m)
  {
    if mid < |w.manifests| && met.fanOut.Some? {
      var documents := Documents(w, mid, met.fanOut.value);
      NoneAbout(w.documents, documents[..EmittedCount(met.outcomes, |documents|)], m);
    }
  }

  /** The status one call leaves a manifest in; a manifest just made is pending. */
  lemma DeliverKeeps(w: World, mid: nat, attempts: nat, met: Meeting, m: nat)
    requires m < |w.manifests|
    ensures var w' := Deliver(w, mid, attempts, met);
      && |w'.manifests| == |w.manifests|
      && SameManifest(w, w', m)
      && w'.manifests[m].status == NextStatus(w, DoDeliver(mid, attempts, met), m)
      && (w.manifests[m].status == Sent ==>
            && w'.manifests[m] == w.manifests[m].(attempts := w'.manifests[m].attempts)
            && About(w'.documents, m) == About(w.documents, m))
  {
    if mid != m {
      DeliveredElsewhere(w, mid, attempts, met, m);
    } else {
      DeliverMeans(w, m, attempts, met);
    }
  }

  lemma CallKeeps(w: World, a: Action, m: nat)
    requires Inv(w) && m < |w.manifests|
    ensures var w' := Step(w, a);
      && SameManifest(w, w', m)
      && w'.manifests[m].status == NextStatus(w, a, m)
      && (w.manifests[m].status == Sent ==>
            && w'.manifests[m] == w.manifests[m].(attempts := w'.manifests[m].attempts)
            && About(w'.documents, m) == About(w.documents, m))
  {
    match a
    case DoCreate(order, warehouse, fate) => OnlyRows(w, order, warehouse, fate);
    case DoMarkReady(picks) =>
    case DoConfirm(orders, manifesting) =>
      if !Refused(w.consignments, orders) {
        assert forall i :: 0 <= i < |orders| ==> Confirmable(w.consignments, orders[i]);
        ToManifestEligible(w, orders);
        ManifestsKeep(w, ToManifest(w.consignments, orders), manifesting, m);
      }
    case DoSweep(carrier, warehouse, manifesting) =>
      var sel := ReadyRows(w.consignments, carrier, warehouse);
      ReadyRowsExact(w.consignments, carrier, warehouse);
      assert forall i :: 0 <= i < |sel| ==> sel[i] in sel;
      ManifestsKeep(w, sel, manifesting, m);
    case DoDeliver(mid, attempts, met) => DeliverKeeps(w, mid, attempts, met, m);
  }

  lemma OnlyRows(w: World, order: string, warehouse: Option<string>, fate: Fate)
    ensures var w' := Create(w, order, warehouse, fate);
            w'.manifests == w.manifests && w'.members == w.members && w'.documents == w.documents
  {
  }

  lemma MadePending(w: World, a: Action, m: nat)
    requires Inv(w) && |w.manifests| <= m < |Step(w, a).manifests|
    ensures Step(w, a).manifests[m].status == Pending
  {
    match a
    case DoCreate(order, warehouse, fate) => OnlyRows(w, order, warehouse, fate);
    case DoMarkReady(picks) =>
    case DoConfirm(orders, manifesting) =>
    case DoSweep(carrier, warehouse, manifesting) =>
    case DoDeliver(mid, attempts, met) =>
      if mid < |w.manifests| {
        DeliverKeeps(w, mid, attempts, met, mid);
      }
  }

  // ---------------------------------------------------------------------------------------------
  // Whole runs.
  // ---------------------------------------------------------------------------------------------

  /** The k-th action delivers the manifest's job, and every document goes out. */
  predicate SentAt(actions: seq<Action>, k: nat, m: nat) {
    && k < |actions|
    && actions[k].DoDeliver?
    && actions[k].mid == m < |Run(EMPTY, actions[..k]).manifests|
    && Goes(Run(EMPTY, actions[..k]), m, actions[k].met)
  }

  predicate GivenUpAt(actions: seq<Action>, k: nat, m: nat) {
    && k < |actions|
    && actions[k].DoDeliver?
    && actions[k].mid == m < |Run(EMPTY, actions[..k]).manifests|
    && GivesUp(Run(EMPTY, actions[..k]), m, actions[k].attempts, actions[k].met)
  }

  predicate SentBefore(actions: seq<Action>, n: nat, m: nat) {
    exists k: nat :: k < n && SentAt(actions, k, m)
  }

  predicate GivenUpBefore(actions: seq<Action>, n: nat, m: nat) {
    exists k: nat :: k < n && GivenUpAt(actions, k, m)
  }

  /** What the n-th call of a run makes of a manifest's status. */
  lemma StatusNext(actions: seq<Action>, n: nat, m: nat)
    requires n < |actions|
    ensures var (w, w') := (Run(EMPTY, actions[..n]), Run(EMPTY, actions[..n + 1]));
      && |w.manifests| <= |w'.manifests|
      && (m < |w'.manifests| ==>
            w'.manifests[m].status == if m < |w.manifests| then NextStatus(w, actions[n], m) else Pending)
  {
    var (w, a) := (Run(EMPTY, actions[..n]), actions[n]);
    Reachable(actions[..n]);
    RunNext(actions, n);
    StepKeepsInv(w, a);
    if m < |w.manifests| {
      CallKeeps(w, a, m);
    } else if m < |Step(w, a).manifests| {
      MadePending(w, a, m);
    }
  }

  lemma {:induction false} StatusTold(actions: seq<Action>, n: nat, m: nat)
    requires n <= |actions|
    ensures var w := Run(EMPTY, actions[..n]);
      && (m >= |w.manifests| ==> !SentBefore(actions, n, m) && !GivenUpBefore(actions, n, m))
      && (m < |w.manifests| ==>
            w.manifests[m].status ==
            if SentBefore(actions, n, m) then Sent else if GivenUpBefore(actions, n, m) then Failed else Pending)
    decreases n
  {
    if n > 0 {
      StatusTold(actions, n - 1, m);
      StatusNext(actions, n - 1, m);
      assert SentBefore(actions, n, m) <==> SentBefore(actions, n - 1, m) || SentAt(actions, n - 1, m);
      assert GivenUpBefore(actions, n, m) <==> GivenUpBefore(actions, n - 1, m) || GivenUpAt(actions, n - 1, m);
    }
  }

  /** A manifest's status tells its whole history, however often its job is delivered: it is sent exactly when in
      some delivery every document went out; failing that it is failed exactly when some delivery with no retry left
      failed for a recorded reason; and otherwise it is still pending. */
  lemma StatusTellsTheRun(actions: seq<Action>, m: nat)
    requires m < |Run(EMPTY, actions).manifests|
    ensures var status := Run(EMPTY, actions).manifests[m].status;
      && (status == Sent <==> exists k: nat :: SentAt(actions, k, m))
      && (status == Failed <==>
            (exists k: nat :: GivenUpAt(actions, k, m)) && !exists k: nat :: SentAt(actions, k, m))
      && (status == Failed ==>
            exists k: nat :: k < |actions| && actions[k].DoDeliver? && actions[k].mid == m
                             && actions[k].attempts >= MAX_ATTEMPTS)
  {
    assert actions[..|actions|] == actions;
    StatusTold(actions, |actions|, m);
    assert (exists k: nat :: SentAt(actions, k, m)) <==> SentBefore(actions, |actions|, m);
    assert (exists k: nat :: GivenUpAt(actions, k, m)) <==> GivenUpBefore(actions, |actions|, m);
    if k: nat :| GivenUpAt(actions, k, m) {
      assert actions[k].attempts >= MAX_ATTEMPTS;
    }
  }

  lemma {:induction false} SentStays(w: World, later: seq<Action>, m: nat)
    requires Inv(w) && m < |w.manifests|
    ensures var w' := Run(w, later);
      && SameManifest(w, w', m)
      && (w.manifests[m].status == Sent ==>
            && w'.manifests[m] == w.manifests[m].(attempts := w'.manifests[m].attempts)
            && About(w'.documents, m) == About(w.documents, m))
    decreases |later|
  {
    if later != [] {
      StepKeepsInv(w, later[0]);
      CallKeeps(w, later[0], m);
      SentStays(Step(w, later[0]), later[1..], m);
    }
  }

  /** Between any two moments of any run a manifest keeps its carrier, warehouse, code and members. Once it is sent,
      whatever is delivered later changes nothing of it but its attempts: no document of it goes out again, no
      manifested event of it is added, and its members stay as they are, dispatched. */
  lemma DeliveryEffects(earlier: seq<Action>, later: seq<Action>, m: nat)
    requires m < |Run(EMPTY, earlier).manifests|
    ensures var (w, w') := (Run(EMPTY, earlier), Run(Run(EMPTY, earlier), later));
      && SameManifest(w, w', m)
      && |w.consignments| <= |w'.consignments|
      && (w.manifests[m].status == Sent ==>
            && w'.manifests[m] == w.manifests[m].(attempts := w'.manifests[m].attempts)
            && About(w'.documents, m) == About(w.documents, m)
            && (forall c :: 0 <= c < |w.consignments| ==>
                  Count(w'.events, Event(w.consignments[c].order, AsManifested, Some(m))) ==
                  Count(w.events, Event(w.consignments[c].order, AsManifested, Some(m))))
            && (forall c :: c in IdsOn(w.members, m) ==>
                  c < |w.consignments| && w.consignments[c].status == Dispatched
                  && w'.consignments[c] == w.consignments[c]))
  {
    var (w, w') := (Run(EMPTY, earlier), Run(Run(EMPTY, earlier), later));
    Reachable(earlier);
    RunKeepsInv(w, later);
    SentStays(w, later, m);
    IdsOnExact(w.members, m);
    IdsOnExact(w'.members, m);
    if w.manifests[m].status == Sent {
      forall c | 0 <= c < |w.consignments|
        ensures Count(w'.events, Event(w.consignments[c].order, AsManifested, Some(m))) ==
                Count(w.events, Event(w.consignments[c].order, AsManifested, Some(m)))
      {
        assert ManifestedOnce(w, c, m) && ManifestedOnce(w', c, m);
        assert Member(m, c) in w.members <==> c in IdsOn(w.members, m);
        assert Member(m, c) in w'.members <==> c in IdsOn(w'.members, m);
      }
      forall c | c in IdsOn(w.members, m)
        ensures c < |w.consignments| && w.consignments[c].status == Dispatched
                && w'.consignments[c] == w.consignments[c]
      {
        assert MemberFits(w, Member(m, c));
      }
    }
  }
}
