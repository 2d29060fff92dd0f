/** The edges' own code on the stored rows: each call read, checked and written step by step, and shown to
    do what Lifecycle says of it. */
module Store {
  import opened Deliveries
  import opened Lifecycle
  import LifecycleProofs
  import opened Prelude

  /** Every group met, whether or not its carrier manifests. */
  function Met(cs: seq<Consignment>, sel: seq<nat>): seq<Group>
    requires Selectable(cs, sel)
    decreases |sel|
  {
    if sel == [] then []
    else
      var before := Met(cs, sel[..|sel| - 1]);
      var group := GroupOf(cs[sel[|sel| - 1]]);
      if group in before then before else before + [group]
  }

  function Kept(met: seq<Group>, manifesting: set<string>): seq<Group>
    decreases |met|
  {
    if met == [] then []
    else
      var before := Kept(met[..|met| - 1], manifesting);
      if met[|met| - 1].0 in manifesting then before + [met[|met| - 1]] else before
  }

  lemma {:induction false} KeptMembers(met: seq<Group>, manifesting: set<string>, g: Group)
    ensures g in Kept(met, manifesting) <==> g in met && g.0 in manifesting
    decreases |met|
  {
    if met != [] {
      KeptMembers(met[..|met| - 1], manifesting, g);
      assert met == met[..|met| - 1] + [met[|met| - 1]];
    }
  }

  lemma {:induction false} KeptMet(cs: seq<Consignment>, sel: seq<nat>, manifesting: set<string>)
    requires Selectable(cs, sel)
    ensures Kept(Met(cs, sel), manifesting) == Groups(cs, sel, manifesting)
    decreases |sel|
  {
    if sel != [] {
      var init := sel[..|sel| - 1];
      var before := Met(cs, init);
      var group := GroupOf(cs[sel[|sel| - 1]]);
      KeptMet(cs, init, manifesting);
      KeptMembers(before, manifesting, group);
      assert (before + [group])[..|before|] == before;
    }
  }

  lemma {:induction false} MetOnce(cs: seq<Consignment>, sel: seq<nat>)
    requires Selectable(cs, sel)
    ensures NoDuplicates(Met(cs, sel))
    decreases |sel|
  {
    if sel != [] {
      MetOnce(cs, sel[..|sel| - 1]);
    }
  }

  /** Once a document has failed, no later one goes out. */
  lemma {:induction false} EmittedStops(outcomes: seq<Outcome>, i: nat, n: nat)
    requires i < n && EmittedCount(outcomes, i + 1) == i
    ensures EmittedCount(outcomes, n) == i
    decreases n
  {
    if i + 1 < n {
      EmittedStops(outcomes, i, n - 1);
    }
  }

  /** The membership table's foreign key. */
  predicate MembersKnown(members: seq<Member>, n: nat) {
    forall i :: 0 <= i < |members| ==> members[i].consignment < n
  }

  /** ... which every run keeps. */
  lemma RunsKnowMembers(actions: seq<Action>)
    ensures MembersKnown(Run(EMPTY, actions).members, |Run(EMPTY, actions).consignments|)
  {
    LifecycleProofs.EmptyInv();
    LifecycleProofs.RunKeepsInv(EMPTY, actions);
    var w := Run(EMPTY, actions);
    forall i | 0 <= i < |w.members|
      ensures w.members[i].consignment < |w.consignments|
    {
      assert LifecycleProofs.MemberFits(w, w.members[i]);
    }
  }

  lemma {:induction false} IdsKnown(members: seq<Member>, mid: nat, n: nat)
    requires MembersKnown(members, n)
    ensures forall i :: 0 <= i < |IdsOn(members, mid)| ==> IdsOn(members, mid)[i] < n
    decreases |members|
  {
    if members != [] {
      IdsKnown(members[..|members| - 1], mid, n);
    }
  }

  /** Each group against the manifest opened for it. */
  ghost predicate Indexed(manifestOf: map<Group, nat>, kept: seq<Group>, base: nat) {
    && manifestOf.Keys == (set g | g in kept)
    && forall g :: g in manifestOf ==> manifestOf[g] == base + IndexOf(kept, g)
  }

  function Moved(cs: seq<Consignment>, sel: seq<nat>, manifesting: set<string>): seq<Consignment> {
    seq(|cs|, i requires 0 <= i < |cs| =>
      if i in sel then cs[i].(status := Onward(cs[i], manifesting)) else cs[i])
  }

  /** The manifests opened for some groups, and their membership rows. */
  function Opened(w: World, sel: seq<nat>, groups: seq<Group>): World
    requires Selectable(w.consignments, sel)
  {
    w.(manifests := w.manifests + NewManifests(groups),
       members := w.members + MemberRows(w.consignments, sel, groups, |w.manifests|))
  }

  lemma OpenedStep(w: World, sel: seq<nat>, groups: seq<Group>, group: Group)
    requires Selectable(w.consignments, sel)
    ensures var sofar := Opened(w, sel, groups);
            && |sofar.manifests| == |w.manifests| + |groups|
            && Opened(w, sel, groups + [group]) == sofar.(
                 manifests := sofar.manifests + [Manifest(group.0, group.1, Pending, 0, false, None)],
                 members := sofar.members + RowsOn(|sofar.manifests|, InGroup(w.consignments, sel, group)))
  {
  }

  lemma OpenOne(kept: seq<Group>, group: Group, base: nat, manifestOf: map<Group, nat>)
    requires group !in kept && Indexed(manifestOf, kept, base)
    ensures Indexed(manifestOf[group := base + |kept|], kept + [group], base)
  {
    FirstIndex(kept, group);
  }

  /** The manifest opened for an item's group, if any, is where the item goes. */
  lemma OnwardOf(cs: seq<Consignment>, sel: seq<nat>, i: nat, manifestOf: map<Group, nat>, kept: seq<Group>, base: nat,
                 manifesting: set<string>)
    requires Selectable(cs, sel) && i < |sel| && Indexed(manifestOf, kept, base)
    requires kept == Groups(cs, sel, manifesting)
    ensures var (c, group) := (cs[sel[i]], GroupOf(cs[sel[i]]));
      && Onward(c, manifesting) == (if group in manifestOf then OnManifest else Dispatched)
      && OnwardEvent(c, kept, base) ==
         if group in manifestOf then Event(c.order, AsOnManifest, Some(manifestOf[group]))
         else Event(c.order, AsDispatched, None)
  {
    KeptMet(cs, sel, manifesting);
    MetHas(cs, sel, i);
    KeptMembers(Met(cs, sel), manifesting, GroupOf(cs[sel[i]]));
  }

  lemma MovedStep(cs: seq<Consignment>, sel: seq<nat>, i: nat, manifesting: set<string>)
    requires Selectable(cs, sel) && i < |sel|
    ensures var before := Moved(cs, sel[..i], manifesting);
            Moved(cs, sel[..i + 1], manifesting)
            == before[sel[i] := before[sel[i]].(status := Onward(cs[sel[i]], manifesting))]
  {
  }

  function OnwardEvents(cs: seq<Consignment>, sel: seq<nat>, kept: seq<Group>, base: nat): seq<Event>
    requires Selectable(cs, sel)
  {
    seq(|sel|, i requires 0 <= i < |sel| => OnwardEvent(cs[sel[i]], kept, base))
  }

  lemma OnwardStep(cs: seq<Consignment>, sel: seq<nat>, i: nat, kept: seq<Group>, base: nat)
    requires Selectable(cs, sel) && i < |sel|
    ensures OnwardEvents(cs, sel[..i + 1], kept, base)
            == OnwardEvents(cs, sel[..i], kept, base) + [OnwardEvent(cs[sel[i]], kept, base)]
  {
  }

  /** What one send attempt leaves, the attempt already counted on the manifest. */
  function Sending(w: World, mid: nat, attempts: nat, met: Meeting): (Outcome, World)
    requires mid < |w.manifests|
  {
    if w.manifests[mid].status == Sent then (Emitted, w)
    else if met.fanOut.None? || (w.manifests[mid].warehouse.Some? && !met.warehouseKnown) then (NotEmitted, w)
    else
      var documents := Documents(w, mid, met.fanOut.value);
      var k := EmittedCount(met.outcomes, |documents|);
      var out := w.(documents := w.documents + documents[..k]);
      if k == |documents| then (Emitted, SendSucceeds(out, mid, attempts))
      else if k < |met.outcomes| && met.outcomes[k].Fault? then (Fault, out)
      else (NotEmitted, out)
  }

  /** What one send attempt answers and leaves: nothing of a sent manifest; else the documents in order up to the
      first that does not go out, and only when none is left does the manifest go. */
  ghost predicate SendTells(w: World, m: nat, met: Meeting, outcome: Outcome, w': World)
    requires m < |w.manifests|
  {
    if w.manifests[m].status == Sent then outcome == Emitted && w' == w
    else if !Possible(w, m, met) then outcome == NotEmitted && w' == w
    else exists k: nat ::
      && GoOut(met.outcomes, Needed(w, m, met), k)
      && DocumentsOut(w, m, met, k, w')
      && outcome == (if k == Needed(w, m, met) then Emitted
                     else if k < |met.outcomes| then met.outcomes[k] else NotEmitted)
      && if outcome == Emitted then Away(w, m, w.manifests[m].(status := Sent), w')
         else w' == w.(documents := w'.documents)
  }

  lemma SendMeans(w: World, mid: nat, attempts: nat, met: Meeting)
    requires mid < |w.manifests| && MembersKnown(w.members, |w.consignments|)
    requires w.manifests[mid].attempts == attempts + 1
    ensures var (outcome, w') := Sending(w, mid, attempts, met);
            SendTells(w, mid, met, outcome, w')
  {
    if Possible(w, mid, met) {
      OutMeans(w, mid, met);
      IdsKnown(w.members, mid, |w.consignments|);
      LifecycleProofs.IdsOnExact(w.members, mid);
    }
  }

  function Counted(w: World, mid: nat, attempts: nat): World
    requires mid < |w.manifests|
  {
    w.(manifests := w.manifests[mid := w.manifests[mid].(attempts := attempts + 1)])
  }

  /** A delivery counts the attempt, sends, and then keeps, records or rolls back. */
  lemma DeliverySteps(w: World, mid: nat, attempts: nat, met: Meeting)
    requires mid < |w.manifests|
    ensures var (outcome, after) := Sending(Counted(w, mid, attempts), mid, attempts, met);
      && |after.manifests| == |w.manifests|
      && Deliver(w, mid, attempts, met) ==
         match outcome
         case Emitted => after
         case Fault => after.(manifests := w.manifests)
         case NotEmitted => FailDelivery(after, mid, attempts)
  {
    var counted := Counted(w, mid, attempts);
    assert counted.manifests[mid := w.manifests[mid]] == w.manifests;
    assert Documents(counted, mid, true) == Documents(w, mid, true);
    var m := w.manifests[mid].(attempts := attempts + 1, erred := true);
    assert counted.manifests[mid := m] == w.manifests[mid := m];
    var failed := m.(status := Failed);
    assert counted.manifests[mid := failed] == w.manifests[mid := failed];
    var sent := w.manifests[mid].(attempts := attempts + 1, status := Sent);
    assert counted.manifests[mid := sent] == w.manifests[mid := sent];
  }

  class Database {
    var consignments: seq<Consignment>
    var manifests: seq<Manifest>
    var members: seq<Member>
    var events: seq<Event>
    var labels: set<string>
    var jobs: seq<nat>
    var codes: nat
    var booked: seq<string>
    var documents: seq<Document>

    constructor ()
      ensures Now() == EMPTY
    {
      consignments, manifests, members, events := [], [], [], [];
      labels, jobs, codes := {}, [], 0;
      booked, documents := [], [];
    }

    function Now(): World
      reads this
    {
      World(consignments, manifests, members, events, labels, jobs, codes, booked, documents)
    }

    /** Every code is checked before any row is written. */
    method MarkReadyToManifest(picks: seq<Option<nat>>) returns (ok: bool)
      modifies this
      ensures Now() == MarkReady(old(Now()), picks)
      ensures ok <==> picks != [] && forall i :: 0 <= i < |picks| ==> Markable(old(consignments), picks[i])
    {
      if picks == [] {
        return false;
      }
      var toReady: seq<nat> := [];
      for i := 0 to |picks|
        invariant forall j :: 0 <= j < i ==> Markable(consignments, picks[j])
        invariant forall c: nat :: c in toReady <==>
                    c < |consignments| && consignments[c].status == Allocated && Some(c) in picks[..i]
        invariant Now() == old(Now())
      {
        assert picks[..i + 1] == picks[..i] + [picks[i]];
        if !Markable(consignments, picks[i]) {
          return false;
        }
        if consignments[picks[i].value].status == Allocated {
          toReady := toReady + [picks[i].value];
        }
      }
      assert picks[..|picks|] == picks;
      assert forall i :: 0 <= i < |toReady| ==> toReady[i] in toReady;
      ghost var before := consignments;
      for i := 0 to |toReady|
        invariant |consignments| == |before|
        invariant forall c :: 0 <= c < |before| ==>
                    consignments[c] == if c in toReady[..i] then before[c].(status := Ready) else before[c]
        invariant Now() == old(Now()).(consignments := consignments)
      {
        assert toReady[..i + 1] == toReady[..i] + [toReady[i]];
        consignments := consignments[toReady[i] := consignments[toReady[i]].(status := Ready)];
      }
      assert toReady[..|toReady|] == toReady;
      assert consignments == MarkReady(old(Now()), picks).consignments;
      ok := true;
    }

    /** Groups the consignments by carrier and warehouse, in the order the groups are met. */
    method GroupConsignments(sel: seq<nat>) returns (met: seq<Group>, groups: map<Group, seq<nat>>)
      requires Selectable(consignments, sel)
      ensures met == Met(consignments, sel) && groups.Keys == set g | g in met
      ensures forall g :: g in groups ==> groups[g] == InGroup(consignments, sel, g)
    {
      met, groups := [], map[];
      for i := 0 to |sel|
        invariant met == Met(consignments, sel[..i]) && groups.Keys == set g | g in met
        invariant forall g :: g in groups ==> groups[g] == InGroup(consignments, sel[..i], g)
        invariant forall g :: g !in groups ==> InGroup(consignments, sel[..i], g) == []
      {
        assert sel[..i + 1][..i] == sel[..i] && sel[..i + 1][i] == sel[i];
        var group := GroupOf(consignments[sel[i]]);
        if group !in groups {
          met := met + [group];
          groups := groups[group := [sel[i]]];
        } else {
          groups := groups[group := groups[group] + [sel[i]]];
        }
      }
      assert sel[..|sel|] == sel;
    }

    method OpenManifest(group: Group, ids: seq<nat>) returns (mid: nat)
      modifies this
      ensures mid == |old(manifests)|
      ensures Now() == old(Now()).(
                manifests := old(manifests) + [Manifest(group.0, group.1, Pending, 0, false, None)],
                members := old(members) + RowsOn(mid, ids))
    {
      mid := |manifests|;
      manifests := manifests + [Manifest(group.0, group.1, Pending, 0, false, None)];
      for i := 0 to |ids|
        invariant members == old(members) + RowsOn(mid, ids[..i])
        invariant Now() == old(Now()).(
                    manifests := old(manifests) + [Manifest(group.0, group.1, Pending, 0, false, None)],
                    members := members)
      {
        members := members + [Member(mid, ids[i])];
      }
      assert ids[..|ids|] == ids;
    }

    /** A manifest and its membership rows for each group that manifests. */
    method OpenManifests(ghost sel: seq<nat>, met: seq<Group>, groups: map<Group, seq<nat>>, manifesting: set<string>)
      returns (manifestOf: map<Group, nat>)
      requires Selectable(consignments, sel) && met == Met(consignments, sel)
      requires forall g :: g in met ==> g in groups && groups[g] == InGroup(consignments, sel, g)
      modifies this
      ensures consignments == old(consignments)
      ensures var kept := Groups(consignments, sel, manifesting);
              Now() == Opened(old(Now()), sel, kept) && Indexed(manifestOf, kept, |old(manifests)|)
    {
      MetOnce(consignments, sel);
      ghost var kept: seq<Group> := [];
      manifestOf := map[];
      for i := 0 to |met|
        invariant kept == Kept(met[..i], manifesting)
        invariant Now() == Opened(old(Now()), sel, kept)
        invariant Indexed(manifestOf, kept, |old(manifests)|)
      {
        assert met[..i + 1][..i] == met[..i] && met[..i + 1][i] == met[i];
        var group := met[i];
        if group.0 in manifesting {
          KeptMembers(met[..i], manifesting, group);
          assert group !in met[..i];
          OpenedStep(old(Now()), sel, kept, group);
          OpenOne(kept, group, |old(manifests)|, manifestOf);
          var mid := OpenManifest(group, groups[group]);
          manifestOf := manifestOf[group := mid];
          kept := kept + [group];
        }
      }
      assert met[..|met|] == met;
      KeptMet(consignments, sel, manifesting);
    }

    /** Every consignment given goes onto its group's manifest or, having none, straight out. */
    method MoveOn(sel: seq<nat>, manifestOf: map<Group, nat>, ghost kept: seq<Group>, ghost base: nat,
                  ghost manifesting: set<string>)
      requires Selectable(consignments, sel) && Indexed(manifestOf, kept, base)
      requires kept == Groups(consignments, sel, manifesting)
      modifies this
      ensures Now() == old(Now()).(
                consignments := Moved(old(consignments), sel, manifesting),
                events := old(events) + OnwardEvents(old(consignments), sel, kept, base))
    {
      var cs := consignments;
      for i := 0 to |sel|
        invariant consignments == Moved(cs, sel[..i], manifesting)
        invariant events == old(events) + OnwardEvents(cs, sel[..i], kept, base)
        invariant Now() == old(Now()).(consignments := consignments, events := events)
      {
        var group := GroupOf(cs[sel[i]]);
        OnwardOf(cs, sel, i, manifestOf, kept, base, manifesting);
        MovedStep(cs, sel, i, manifesting);
        OnwardStep(cs, sel, i, kept, base);
        var stage := if group in manifestOf then OnManifest else Dispatched;
        consignments := consignments[sel[i] := consignments[sel[i]].(status := stage)];
        if group in manifestOf {
          events := events + [Event(cs[sel[i]].order, AsOnManifest, Some(manifestOf[group]))];
        } else {
          events := events + [Event(cs[sel[i]].order, AsDispatched, None)];
        }
      }
      assert sel[..|sel|] == sel;
    }

    method MakeManifests(sel: seq<nat>, manifesting: set<string>)
      requires Selectable(consignments, sel)
      modifies this
      ensures Now() == CreateManifests(old(Now()), sel, manifesting)
    {
      var met, groups := GroupConsignments(sel);
      var manifestOf := OpenManifests(sel, met, groups, manifesting);
      MoveOn(sel, manifestOf, Groups(consignments, sel, manifesting), |old(manifests)|, manifesting);
    }

    /** Either every named consignment is confirmed or nothing happens. */
    method ConfirmDispatch(orders: seq<string>, manifesting: set<string>) returns (ok: bool)
      modifies this
      ensures Now() == Confirm(old(Now()), orders, manifesting)
      ensures ok <==> !Refused(old(consignments), orders) &&
                      Selectable(old(consignments), ToManifest(old(consignments), orders))
    {
      if orders == [] || !NoDuplicates(orders) {
        return false;
      }
      if exists i :: 0 <= i < |orders| && !HasOrder(consignments, orders[i]) {
        return false;
      }
      if exists i :: 0 <= i < |orders| && !Confirmable(consignments, orders[i]) {
        return false;
      }
      var toManifest := ToManifest(consignments, orders);
      if !Selectable(consignments, toManifest) {
        return false;
      }
      var base := |manifests|;
      MakeManifests(toManifest, manifesting);
      DeferSends(base);
      ok := true;
    }

    method DeferSends(base: nat)
      requires base <= |manifests|
      modifies this
      ensures Now() == Enqueue(old(Now()), base)
    {
      for m := base to |manifests|
        invariant jobs == old(jobs) + seq(m - base, i requires 0 <= i => base + i)
        invariant Now() == old(Now()).(jobs := jobs)
      {
        jobs := jobs + [m];
      }
    }

    /** The sweep: one code stamped on every manifest it makes, one send job each. */
    method CreateManifestSweep(carrier: string, warehouse: string, manifesting: set<string>) returns (ok: bool)
      modifies this
      ensures Now() == Sweep(old(Now()), carrier, warehouse, manifesting)
      ensures ok <==> Selectable(old(consignments), ReadyRows(old(consignments), carrier, warehouse))
    {
      var ready := ReadyRows(consignments, carrier, warehouse);
      if !Selectable(consignments, ready) {
        return false;
      }
      var base := |manifests|;
      MakeManifests(ready, manifesting);
      StampAndDefer(base);
      ok := true;
    }

    method StampAndDefer(base: nat)
      requires base <= |manifests|
      modifies this
      ensures Now() == Enqueue(SetCodes(old(Now()), base), base)
    {
      var code := codes;
      codes := codes + 1;
      ghost var made := old(Now());
      for m := base to |manifests|
        invariant |manifests| == |made.manifests|
        invariant forall i :: 0 <= i < |manifests| ==>
                    manifests[i] == if base <= i < m then made.manifests[i].(code := Some(code)) else made.manifests[i]
        invariant jobs == made.jobs + seq(m - base, i requires 0 <= i => base + i)
        invariant Now() == made.(manifests := manifests, jobs := jobs, codes := code + 1)
      {
        manifests := manifests[m := manifests[m].(code := Some(code))];
        jobs := jobs + [m];
      }
      ghost var coded := SetCodes(made, base);
      assert manifests == coded.manifests;
      assert jobs == Enqueue(coded, base).jobs;
    }

    /** Emits the documents in order, up to the first that does not go out. */
    method EmitDocuments(toEmit: seq<Document>, outcomes: seq<Outcome>) returns (outcome: Outcome)
      modifies this
      ensures var k := EmittedCount(outcomes, |toEmit|);
              && Now() == old(Now()).(documents := old(documents) + toEmit[..k])
              && outcome == if k == |toEmit| then Emitted else if k < |outcomes| then outcomes[k] else NotEmitted
      ensures outcome.Emitted? <==> EmittedCount(outcomes, |toEmit|) == |toEmit|
      ensures outcome.Emitted? <==> forall k :: 0 <= k < |toEmit| ==> Emits(outcomes, k)
      ensures exists k: nat :: GoOut(outcomes, |toEmit|, k) && documents == old(documents) + toEmit[..k]
    {
      for k := 0 to |toEmit|
        invariant EmittedCount(outcomes, k) == k
        invariant Now() == old(Now()).(documents := old(documents) + toEmit[..k])
      {
        if k >= |outcomes| || !outcomes[k].Emitted? {
          EmittedStops(outcomes, k, |toEmit|);
          return if k < |outcomes| then outcomes[k] else NotEmitted;
        }
        assert toEmit[..k + 1] == toEmit[..k] + [toEmit[k]];
        documents := documents + [toEmit[k]];
      }
      assert toEmit[..|toEmit|] == toEmit;
      outcome := Emitted;
    }

    /** The manifest is away: its consignments leave with it. */
    method MarkSent(mid: nat, ghost attempts: nat)
      requires mid < |manifests| && MembersKnown(members, |consignments|)
      requires manifests[mid].attempts == attempts + 1
      modifies this
      ensures Now() == SendSucceeds(old(Now()), mid, attempts)
    {
      manifests := manifests[mid := manifests[mid].(status := Sent)];
      var ids := IdsOn(members, mid);
      IdsKnown(members, mid, |consignments|);
      ghost var sofar := Now();
      for i := 0 to |ids|
        invariant |consignments| == |sofar.consignments|
        invariant forall c :: 0 <= c < |consignments| ==>
                    consignments[c] == if c in ids[..i] then sofar.consignments[c].(status := Dispatched)
                                       else sofar.consignments[c]
        invariant events == sofar.events + EventsFor(sofar.consignments, ids[..i], AsManifested, mid)
        invariant Now() == sofar.(consignments := consignments, events := events)
      {
        assert ids[..i + 1] == ids[..i] + [ids[i]];
        consignments := consignments[ids[i] := consignments[ids[i]].(status := Dispatched)];
        events := events + [Event(consignments[ids[i]].order, AsManifested, Some(mid))];
      }
      assert ids[..|ids|] == ids;
      assert consignments == SendSucceeds(old(Now()), mid, attempts).consignments;
    }

    method SendManifest(mid: nat, ghost attempts: nat, met: Meeting) returns (outcome: Outcome)
      requires mid < |manifests| && MembersKnown(members, |consignments|)
      requires manifests[mid].attempts == attempts + 1
      modifies this
      ensures |manifests| == |old(manifests)| && manifests[mid].attempts == attempts + 1
      ensures members == old(members) && |consignments| == |old(consignments)|
      ensures (outcome, Now()) == Sending(old(Now()), mid, attempts, met)
      ensures SendTells(old(Now()), mid, met, outcome, Now())
    {
      SendMeans(Now(), mid, attempts, met);
      if manifests[mid].status == Sent {
        return Emitted;
      }
      if met.fanOut.None? || (manifests[mid].warehouse.Some? && !met.warehouseKnown) {
        return NotEmitted;
      }
      outcome := EmitDocuments(Documents(Now(), mid, met.fanOut.value), met.outcomes);
      if outcome.Emitted? {
        MarkSent(mid, attempts);
      }
    }

    /** One delivery of a send job: a recorded failure commits the bookkeeping, a fault rolls it back. */
    method RunManifestSend(mid: nat, attempts: nat, met: Meeting)
      requires MembersKnown(members, |consignments|)
      modifies this
      ensures Now() == Deliver(old(Now()), mid, attempts, met)
      ensures mid < |old(manifests)| ==> DeliveryTells(old(Now()), mid, attempts, met, Now())
    {
      if mid < |manifests| {
        DeliverMeans(Now(), mid, attempts, met);
      }
      if mid >= |manifests| {
        return;
      }
      DeliverySteps(Now(), mid, attempts, met);
      var saved := manifests;
      manifests := manifests[mid := manifests[mid].(attempts := attempts + 1)];
      var outcome := SendManifest(mid, attempts, met);
      match outcome
      case Emitted =>
      case Fault =>
        manifests := saved;
      case NotEmitted =>
        RecordFailure(mid, attempts);
    }

    method RecordFailure(mid: nat, attempts: nat)
      requires mid < |manifests| && MembersKnown(members, |consignments|)
      requires manifests[mid].attempts == attempts + 1
      modifies this
      ensures Now() == FailDelivery(old(Now()), mid, attempts)
    {
      manifests := manifests[mid := manifests[mid].(erred := true)];
      if attempts >= MAX_ATTEMPTS {
        manifests := manifests[mid := manifests[mid].(status := Failed)];
        var ids := IdsOn(members, mid);
        IdsKnown(members, mid, |consignments|);
        for i := 0 to |ids|
          invariant events == old(events) + EventsFor(consignments, ids[..i], AsManifestFailed, mid)
          invariant Now() == old(Now()).(manifests := manifests, events := events)
          invariant manifests == FailDelivery(old(Now()), mid, attempts).manifests
        {
          assert ids[..i + 1] == ids[..i] + [ids[i]];
          events := events + [Event(consignments[ids[i]].order, AsManifestFailed, Some(mid))];
        }
        assert ids[..|ids|] == ids;
      }
    }

    /** The flush: text some column does not take rolls the row and its timeline back. */
    method Persist(row: Consignment, stages: seq<Stage>, cells: seq<Cell>) returns (stored: Option<Status>)
      modifies this
      ensures Now() == Flush(old(Now()), row, stages, cells)
      ensures stored == if AllFit(cells) then Some(row.status) else None
    {
      for i := 0 to |cells|
        invariant forall j :: 0 <= j < i ==> Fits(cells[j])
        invariant Now() == old(Now())
      {
        if !Fits(cells[i]) {
          return None;
        }
      }
      consignments := consignments + [row];
      for i := 0 to |stages|
        invariant events == old(events) + seq(i, j requires 0 <= j < i => Event(row.order, stages[j], None))
        invariant Now() == old(Now()).(consignments := old(consignments) + [row], events := events)
      {
        events := events + [Event(row.order, stages[i], None)];
      }
      stored := Some(row.status);
    }

    /** The row and its timeline are speculative until persisted: every refusal on the way leaves only what
        happened outside the transaction. The result is the status stored, if a row was. */
    method CreateConsignment(order: string, warehouse: Option<string>, fate: Fate) returns (stored: Option<Status>)
      modifies this
      ensures Now() == Create(old(Now()), order, warehouse, fate)
      ensures stored.Some? <==> |consignments| == |old(consignments)| + 1
      ensures stored.Some? ==> consignments[|old(consignments)|].status == stored.value
    {
      if !Acceptable(order) || HasOrder(consignments, order) || fate.allocation.Faulty? {
        return None;
      }
      if fate.allocation.NotSelected? {
        stored := Persist(Consignment(order, Rejected, None, warehouse), [AsRejected], fate.given);
        return;
      }
      if fate.allocation.definition.None? {
        return None;
      }
      var definition := fate.allocation.definition.value;
      var row := Consignment(order, Allocated, Some(fate.allocation.carrier), warehouse);
      if definition.book.None? || definition.book.value.labelKind == Unsupported {
        return None;
      }
      var book := definition.book.value;
      if book.mints && !fate.minted {
        return None;
      }
      stored := BookWithCarrier(row, book, definition.manifests, fate);
    }

    method BookWithCarrier(row: Consignment, book: Book, manifests: bool, fate: Fate) returns (stored: Option<Status>)
      modifies this
      ensures Now() == BookAndLabel(old(Now()), row, book, manifests, fate)
      ensures stored.Some? <==> |consignments| == |old(consignments)| + 1
      ensures stored.Some? ==> consignments[|old(consignments)|].status == stored.value
    {
      if !book.hasSteps {
        stored := LabelAndPersist(row, [AsAllocated], book, manifests, fate);
        return;
      }
      match fate.booking {
        case Crashed =>
          return None;
        case CarrierFailed =>
          stored := Persist(row.(status := BookingFailed), [AsAllocated, AsBookingFailed], Cells(book, fate));
        case Completed(_) =>
          booked := booked + [row.order];
          stored := LabelAndPersist(row, [AsAllocated, AsBooked], book, manifests, fate);
      }
    }

    method LabelAndPersist(draft: Consignment, sofar: seq<Stage>, book: Book, manifests: bool, fate: Fate)
      returns (stored: Option<Status>)
      modifies this
      ensures Now() == LabelAndFlush(old(Now()), draft, sofar, book, manifests, fate)
      ensures stored.Some? <==> |consignments| == |old(consignments)| + 1
      ensures stored.Some? ==> consignments[|old(consignments)|].status == stored.value
    {
      var (row, stages) := (draft, sofar);
      if book.labelKind == Base64Pdf && (!book.hasSteps || !fate.labelDecodes) {
        if book.hasSteps {
          stored := Persist(row.(status := LabelFailed), stages + [AsLabelFailed], Cells(book, fate));
          return;
        }
        return None;
      }
      if book.labelKind == LocalRender && !Renderable(row.order) {
        return None;
      }
      if !Storable(row.order) {
        return None;
      }
      labels := labels + {row.order};
      stages := stages + [AsLabelCreated];
      if !manifests {
        row := row.(status := Dispatched);
        stages := stages + [AsDispatched];
      }
      stored := Persist(row, stages, Cells(book, fate));
    }
  }

  lemma {:induction false} FirstIndex(s: seq<Group>, x: Group)
    requires x !in s
    ensures IndexOf(s + [x], x) == |s|
    ensures forall y :: y in s ==> IndexOf(s + [x], y) == IndexOf(s, y)
    decreases |s|
  {
    if s != [] {
      FirstIndex(s[1..], x);
      assert (s + [x])[1..] == s[1..] + [x];
    }
  }

  lemma {:induction false} MetHas(cs: seq<Consignment>, sel: seq<nat>, i: nat)
    requires Selectable(cs, sel) && i < |sel|
    ensures GroupOf(cs[sel[i]]) in Met(cs, sel)
    decreases |sel|
  {
    if i < |sel| - 1 {
      MetHas(cs, sel[..|sel| - 1], i);
    }
  }
}
