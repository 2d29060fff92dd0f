/** What one call does to the consignments and manifests, said row by row and without the code's own grouping. */
module LifecycleEffects {
  import opened Bookings
  import opened Lifecycle
  import opened LifecycleProofs
  import opened Prelude

  /** The membership rows one call adds. */
  function NewRowsOf(w: World, w': World): seq<Member>
    requires |w.members| <= |w'.members|
  {
    w'.members[|w.members|..]
  }

  predicate ListedIn(rows: seq<Member>, c: nat) {
    exists r :: r in rows && r.consignment == c
  }

  predicate HasMember(rows: seq<Member>, m: nat) {
    exists r :: r in rows && r.manifest == m
  }

  lemma RowsOfManifesting(cs: seq<Consignment>, sel: seq<nat>, manifesting: set<string>, base: nat, c: nat)
    requires Selectable(cs, sel) && NoDuplicates(sel) && c in sel
    ensures ListedIn(MemberRows(cs, sel, Groups(cs, sel, manifesting), base), c) <==> cs[c].carrier.value in manifesting
  {
    var groups := Groups(cs, sel, manifesting);
    var rows := MemberRows(cs, sel, groups, base);
    GroupsExact(cs, sel, manifesting);
    MemberRowsExact(cs, sel, groups, base);
    if cs[c].carrier.value in manifesting {
      RowFor(cs, sel, manifesting, base, c);
    }
    if r :| r in rows && r.consignment == c {
      assert groups[r.manifest - base] in groups;
    }
  }

  lemma GroupHasMember(cs: seq<Consignment>, sel: seq<nat>, groups: seq<Group>, base: nat, i: nat)
    requires Selectable(cs, sel) && NoDuplicates(sel) && NoDuplicates(groups)
    requires i < |groups| && HasGroup(cs, sel, groups[i])
    ensures HasMember(MemberRows(cs, sel, groups, base), base + i)
  {
    MemberRowsExact(cs, sel, groups, base);
    var k :| 0 <= k < |sel| && GroupOf(cs[sel[k]]) == groups[i];
    var r := Member(base + i, sel[k]);
    assert r.consignment in sel;
    assert r in MemberRows(cs, sel, groups, base);
  }

  lemma NoEmptyManifest(cs: seq<Consignment>, sel: seq<nat>, manifesting: set<string>, base: nat, i: nat)
    requires Selectable(cs, sel) && NoDuplicates(sel) && i < |Groups(cs, sel, manifesting)|
    ensures HasMember(MemberRows(cs, sel, Groups(cs, sel, manifesting), base), base + i)
  {
    var groups := Groups(cs, sel, manifesting);
    GroupsExact(cs, sel, manifesting);
    assert groups[i] in groups;
    GroupHasMember(cs, sel, groups, base, i);
  }

  /** Two consignments handed on together share a manifest exactly when they share carrier and warehouse; every
      consignment of a manifesting carrier gets a row, nobody else does, and no manifest is opened empty. */
  lemma OneManifestPerGroup(w: World, sel: seq<nat>, manifesting: set<string>)
    requires Eligible(w, sel)
    ensures var (cs, w') := (w.consignments, CreateManifests(w, sel, manifesting));
      && w.members <= w'.members
      && var rows := NewRowsOf(w, w');
      && (forall r :: r in rows ==> r.consignment in sel && |w.manifests| <= r.manifest < |w'.manifests|)
      && (forall r, q :: r in rows && q in rows ==>
            (r.manifest == q.manifest <==> GroupOf(cs[r.consignment]) == GroupOf(cs[q.consignment])))
      && (forall c :: c in sel ==> (ListedIn(rows, c) <==> cs[c].carrier.value in manifesting))
      && (forall m :: |w.manifests| <= m < |w'.manifests| ==> HasMember(rows, m))
  {
    var (cs, base) := (w.consignments, |w.manifests|);
    var groups := Groups(cs, sel, manifesting);
    var rows := MemberRows(cs, sel, groups, base);
    assert NewRowsOf(w, CreateManifests(w, sel, manifesting)) == rows;
    GroupsExact(cs, sel, manifesting);
    MemberRowsExact(cs, sel, groups, base);
    forall c | c in sel
      ensures ListedIn(rows, c) <==> cs[c].carrier.value in manifesting
    {
      RowsOfManifesting(cs, sel, manifesting, base, c);
    }
    forall m | base <= m < base + |groups|
      ensures HasMember(rows, m)
    {
      NoEmptyManifest(cs, sel, manifesting, base, m - base);
    }
  }

  // ---------------------------------------------------------------------------------------------
  // In which order manifests and their rows come, and what they hold.
  // ---------------------------------------------------------------------------------------------

  predicate Precedes(sel: seq<nat>, x: nat, y: nat) {
    exists a, b :: 0 <= a < b < |sel| && sel[a] == x && sel[b] == y
  }

  lemma PrecedesStill(sel: seq<nat>, x: nat, y: nat)
    requires sel != [] && Precedes(sel[..|sel| - 1], x, y)
    ensures Precedes(sel, x, y)
  {
    var init := sel[..|sel| - 1];
    var a, b :| 0 <= a < b < |init| && init[a] == x && init[b] == y;
    assert sel[a] == x && sel[b] == y;
  }

  lemma {:induction false} InGroupInOrder(cs: seq<Consignment>, sel: seq<nat>, group: Group, i: nat, j: nat)
    requires Selectable(cs, sel) && NoDuplicates(sel) && i < j < |InGroup(cs, sel, group)|
    ensures Precedes(sel, InGroup(cs, sel, group)[i], InGroup(cs, sel, group)[j])
    decreases |sel|
  {
    var init := sel[..|sel| - 1];
    var before := InGroup(cs, init, group);
    if j < |before| {
      InGroupInOrder(cs, init, group, i, j);
      PrecedesStill(sel, before[i], before[j]);
    } else {
      InGroupExact(cs, init, group);
      assert before[i] in before && before[i] in init;
      var a :| 0 <= a < |init| && init[a] == before[i];
      assert sel[a] == before[i];
    }
  }

  /** Rows come manifest by manifest, and within one in the order of the selection. */
  predicate InOrder(sel: seq<nat>, rows: seq<Member>) {
    forall i, j :: 0 <= i < j < |rows| ==>
      || rows[i].manifest < rows[j].manifest
      || (rows[i].manifest == rows[j].manifest && Precedes(sel, rows[i].consignment, rows[j].consignment))
  }

  lemma {:induction false} MemberRowsInOrder(cs: seq<Consignment>, sel: seq<nat>, groups: seq<Group>, base: nat)
    requires Selectable(cs, sel) && NoDuplicates(sel)
    ensures InOrder(sel, MemberRows(cs, sel, groups, base))
    ensures forall i :: 0 <= i < |MemberRows(cs, sel, groups, base)| ==>
              MemberRows(cs, sel, groups, base)[i].manifest < base + |groups|
    decreases |groups|
  {
    if groups != [] {
      var last := |groups| - 1;
      MemberRowsInOrder(cs, sel, groups[..last], base);
      forall i, j | 0 <= i < j < |InGroup(cs, sel, groups[last])|
        ensures Precedes(sel, InGroup(cs, sel, groups[last])[i], InGroup(cs, sel, groups[last])[j])
      {
        InGroupInOrder(cs, sel, groups[last], i, j);
      }
    }
  }

  /** The selection meets one group before another. */
  predicate MetBefore(cs: seq<Consignment>, sel: seq<nat>, group: Group, other: Group)
    requires Selectable(cs, sel)
  {
    exists a :: 0 <= a < |sel| && GroupOf(cs[sel[a]]) == group
      && forall b :: 0 <= b < |sel| && GroupOf(cs[sel[b]]) == other ==> a < b
  }

  lemma {:induction false} GroupsInOrder(cs: seq<Consignment>, sel: seq<nat>, manifesting: set<string>, i: nat, j: nat)
    requires Selectable(cs, sel) && i < j < |Groups(cs, sel, manifesting)|
    ensures MetBefore(cs, sel, Groups(cs, sel, manifesting)[i], Groups(cs, sel, manifesting)[j])
    decreases |sel|
  {
    var init := sel[..|sel| - 1];
    var before := Groups(cs, init, manifesting);
    var groups := Groups(cs, sel, manifesting);
    GroupsExact(cs, init, manifesting);
    assert before[i] == groups[i];
    if j < |before| {
      GroupsInOrder(cs, init, manifesting, i, j);
      var a :| 0 <= a < |init| && GroupOf(cs[init[a]]) == groups[i]
        && forall b :: 0 <= b < |init| && GroupOf(cs[init[b]]) == groups[j] ==> a < b;
      assert GroupOf(cs[sel[a]]) == groups[i];
      forall b | 0 <= b < |sel| && GroupOf(cs[sel[b]]) == groups[j]
        ensures a < b
      {
        assert b < |init| ==> init[b] == sel[b];
      }
    } else {
      assert before[i] in before && HasGroup(cs, init, groups[i]);
      var a :| 0 <= a < |init| && GroupOf(cs[init[a]]) == groups[i];
      assert GroupOf(cs[sel[a]]) == groups[i];
      assert groups[j] !in before && !HasGroup(cs, init, groups[j]);
      assert forall b :: 0 <= b < |init| ==> sel[b] == init[b] && GroupOf(cs[init[b]]) != groups[j];
    }
  }

  /** Where each consignment handed on goes, and the event that says so. */
  predicate HandedOn(w: World, sel: seq<nat>, manifesting: set<string>, rows: seq<Member>, w': World)
    requires Selectable(w.consignments, sel)
  {
    && |w'.consignments| == |w.consignments|
    && (forall c :: 0 <= c < |w.consignments| ==>
          w'.consignments[c] ==
          if c !in sel then w.consignments[c]
          else if w.consignments[c].carrier.value in manifesting then w.consignments[c].(status := OnManifest)
          else w.consignments[c].(status := Dispatched))
    && |w'.events| == |w.events| + |sel| && w.events <= w'.events
    && forall k :: 0 <= k < |sel| ==> EventSays(w, sel, manifesting, rows, w', k)
  }

  predicate EventSays(w: World, sel: seq<nat>, manifesting: set<string>, rows: seq<Member>, w': World, k: nat)
    requires Selectable(w.consignments, sel) && k < |sel| && |w'.events| == |w.events| + |sel|
  {
    var (c, e) := (w.consignments[sel[k]], w'.events[|w.events| + k]);
    && e.order == c.order
    && if c.carrier.value in manifesting then
         e.stage == AsOnManifest && e.manifest.Some? && Member(e.manifest.value, sel[k]) in rows
       else e.stage == AsDispatched && e.manifest.None?
  }

  lemma InItsGroup(cs: seq<Consignment>, sel: seq<nat>, manifesting: set<string>, k: nat)
    requires Selectable(cs, sel) && k < |sel|
    ensures GroupOf(cs[sel[k]]) in Groups(cs, sel, manifesting) <==> cs[sel[k]].carrier.value in manifesting
  {
    GroupsExact(cs, sel, manifesting);
    assert HasGroup(cs, sel, GroupOf(cs[sel[k]]));
  }

  lemma EventTells(w: World, sel: seq<nat>, manifesting: set<string>, k: nat)
    requires Eligible(w, sel) && k < |sel|
    ensures var (c, groups) := (w.consignments[sel[k]], Groups(w.consignments, sel, manifesting));
            var e := OnwardEvent(c, groups, |w.manifests|);
            if c.carrier.value in manifesting then
              && e == Event(c.order, AsOnManifest, e.manifest) && e.manifest.Some?
              && Member(e.manifest.value, sel[k]) in RowsAdded(w, sel, manifesting)
            else e == Event(c.order, AsDispatched, None)
  {
    var (group, groups) := (GroupOf(w.consignments[sel[k]]), Groups(w.consignments, sel, manifesting));
    InItsGroup(w.consignments, sel, manifesting, k);
    if group in groups {
      GroupsExact(w.consignments, sel, manifesting);
      var i := IndexOf(groups, group);
      RowAt(w.consignments, sel, groups, |w.manifests|, i, k);
    }
  }

  lemma RowAt(cs: seq<Consignment>, sel: seq<nat>, groups: seq<Group>, base: nat, i: nat, k: nat)
    requires Selectable(cs, sel) && NoDuplicates(sel) && NoDuplicates(groups)
    requires i < |groups| && k < |sel| && groups[i] == GroupOf(cs[sel[k]])
    ensures Member(base + i, sel[k]) in MemberRows(cs, sel, groups, base)
  {
    MemberRowsExact(cs, sel, groups, base);
    assert Member(base + i, sel[k]).consignment in sel;
  }

  lemma HandedOnExactly(w: World, sel: seq<nat>, manifesting: set<string>)
    requires Eligible(w, sel)
    ensures var w' := CreateManifests(w, sel, manifesting);
            HandedOn(w, sel, manifesting, RowsAdded(w, sel, manifesting), w')
  {
    var groups := Groups(w.consignments, sel, manifesting);
    var w' := CreateManifests(w, sel, manifesting);
    forall k | 0 <= k < |sel|
      ensures EventSays(w, sel, manifesting, RowsAdded(w, sel, manifesting), w', k)
    {
      EventTells(w, sel, manifesting, k);
      assert w'.events[|w.events| + k] == OnwardEvent(w.consignments[sel[k]], groups, |w.manifests|);
    }
  }

  /** Every row puts a consignment of the selection on a manifest just opened for its carrier and warehouse. */
  predicate RowsHold(w: World, sel: seq<nat>, rows: seq<Member>, w': World)
    requires Selectable(w.consignments, sel)
  {
    forall r :: r in rows ==>
      && r.consignment in sel && |w.manifests| <= r.manifest < |w'.manifests|
      && var c := w.consignments[r.consignment];
         w'.manifests[r.manifest] == Manifest(c.carrier.value, c.warehouse, Pending, 0, false, None)
  }

  lemma RowsHoldExactly(w: World, sel: seq<nat>, manifesting: set<string>)
    requires Eligible(w, sel)
    ensures RowsHold(w, sel, RowsAdded(w, sel, manifesting), CreateManifests(w, sel, manifesting))
  {
    var groups := Groups(w.consignments, sel, manifesting);
    var w' := CreateManifests(w, sel, manifesting);
    GroupsExact(w.consignments, sel, manifesting);
    MemberRowsExact(w.consignments, sel, groups, |w.manifests|);
    forall i | 0 <= i < |groups|
      ensures w'.manifests[|w.manifests| + i] == Manifest(groups[i].0, groups[i].1, Pending, 0, false, None)
    {
    }
    forall r | r in RowsAdded(w, sel, manifesting)
      ensures var c := w.consignments[r.consignment];
              w'.manifests[r.manifest] == Manifest(c.carrier.value, c.warehouse, Pending, 0, false, None)
    {
      assert w'.manifests[|w.manifests| + (r.manifest - |w.manifests|)] == w'.manifests[r.manifest];
    }
  }

  /** The carriers and warehouses of the manifests one call opens. */
  function OpenedFor(w: World, w': World): seq<Group>
    requires |w.manifests| <= |w'.manifests|
  {
    var n := |w.manifests|;
    seq(|w'.manifests| - n, i requires 0 <= i < |w'.manifests| - n =>
      (w'.manifests[n + i].carrier, w'.manifests[n + i].warehouse))
  }

  /** Manifests are opened in the order their groups are met. */
  predicate OpenedInOrder(w: World, sel: seq<nat>, w': World)
    requires Selectable(w.consignments, sel) && |w.manifests| <= |w'.manifests|
  {
    forall i, j :: 0 <= i < j < |OpenedFor(w, w')| ==>
      MetBefore(w.consignments, sel, OpenedFor(w, w')[i], OpenedFor(w, w')[j])
  }

  lemma OpenedInOrderExactly(w: World, sel: seq<nat>, manifesting: set<string>)
    requires Eligible(w, sel)
    ensures OpenedInOrder(w, sel, CreateManifests(w, sel, manifesting))
  {
    var groups := Groups(w.consignments, sel, manifesting);
    assert OpenedFor(w, CreateManifests(w, sel, manifesting)) == groups;
    forall i, j | 0 <= i < j < |groups|
      ensures MetBefore(w.consignments, sel, groups[i], groups[j])
    {
      GroupsInOrder(w.consignments, sel, manifesting, i, j);
    }
  }

  /** Handing consignments on opens one pending manifest for each group that manifests, in the order the groups are
      met, with its consignments in the order they are given; moves every one of them, with an event naming its
      manifest; and does nothing else. */
  lemma ManifestsFromTheSelection(w: World, sel: seq<nat>, manifesting: set<string>)
    requires Eligible(w, sel)
    ensures var w' := CreateManifests(w, sel, manifesting);
      && w.members <= w'.members && w.manifests <= w'.manifests
      && var rows := NewRowsOf(w, w');
      && w' == w.(consignments := w'.consignments, manifests := w'.manifests, members := w'.members,
                  events := w'.events)
      && HandedOn(w, sel, manifesting, rows, w')
      && InOrder(sel, rows)
      && RowsHold(w, sel, rows, w')
      && OpenedInOrder(w, sel, w')
  {
    var groups := Groups(w.consignments, sel, manifesting);
    assert NewRowsOf(w, CreateManifests(w, sel, manifesting)) == RowsAdded(w, sel, manifesting);
    HandedOnExactly(w, sel, manifesting);
    MemberRowsInOrder(w.consignments, sel, groups, |w.manifests|);
    RowsHoldExactly(w, sel, manifesting);
    OpenedInOrderExactly(w, sel, manifesting);
  }

  // ---------------------------------------------------------------------------------------------
  // The triggers.
  // ---------------------------------------------------------------------------------------------

  /** A mark-ready call is refused as a whole unless it names something and every code resolves to a consignment that
      is allocated, ready or dispatched; accepted, it makes exactly the named allocated ones ready. */
  lemma ReadyMovesExactly(w: World, picks: seq<Option<nat>>)
    ensures var w' := MarkReady(w, picks);
      var accepted := |picks| > 0 && forall i :: 0 <= i < |picks| ==>
                        && picks[i].Some? && picks[i].value < |w.consignments|
                        && w.consignments[picks[i].value].status in {Allocated, Ready, Dispatched};
      && w' == w.(consignments := w'.consignments)
      && |w'.consignments| == |w.consignments|
      && forall c :: 0 <= c < |w.consignments| ==>
           w'.consignments[c] ==
           if accepted && Some(c) in picks && w.consignments[c].status == Allocated
           then w.consignments[c].(status := Ready) else w.consignments[c]
  {
    if picks != [] && forall i :: 0 <= i < |picks| ==> Markable(w.consignments, picks[i]) {
    } else {
      assert MarkReady(w, picks) == w;
    }
  }

  /** A confirmation is accepted exactly when it names some orders, none twice, each of a consignment that is allocated
      or already dispatched. */
  predicate Dispatchable(cs: seq<Consignment>, orders: seq<string>) {
    && |orders| >= 1
    && (forall i, j :: 0 <= i < |orders| && 0 <= j < |orders| && orders[i] == orders[j] ==> i == j)
    && forall i :: 0 <= i < |orders| ==> Standing(cs, orders[i])
  }

  predicate Standing(cs: seq<Consignment>, order: string) {
    exists c :: 0 <= c < |cs| && cs[c].order == order && cs[c].status in {Allocated, Dispatched}
  }

  lemma RefusedUnlessDispatchable(w: World, orders: seq<string>)
    requires OrdersUnique(w)
    ensures Refused(w.consignments, orders) <==> !Dispatchable(w.consignments, orders)
  {
    var cs := w.consignments;
    forall i | 0 <= i < |orders|
      ensures Confirmable(cs, orders[i]) <==> Standing(cs, orders[i])
    {
      if c :| 0 <= c < |cs| && cs[c].order == orders[i] && cs[c].status in {Allocated, Dispatched} {
        assert RowOf(cs, orders[i]) == c;
      }
    }
  }

  /** The rows a confirmation moves: the named ones still allocated. */
  predicate Confirms(c: Consignment, orders: seq<string>) {
    c.order in orders && c.status == Allocated
  }

  lemma {:induction false} ToManifestExact(w: World, orders: seq<string>, c: nat)
    requires OrdersUnique(w) && c < |w.consignments|
    requires forall i :: 0 <= i < |orders| ==> HasOrder(w.consignments, orders[i])
    ensures c in ToManifest(w.consignments, orders) <==> Confirms(w.consignments[c], orders)
    decreases |orders|
  {
    if orders != [] {
      var (init, last) := (orders[..|orders| - 1], orders[|orders| - 1]);
      ToManifestExact(w, init, c);
      assert orders == init + [last];
      var id := RowOf(w.consignments, last);
      assert w.consignments[c].order == last ==> c == id;
    }
  }

  /** A refused confirmation changes nothing; an accepted one moves exactly the named consignments still allocated,
      onto a manifest if their carrier manifests and out otherwise, and queues one job for each manifest it opens. */
  lemma ConfirmMovesExactly(w: World, orders: seq<string>, manifesting: set<string>)
    requires Inv(w)
    ensures var w' := Confirm(w, orders, manifesting);
      if !Dispatchable(w.consignments, orders) then w' == w
      else
        && |w'.consignments| == |w.consignments|
        && (forall c :: 0 <= c < |w.consignments| ==>
              w'.consignments[c] ==
              if Confirms(w.consignments[c], orders) then
                w.consignments[c].(status := if w.consignments[c].carrier.value in manifesting then OnManifest
                                             else Dispatched)
              else w.consignments[c])
        && |w.manifests| <= |w'.manifests|
        && w'.jobs == w.jobs + seq(|w'.manifests| - |w.manifests|, i requires 0 <= i => |w.manifests| + i)
        && w'.codes == w.codes
  {
    RefusedUnlessDispatchable(w, orders);
    if !Refused(w.consignments, orders) {
      assert forall i :: 0 <= i < |orders| ==> Confirmable(w.consignments, orders[i]);
      ToManifestEligible(w, orders);
      forall c | 0 <= c < |w.consignments|
        ensures c in ToManifest(w.consignments, orders) <==> Confirms(w.consignments[c], orders)
      {
        ToManifestExact(w, orders, c);
      }
    }
  }

  predicate Swept(c: Consignment, carrier: string, warehouse: string) {
    c.carrier == Some(carrier) && c.warehouse == Some(warehouse) && c.status == Ready
  }

  predicate SomeSwept(cs: seq<Consignment>, carrier: string, warehouse: string) {
    exists c :: 0 <= c < |cs| && Swept(cs[c], carrier, warehouse)
  }

  /** The group a sweep finds, if its carrier manifests and anything is ready. */
  lemma SweepGroups(w: World, carrier: string, warehouse: string, manifesting: set<string>)
    requires Inv(w)
    ensures var sel := ReadyRows(w.consignments, carrier, warehouse);
      && Selectable(w.consignments, sel)
      && (forall c: nat :: c in sel <==> c < |w.consignments| && Swept(w.consignments[c], carrier, warehouse))
      && Groups(w.consignments, sel, manifesting) ==
         if carrier in manifesting && SomeSwept(w.consignments, carrier, warehouse) then [(carrier, Some(warehouse))]
         else []
  {
    var cs := w.consignments;
    var sel := ReadyRows(cs, carrier, warehouse);
    ReadyRowsExact(cs, carrier, warehouse);
    assert forall i :: 0 <= i < |sel| ==> sel[i] in sel;
    if sel != [] {
      assert Swept(cs[sel[0]], carrier, warehouse);
    }
    SweptGroup(cs, sel, carrier, warehouse, manifesting);
  }

  /** A sweep moves exactly the ready consignments of its carrier and warehouse, opens one manifest for them if
      there are any and the carrier manifests, and none otherwise; the code it spends is that manifest's. */
  lemma SweepMovesExactly(w: World, carrier: string, warehouse: string, manifesting: set<string>)
    requires Inv(w)
    ensures var w' := Sweep(w, carrier, warehouse, manifesting);
      && |w'.consignments| == |w.consignments|
      && (forall c :: 0 <= c < |w.consignments| ==>
            w'.consignments[c] ==
            if Swept(w.consignments[c], carrier, warehouse) then
              w.consignments[c].(status := if carrier in manifesting then OnManifest else Dispatched)
            else w.consignments[c])
      && w'.codes == w.codes + 1
      && w'.manifests ==
         w.manifests +
         if carrier in manifesting && SomeSwept(w.consignments, carrier, warehouse)
         then [Manifest(carrier, Some(warehouse), Pending, 0, false, Some(w.codes))] else []
  {
    SweepGroups(w, carrier, warehouse, manifesting);
  }

  /** The manifest a sweep opens lists exactly the consignments it moves, oldest first, and its job is queued; a
      sweep of a carrier that does not manifest lists and queues nothing. */
  lemma SweepListsExactly(w: World, carrier: string, warehouse: string, manifesting: set<string>)
    returns (swept: seq<nat>)
    requires Inv(w)
    ensures Ascends(swept, |w.consignments|)
    ensures forall c: nat :: c in swept <==>
              c < |w.consignments| && Swept(w.consignments[c], carrier, warehouse)
    ensures Sweep(w, carrier, warehouse, manifesting).members ==
            w.members + if carrier in manifesting then RowsOn(|w.manifests|, swept) else []
    ensures Sweep(w, carrier, warehouse, manifesting).jobs ==
            w.jobs + if carrier in manifesting && swept != [] then [|w.manifests|] else []
  {
    swept := ReadyRows(w.consignments, carrier, warehouse);
    SweepGroups(w, carrier, warehouse, manifesting);
    ReadyRowsAscend(w.consignments, carrier, warehouse);
    assert forall i :: 0 <= i < |swept| ==> swept[i] in swept;
    SweepListsRows(w, carrier, warehouse, manifesting, swept);
    SweepQueues(w, carrier, warehouse, manifesting, swept);
  }

  /** The rows and jobs a sweep adds, by the groups it finds. */
  lemma SweepLeaves(w: World, carrier: string, warehouse: string, manifesting: set<string>, sel: seq<nat>,
                    groups: seq<Group>)
    requires sel == ReadyRows(w.consignments, carrier, warehouse) && Selectable(w.consignments, sel)
    requires groups == Groups(w.consignments, sel, manifesting)
    ensures var w' := Sweep(w, carrier, warehouse, manifesting);
      && w'.members == w.members + MemberRows(w.consignments, sel, groups, |w.manifests|)
      && w'.jobs == w.jobs + seq(|groups|, i requires 0 <= i => |w.manifests| + i)
  {
  }

  predicate AllSwept(cs: seq<Consignment>, sel: seq<nat>, carrier: string, warehouse: string) {
    Selectable(cs, sel) && forall i :: 0 <= i < |sel| ==> Swept(cs[sel[i]], carrier, warehouse)
  }

  lemma SweepListsRows(w: World, carrier: string, warehouse: string, manifesting: set<string>, sel: seq<nat>)
    requires sel == ReadyRows(w.consignments, carrier, warehouse) && AllSwept(w.consignments, sel, carrier, warehouse)
    ensures Sweep(w, carrier, warehouse, manifesting).members ==
            w.members + if carrier in manifesting then RowsOn(|w.manifests|, sel) else []
  {
    SweepLeaves(w, carrier, warehouse, manifesting, sel, Groups(w.consignments, sel, manifesting));
    SweptRows(w.consignments, sel, carrier, warehouse, manifesting, |w.manifests|);
  }

  lemma SweepQueues(w: World, carrier: string, warehouse: string, manifesting: set<string>, sel: seq<nat>)
    requires sel == ReadyRows(w.consignments, carrier, warehouse) && AllSwept(w.consignments, sel, carrier, warehouse)
    ensures Sweep(w, carrier, warehouse, manifesting).jobs ==
            w.jobs + if carrier in manifesting && sel != [] then [|w.manifests|] else []
  {
    var groups := Groups(w.consignments, sel, manifesting);
    SweepLeaves(w, carrier, warehouse, manifesting, sel, groups);
    SweptGroup(w.consignments, sel, carrier, warehouse, manifesting);
  }

  lemma SweptRows(cs: seq<Consignment>, sel: seq<nat>, carrier: string, warehouse: string, manifesting: set<string>,
                  base: nat)
    requires Selectable(cs, sel) && forall i :: 0 <= i < |sel| ==> Swept(cs[sel[i]], carrier, warehouse)
    ensures MemberRows(cs, sel, Groups(cs, sel, manifesting), base) ==
            if carrier in manifesting then RowsOn(base, sel) else []
  {
    var group := (carrier, Some(warehouse));
    SweptGroup(cs, sel, carrier, warehouse, manifesting);
    AllInGroup(cs, sel, group);
    assert [group][..0] == [];
  }

  lemma {:induction false} AllInGroup(cs: seq<Consignment>, sel: seq<nat>, group: Group)
    requires Selectable(cs, sel) && forall i :: 0 <= i < |sel| ==> GroupOf(cs[sel[i]]) == group
    ensures InGroup(cs, sel, group) == sel
    decreases |sel|
  {
    if sel != [] {
      AllInGroup(cs, sel[..|sel| - 1], group);
      assert sel == sel[..|sel| - 1] + [sel[|sel| - 1]];
    }
  }

  predicate Ascends(ids: seq<nat>, n: nat) {
    && (forall i :: 0 <= i < |ids| ==> ids[i] < n)
    && forall i, j :: 0 <= i < j < |ids| ==> ids[i] < ids[j]
  }

  lemma {:induction false} ReadyRowsAscend(cs: seq<Consignment>, carrier: string, warehouse: string)
    ensures Ascends(ReadyRows(cs, carrier, warehouse), |cs|)
    decreases |cs|
  {
    if cs != [] {
      var last := |cs| - 1;
      ReadyRowsAscend(cs[..last], carrier, warehouse);
      assert Ascends(ReadyRows(cs[..last], carrier, warehouse), last);
    }
  }

  lemma SweptGroup(cs: seq<Consignment>, sel: seq<nat>, carrier: string, warehouse: string, manifesting: set<string>)
    requires Selectable(cs, sel) && forall i :: 0 <= i < |sel| ==> Swept(cs[sel[i]], carrier, warehouse)
    ensures Groups(cs, sel, manifesting) ==
            if carrier in manifesting && sel != [] then [(carrier, Some(warehouse))] else []
  {
    var group := (carrier, Some(warehouse));
    var groups := Groups(cs, sel, manifesting);
    OneGroup(cs, sel, manifesting, group);
    GroupsExact(cs, sel, manifesting);
    if carrier in manifesting && sel != [] {
      assert GroupOf(cs[sel[0]]) == group;
      assert group in groups;
    }
    if groups != [] {
      assert groups[0] in groups;
    }
  }

  /** The timeline of a request that left a row, told from the row's status and whether the carrier booked. */
  function Timeline(status: Status, booked: bool): seq<Stage> {
    if status == Rejected then [AsRejected]
    else
      [AsAllocated] + (if booked then [AsBooked] else []) +
      match status
      case BookingFailed => [AsBookingFailed]
      case LabelFailed => [AsLabelFailed]
      case Dispatched => [AsLabelCreated, AsDispatched]
      case _ => [AsLabelCreated]
  }

  predicate TimelineIs(rows: seq<Consignment>, events: seq<Event>, w': World, order: string, booked: bool) {
    && (w'.consignments == rows ==> w'.events == events)
    && (w'.consignments != rows ==>
          && |w'.consignments| == |rows| + 1
          && Lasts(events, w'.events, order, Timeline(w'.consignments[|rows|].status, booked)))
  }

  /** The events added are the order's, stage by stage. */
  predicate Lasts(before: seq<Event>, after: seq<Event>, order: string, stages: seq<Stage>) {
    && |after| == |before| + |stages|
    && before <= after
    && forall i :: 0 <= i < |stages| ==> after[|before| + i] == Event(order, stages[i], None)
  }

  lemma FlushTimeline(w: World, c: Consignment, stages: seq<Stage>, cells: seq<Cell>, booked: bool)
    requires stages == Timeline(c.status, booked)
    ensures TimelineIs(w.consignments, w.events, Flush(w, c, stages, cells), c.order, booked)
  {
    assert AddRow(w, c, stages).consignments[|w.consignments|] == c;
  }

  /** The timeline until the label's own steps. */
  predicate UntilLabel(sofar: seq<Stage>, booked: bool) {
    sofar == if booked then [AsAllocated, AsBooked] else [AsAllocated]
  }

  lemma TimelineEnds(sofar: seq<Stage>, booked: bool)
    requires UntilLabel(sofar, booked)
    ensures sofar + [AsLabelFailed] == Timeline(LabelFailed, booked)
    ensures sofar + [AsLabelCreated] == Timeline(Allocated, booked)
    ensures sofar + [AsLabelCreated, AsDispatched] == Timeline(Dispatched, booked)
    ensures [AsAllocated, AsBookingFailed] == Timeline(BookingFailed, false)
  {
  }

  lemma LabelTimeline(w: World, row: Consignment, sofar: seq<Stage>, booked: bool, book: Book, manifests: bool,
                      fate: Fate)
    requires row.status == Allocated && UntilLabel(sofar, booked)
    ensures TimelineIs(w.consignments, w.events, LabelAndFlush(w, row, sofar, book, manifests, fate), row.order, booked)
  {
    var (cells, saved) := (Cells(book, fate), w.(labels := w.labels + {row.order}));
    TimelineEnds(sofar, booked);
    FlushTimeline(w, row.(status := LabelFailed), sofar + [AsLabelFailed], cells, booked);
    FlushTimeline(saved, row, sofar + [AsLabelCreated], cells, booked);
    FlushTimeline(saved, row.(status := Dispatched), sofar + [AsLabelCreated, AsDispatched], cells, booked);
  }

  lemma BookTimeline(w: World, row: Consignment, book: Book, manifests: bool, fate: Fate)
    requires row.status == Allocated
    ensures TimelineIs(w.consignments, w.events, BookAndLabel(w, row, book, manifests, fate), row.order,
                       book.hasSteps && fate.booking.Completed?)
  {
    if !book.hasSteps {
      LabelTimeline(w, row, [AsAllocated], false, book, manifests, fate);
    } else if fate.booking.Completed? {
      var booked := w.(booked := w.booked + [row.order]);
      LabelTimeline(booked, row, [AsAllocated, AsBooked], true, book, manifests, fate);
      assert BookAndLabel(w, row, book, manifests, fate) ==
          LabelAndFlush(booked, row, [AsAllocated, AsBooked], book, manifests, fate);
    } else {
      TimelineEnds([AsAllocated], false);
      FlushTimeline(w, row.(status := BookingFailed), [AsAllocated, AsBookingFailed], Cells(book, fate), false);
    }
  }

  lemma CreateBooks(w: World, order: string, warehouse: Option<string>, fate: Fate)
    requires !HasOrder(w.consignments, order) && Proceeds(order, fate)
    ensures Create(w, order, warehouse, fate) ==
            BookAndLabel(w, Consignment(order, Allocated, Some(fate.allocation.carrier), warehouse),
                         BookOf(order, fate), fate.allocation.definition.value.manifests, fate)
  {
  }

  /** What a request leaves on the order's timeline. */
  lemma TimelineTells(w: World, order: string, warehouse: Option<string>, fate: Fate)
    requires !HasOrder(w.consignments, order)
    ensures TimelineIs(w.consignments, w.events, Create(w, order, warehouse, fate), order, Books(order, fate))
  {
    if Proceeds(order, fate) {
      var row := Consignment(order, Allocated, Some(fate.allocation.carrier), warehouse);
      CreateBooks(w, order, warehouse, fate);
      BookTimeline(w, row, BookOf(order, fate), fate.allocation.definition.value.manifests, fate);
    } else if Acceptable(order) && fate.allocation.NotSelected? {
      FlushTimeline(w, Consignment(order, Rejected, None, warehouse), [AsRejected], fate.given, false);
    } else {
      assert Create(w, order, warehouse, fate) == w;
    }
  }

  /** A request leaves a row, as long as every text fits: for an order no service took, a booking the carrier failed,
      one whose label cannot be decoded, and one whose label is saved. */
  predicate LeavesRow(order: string, fate: Fate) {
    || (Acceptable(order) && fate.allocation.NotSelected? && AllFit(fate.given))
    || (Proceeds(order, fate)
        && AllFit(Cells(BookOf(order, fate), fate))
        && (|| (BookOf(order, fate).hasSteps && fate.booking == CarrierFailed)
            || (Books(order, fate) && !LabelInHand(BookOf(order, fate), fate))
            || Saves(order, fate)))
  }

  lemma RowLeftExactlyWhen(w: World, order: string, warehouse: Option<string>, fate: Fate)
    requires !HasOrder(w.consignments, order)
    ensures |Create(w, order, warehouse, fate).consignments| ==
            |w.consignments| + if LeavesRow(order, fate) then 1 else 0
  {
    if Proceeds(order, fate) {
      var book := BookOf(order, fate);
      var row := Consignment(order, Allocated, Some(fate.allocation.carrier), warehouse);
      CreateBooks(w, order, warehouse, fate);
      BookLeaves(w, row, book, fate.allocation.definition.value.manifests, fate);
    }
  }

  lemma BookLeaves(w: World, row: Consignment, book: Book, manifests: bool, fate: Fate)
    requires book.labelKind != Unsupported
    ensures |BookAndLabel(w, row, book, manifests, fate).consignments| ==
            |w.consignments| +
            if AllFit(Cells(book, fate)) &&
               (if book.hasSteps && !fate.booking.Completed? then fate.booking == CarrierFailed
                else if LabelInHand(book, fate) then Prints(row.order, book.labelKind) else book.hasSteps)
            then 1 else 0
  {
  }

  /** How far a request got, read off what it left: no row, or a row whose status names the furthest step, with a
      timeline that says `booked` exactly when the carrier's booking completed. A booking is left without its row,
      and a label without its, exactly when the request strands it. */
  lemma RequestLeaves(w: World, order: string, warehouse: Option<string>, fate: Fate)
    requires Inv(w) && !HasOrder(w.consignments, order)
    ensures var w' := Create(w, order, warehouse, fate);
      && w.consignments <= w'.consignments
      && |w'.consignments| <= |w.consignments| + 1
      && (w'.booked != w.booked <==> Books(order, fate))
      && (order in w'.labels <==> order in w.labels || Saves(order, fate))
      && (|w'.consignments| > |w.consignments| ==>
            var c := w'.consignments[|w.consignments|];
            && c.order == order && c.warehouse == warehouse
            && (c.status == Rejected <==> fate.allocation.NotSelected?)
            && (c.carrier.Some? <==> fate.allocation.Selected?)
            && (c.status == BookingFailed <==>
                  Proceeds(order, fate) && BookOf(order, fate).hasSteps && fate.booking == CarrierFailed)
            && (c.status == LabelFailed <==> Books(order, fate) && !LabelInHand(BookOf(order, fate), fate))
            && (Labelled(c.status) <==> Saves(order, fate))
            && (c.status != Ready && c.status != OnManifest)
            && (c.status in {Allocated, Dispatched} ==>
                  (c.status == Allocated <==> fate.allocation.definition.value.manifests))
            && (Event(order, AsBooked, None) in w'.events <==> Books(order, fate)))
      && (|w'.consignments| == |w.consignments| ==>
            && w'.events == w.events
            && (w'.booked != w.booked <==> StrandsBooking(order, fate))
            && (Saves(order, fate) <==> StrandsLabel(order, fate)))
  {
    var w' := Create(w, order, warehouse, fate);
    var e := Event(order, AsBooked, None);
    RequestOutcome(w, order, warehouse, fate);
    assert e !in w.events;
    assert w.booked + [order] != w.booked;
    if |w'.events| > |w.events| + 1 {
      assert w'.booked == w.booked + [order] ==> w'.events[|w.events| + 1] == e;
    }
  }
}
