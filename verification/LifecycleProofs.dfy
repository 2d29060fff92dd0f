/** What every run of bookings, mark-ready calls, dispatch confirmations, sweeps and send deliveries keeps. */
module LifecycleProofs {
  import opened Lifecycle
  import opened Prelude

  // ---------------------------------------------------------------------------------------------
  // The invariant.
  // ---------------------------------------------------------------------------------------------

  predicate OrdersUnique(w: World) {
    forall i, j :: 0 <= i < j < |w.consignments| ==> w.consignments[i].order != w.consignments[j].order
  }

  /** A member's consignment is its manifest's kind, dispatched if the manifest is sent, and waiting on it
      otherwise. */
  predicate MemberFits(w: World, r: Member) {
    && r.manifest < |w.manifests|
    && r.consignment < |w.consignments|
    && var (m, c) := (w.manifests[r.manifest], w.consignments[r.consignment]);
    && c.carrier == Some(m.carrier)
    && c.warehouse == m.warehouse
    && c.status == if m.status == Sent then Dispatched else OnManifest
  }

  predicate MembersFit(w: World) {
    forall i :: 0 <= i < |w.members| ==> MemberFits(w, w.members[i])
  }

  /** No consignment is on two manifests, or twice on one. */
  predicate OneManifestEach(w: World) {
    OncePerConsignment(w.members)
  }

  predicate OncePerConsignment(rows: seq<Member>) {
    forall i, j :: 0 <= i < j < |rows| ==> rows[i].consignment != rows[j].consignment
  }

  predicate IsListed(w: World, c: nat) {
    exists i :: 0 <= i < |w.members| && w.members[i].consignment == c
  }

  predicate OnManifestListed(w: World) {
    forall c :: 0 <= c < |w.consignments| && w.consignments[c].status == OnManifest ==> IsListed(w, c)
  }

  /** A labelled row has its label and its carrier. */
  predicate LabelsMatch(w: World) {
    forall c :: 0 <= c < |w.consignments| && Labelled(w.consignments[c].status) ==>
      w.consignments[c].order in w.labels && w.consignments[c].carrier.Some?
  }

  function Count(events: seq<Event>, e: Event): nat {
    multiset(events)[e]
  }

  /** Each member of a sent manifest has its one `manifested` event; nobody else has any. */
  predicate ManifestedOnce(w: World, c: nat, m: nat)
    requires c < |w.consignments|
  {
    Count(w.events, Event(w.consignments[c].order, AsManifested, Some(m))) ==
    if m < |w.manifests| && w.manifests[m].status == Sent && Member(m, c) in w.members then 1 else 0
  }

  ghost predicate EventsMatch(w: World) {
    && (forall c: nat, m: nat :: c < |w.consignments| ==> ManifestedOnce(w, c, m))
    && (forall i :: 0 <= i < |w.events| ==> HasOrder(w.consignments, w.events[i].order))
  }

  /** Every member of a sent manifest was declared in a document the carrier accepted. */
  predicate DocumentsMatch(w: World) {
    forall i :: 0 <= i < |w.members| ==>
      var r := w.members[i];
      r.manifest < |w.manifests| && w.manifests[r.manifest].status == Sent ==>
        Document(r.manifest, None) in w.documents || Document(r.manifest, Some(r.consignment)) in w.documents
  }

  predicate JobsQueued(w: World) {
    forall m :: 0 <= m < |w.manifests| ==> m in w.jobs
  }

  predicate CodesUnique(w: World) {
    && (forall m :: 0 <= m < |w.manifests| && w.manifests[m].code.Some? ==> w.manifests[m].code.value < w.codes)
    && (forall m, n :: 0 <= m < n < |w.manifests| && w.manifests[m].code.Some? ==>
          w.manifests[m].code != w.manifests[n].code)
  }

  ghost predicate Inv(w: World) {
    && OrdersUnique(w)
    && MembersFit(w)
    && OneManifestEach(w)
    && OnManifestListed(w)
    && LabelsMatch(w)
    && EventsMatch(w)
    && DocumentsMatch(w)
    && JobsQueued(w)
    && CodesUnique(w)
  }

  /** A status only ever moves on; a failed or rejected consignment stays so. */
  predicate Forward(before: Status, after: Status) {
    || before == after
    || (before == Allocated && after in {Ready, OnManifest, Dispatched})
    || (before == Ready && after in {OnManifest, Dispatched})
    || (before == OnManifest && after == Dispatched)
  }

  /** Rows are never removed, and of a consignment only the status changes, forwards. */
  predicate Advances(w: World, w': World) {
    && |w.consignments| <= |w'.consignments|
    && |w.manifests| <= |w'.manifests|
    && w.members <= w'.members
    && w.events <= w'.events
    && w.labels <= w'.labels
    && w.booked <= w'.booked
    && (forall c :: 0 <= c < |w.consignments| ==>
          && w'.consignments[c] == w.consignments[c].(status := w'.consignments[c].status)
          && Forward(w.consignments[c].status, w'.consignments[c].status))
  }

  lemma HasOrderKept(w: World, w': World, order: string)
    requires Advances(w, w') && HasOrder(w.consignments, order)
    ensures HasOrder(w'.consignments, order)
  {
  }

  // ---------------------------------------------------------------------------------------------
  // Creating and marking.
  // ---------------------------------------------------------------------------------------------

  lemma AddRowEvents(w: World, c: Consignment, stages: seq<Stage>)
    requires Inv(w) && !HasOrder(w.consignments, c.order) && AsManifested !in stages
    ensures EventsMatch(AddRow(w, c, stages))
  {
    var w' := AddRow(w, c, stages);
    var n := |w.consignments|;
    forall k: nat, m: nat | k < |w'.consignments| ensures ManifestedOnce(w', k, m) {
      var e := Event(w'.consignments[k].order, AsManifested, Some(m));
      var new' := seq(|stages|, i requires 0 <= i < |stages| => Event(c.order, stages[i], None));
      assert e !in new';
      assert multiset(w'.events) == multiset(w.events) + multiset(new');
      if k < n {
        assert ManifestedOnce(w, k, m);
      } else {
        assert e !in w.events;
        assert Member(m, n) !in w.members;
      }
    }
    assert w'.consignments[n].order == c.order;
    forall order | HasOrder(w.consignments, order) ensures HasOrder(w'.consignments, order) {
      HasOrderKept(w, w', order);
    }
  }

  lemma AddRowKeepsInv(w: World, c: Consignment, stages: seq<Stage>)
    requires Inv(w) && !HasOrder(w.consignments, c.order)
    requires c.status != OnManifest && AsManifested !in stages
    requires Labelled(c.status) ==> c.order in w.labels && c.carrier.Some?
    ensures Inv(AddRow(w, c, stages)) && Advances(w, AddRow(w, c, stages))
  {
    var w' := AddRow(w, c, stages);
    var n := |w.consignments|;
    AddRowEvents(w, c, stages);
    assert forall i :: 0 <= i < n ==> w'.consignments[i] == w.consignments[i] && w.consignments[i].order != c.order;
    forall order | HasOrder(w.consignments, order) ensures HasOrder(w'.consignments, order) {
      HasOrderKept(w, w', order);
    }
    assert w'.consignments[n].order == c.order;
  }

  /** What happened outside the transaction: the booking, and perhaps the label saved. */
  lemma BookedAndSavedKeepInv(w: World, booked: seq<string>, labels: set<string>)
    requires Inv(w)
    ensures var w' := w.(booked := w.booked + booked, labels := w.labels + labels); Inv(w') && Advances(w, w')
  {
    var w' := w.(booked := w.booked + booked, labels := w.labels + labels);
    forall k: nat, m: nat | k < |w'.consignments| ensures ManifestedOnce(w', k, m) {
      assert ManifestedOnce(w, k, m);
    }
  }

  /** A request that books and perhaps saves a label, and then adds its row or has it refused. */
  lemma LandingKeepsInv(w: World, booked: seq<string>, labels: set<string>, c: Consignment, stages: seq<Stage>,
                        cells: seq<Cell>)
    requires Inv(w) && !HasOrder(w.consignments, c.order)
    requires c.status != OnManifest && AsManifested !in stages
    requires Labelled(c.status) ==> c.order in labels && c.carrier.Some?
    ensures var w' := Flush(w.(booked := w.booked + booked, labels := w.labels + labels), c, stages, cells);
            Inv(w') && Advances(w, w')
  {
    var outside := w.(booked := w.booked + booked, labels := w.labels + labels);
    BookedAndSavedKeepInv(w, booked, labels);
    if AllFit(cells) {
      AddRowKeepsInv(outside, c, stages);
      AdvancesTrans(w, outside, AddRow(outside, c, stages));
    }
  }

  /** The label's own steps, after a booking that completed or with nothing to book. */
  lemma LabelKeepsInv(w: World, booked: seq<string>, row: Consignment, sofar: seq<Stage>, book: Book, manifests: bool,
                      fate: Fate)
    requires Inv(w) && !HasOrder(w.consignments, row.order)
    requires row.status == Allocated && row.carrier.Some? && AsManifested !in sofar
    ensures var w' := LabelAndFlush(w.(booked := w.booked + booked), row, sofar, book, manifests, fate);
            Inv(w') && Advances(w, w')
  {
    assert w.(booked := w.booked + booked) == w.(booked := w.booked + booked, labels := w.labels + {});
    BookedAndSavedKeepInv(w, booked, {});
    LandingKeepsInv(w, booked, {}, row.(status := LabelFailed), sofar + [AsLabelFailed], Cells(book, fate));
    LandingKeepsInv(w, booked, {row.order}, row, sofar + [AsLabelCreated], Cells(book, fate));
    LandingKeepsInv(w, booked, {row.order}, row.(status := Dispatched), sofar + [AsLabelCreated, AsDispatched],
                    Cells(book, fate));
  }

  lemma BookKeepsInv(w: World, row: Consignment, book: Book, manifests: bool, fate: Fate)
    requires Inv(w) && !HasOrder(w.consignments, row.order) && row.status == Allocated && row.carrier.Some?
    ensures var w' := BookAndLabel(w, row, book, manifests, fate); Inv(w') && Advances(w, w')
  {
    assert w.(booked := w.booked + []) == w && w.(booked := w.booked + [], labels := w.labels + {}) == w;
    if !book.hasSteps {
      LabelKeepsInv(w, [], row, [AsAllocated], book, manifests, fate);
    } else if fate.booking.Completed? {
      LabelKeepsInv(w, [row.order], row, [AsAllocated, AsBooked], book, manifests, fate);
    } else {
      LandingKeepsInv(w, [], {}, row.(status := BookingFailed), [AsAllocated, AsBookingFailed], Cells(book, fate));
    }
  }

  lemma CreateKeepsInv(w: World, order: string, warehouse: Option<string>, fate: Fate)
    requires Inv(w)
    ensures Inv(Create(w, order, warehouse, fate)) && Advances(w, Create(w, order, warehouse, fate))
  {
    if !Acceptable(order) || HasOrder(w.consignments, order) || fate.allocation.Faulty? {
    } else if fate.allocation.NotSelected? {
      assert w.(booked := w.booked + [], labels := w.labels + {}) == w;
      LandingKeepsInv(w, [], {}, Consignment(order, Rejected, None, warehouse), [AsRejected], fate.given);
    } else if fate.allocation.definition.Some? && fate.allocation.definition.value.book.Some? {
      var definition := fate.allocation.definition.value;
      BookKeepsInv(w, Consignment(order, Allocated, Some(fate.allocation.carrier), warehouse), definition.book.value,
                   definition.manifests, fate);
    }
  }

  /** A change to some statuses only: those of unlisted consignments, to labelled ones. */
  ghost predicate OnlyStatuses(w: World, w': World) {
    && w' == w.(consignments := w'.consignments)
    && |w'.consignments| == |w.consignments|
    && forall c :: 0 <= c < |w.consignments| ==>
         && w'.consignments[c] == w.consignments[c].(status := w'.consignments[c].status)
         && Forward(w.consignments[c].status, w'.consignments[c].status)
         && (w'.consignments[c].status != w.consignments[c].status ==>
               w.consignments[c].status in {Allocated, Ready} && w'.consignments[c].status != OnManifest)
  }

  lemma OnlyStatusesKeepInv(w: World, w': World)
    requires Inv(w) && OnlyStatuses(w, w')
    ensures Inv(w') && Advances(w, w')
  {
    forall order | HasOrder(w.consignments, order) ensures HasOrder(w'.consignments, order) {
      HasOrderKept(w, w', order);
    }
    forall k: nat, m: nat | k < |w'.consignments| ensures ManifestedOnce(w', k, m) {
      assert ManifestedOnce(w, k, m);
    }
    forall i | 0 <= i < |w'.members| ensures MemberFits(w', w'.members[i]) {
      assert MemberFits(w, w.members[i]);
    }
    forall c | 0 <= c < |w'.consignments| && w'.consignments[c].status == OnManifest ensures IsListed(w', c) {
      assert IsListed(w, c);
    }
  }

  lemma MarkReadyKeepsInv(w: World, picks: seq<Option<nat>>)
    requires Inv(w)
    ensures Inv(MarkReady(w, picks)) && Advances(w, MarkReady(w, picks))
  {
    var w' := MarkReady(w, picks);
    OnlyStatusesKeepInv(w, w');
  }

  // ---------------------------------------------------------------------------------------------
  // Grouping.
  // ---------------------------------------------------------------------------------------------

  predicate HasGroup(cs: seq<Consignment>, sel: seq<nat>, group: Group)
    requires Selectable(cs, sel)
  {
    exists i :: 0 <= i < |sel| && GroupOf(cs[sel[i]]) == group
  }

  /** Each group that manifests and has a selected consignment is listed once. */
  lemma {:induction false} GroupsExact(cs: seq<Consignment>, sel: seq<nat>, manifesting: set<string>)
    requires Selectable(cs, sel)
    ensures NoDuplicates(Groups(cs, sel, manifesting))
    ensures forall g :: g in Groups(cs, sel, manifesting) <==> g.0 in manifesting && HasGroup(cs, sel, g)
    decreases |sel|
  {
    if sel != [] {
      var init := sel[..|sel| - 1];
      GroupsExact(cs, init, manifesting);
      forall g ensures HasGroup(cs, sel, g) <==> HasGroup(cs, init, g) || g == GroupOf(cs[sel[|sel| - 1]]) {
        if HasGroup(cs, init, g) {
          var i :| 0 <= i < |init| && GroupOf(cs[init[i]]) == g;
          assert GroupOf(cs[sel[i]]) == g;
        }
      }
    }
  }

  lemma {:induction false} InGroupExact(cs: seq<Consignment>, sel: seq<nat>, group: Group)
    requires Selectable(cs, sel) && NoDuplicates(sel)
    ensures forall id :: id in InGroup(cs, sel, group) <==> id in sel && GroupOf(cs[id]) == group
    ensures NoDuplicates(InGroup(cs, sel, group))
    decreases |sel|
  {
    if sel != [] {
      var init := sel[..|sel| - 1];
      InGroupExact(cs, init, group);
      assert sel == init + [sel[|sel| - 1]];
    }
  }

  /** The new rows put each selected consignment of a listed group on that group's manifest, once. */
  lemma {:induction false} MemberRowsExact(cs: seq<Consignment>, sel: seq<nat>, groups: seq<Group>, base: nat)
    requires Selectable(cs, sel) && NoDuplicates(sel) && NoDuplicates(groups)
    ensures forall r :: r in MemberRows(cs, sel, groups, base) <==>
              && base <= r.manifest < base + |groups|
              && r.consignment in sel
              && GroupOf(cs[r.consignment]) == groups[r.manifest - base]
    ensures OncePerConsignment(MemberRows(cs, sel, groups, base))
    decreases |groups|
  {
    if groups != [] {
      var last := |groups| - 1;
      MemberRowsExact(cs, sel, groups[..last], base);
      InGroupExact(cs, sel, groups[last]);
      var before := MemberRows(cs, sel, groups[..last], base);
      var ids := InGroup(cs, sel, groups[last]);
      var rows := before + RowsOn(base + last, ids);
      forall r ensures r in RowsOn(base + last, ids) <==> r.manifest == base + last && r.consignment in ids {
        if r.manifest == base + last && r.consignment in ids {
          var i :| 0 <= i < |ids| && ids[i] == r.consignment;
          assert RowsOn(base + last, ids)[i] == r;
        }
      }
      forall i | 0 <= i < |before| ensures before[i].consignment !in ids {
        assert before[i] in before;
        assert groups[..last][before[i].manifest - base] == groups[before[i].manifest - base];
        assert groups[before[i].manifest - base] != groups[last];
      }
      RowsApart(before, ids, base + last);
    }
  }

  lemma RowsApart(before: seq<Member>, ids: seq<nat>, manifest: nat)
    requires OncePerConsignment(before) && NoDuplicates(ids)
    requires forall i :: 0 <= i < |before| ==> before[i].consignment !in ids
    ensures OncePerConsignment(before + RowsOn(manifest, ids))
  {
  }

  // ---------------------------------------------------------------------------------------------
  // Creating manifests.
  // ---------------------------------------------------------------------------------------------

  /** Consignments a trigger may hand on: each once, allocated or ready. */
  predicate Eligible(w: World, sel: seq<nat>) {
    && Selectable(w.consignments, sel)
    && NoDuplicates(sel)
    && forall i :: 0 <= i < |sel| ==> w.consignments[sel[i]].status in {Allocated, Ready}
  }

  function RowsAdded(w: World, sel: seq<nat>, manifesting: set<string>): seq<Member>
    requires Selectable(w.consignments, sel)
  {
    MemberRows(w.consignments, sel, Groups(w.consignments, sel, manifesting), |w.manifests|)
  }

  /** What the rows just added say. */
  lemma NewRows(w: World, sel: seq<nat>, manifesting: set<string>)
    requires Eligible(w, sel)
    ensures var w' := CreateManifests(w, sel, manifesting);
            var rows := RowsAdded(w, sel, manifesting);
            && (forall i :: 0 <= i < |rows| ==>
                  |w.manifests| <= rows[i].manifest && rows[i].consignment in sel && MemberFits(w', rows[i]))
            && OncePerConsignment(rows)
  {
    var cs, base := w.consignments, |w.manifests|;
    var w' := CreateManifests(w, sel, manifesting);
    var groups := Groups(cs, sel, manifesting);
    var rows := RowsAdded(w, sel, manifesting);
    GroupsExact(cs, sel, manifesting);
    MemberRowsExact(cs, sel, groups, base);
    forall i | 0 <= i < |rows|
      ensures base <= rows[i].manifest && rows[i].consignment in sel && MemberFits(w', rows[i])
    {
      assert rows[i] in rows;
      var group := groups[rows[i].manifest - base];
      assert group in groups;
      assert w'.manifests[rows[i].manifest] == Manifest(group.0, group.1, Pending, 0, false, None);
    }
  }

  lemma RowFor(cs: seq<Consignment>, sel: seq<nat>, manifesting: set<string>, base: nat, c: nat)
    requires Selectable(cs, sel) && NoDuplicates(sel) && c in sel && cs[c].carrier.value in manifesting
    ensures exists r :: r in MemberRows(cs, sel, Groups(cs, sel, manifesting), base) && r.consignment == c
  {
    var groups := Groups(cs, sel, manifesting);
    GroupsExact(cs, sel, manifesting);
    MemberRowsExact(cs, sel, groups, base);
    var i :| 0 <= i < |sel| && sel[i] == c;
    assert HasGroup(cs, sel, GroupOf(cs[c]));
    assert GroupOf(cs[c]) in groups;
    var r := Member(base + IndexOf(groups, GroupOf(cs[c])), c);
    assert r in MemberRows(cs, sel, groups, base);
  }

  lemma NewlyListed(w: World, sel: seq<nat>, manifesting: set<string>, c: nat)
    requires Eligible(w, sel) && c in sel && w.consignments[c].carrier.value in manifesting
    ensures IsListed(CreateManifests(w, sel, manifesting), c)
  {
    var rows := RowsAdded(w, sel, manifesting);
    RowFor(w.consignments, sel, manifesting, |w.manifests|, c);
    var r :| r in rows && r.consignment == c;
    var i :| 0 <= i < |rows| && rows[i] == r;
    assert CreateManifests(w, sel, manifesting).members[|w.members| + i] == r;
  }

  lemma OldRowsFit(w: World, sel: seq<nat>, manifesting: set<string>)
    requires Inv(w) && Eligible(w, sel)
    ensures forall i :: 0 <= i < |w.members| ==>
              MemberFits(CreateManifests(w, sel, manifesting), w.members[i]) && w.members[i].consignment !in sel
  {
  }

  lemma AppendOnce(before: seq<Member>, rows: seq<Member>)
    requires OncePerConsignment(before) && OncePerConsignment(rows)
    requires forall i, j :: 0 <= i < |before| && 0 <= j < |rows| ==> before[i].consignment != rows[j].consignment
    ensures OncePerConsignment(before + rows)
  {
  }

  lemma CreatedListed(w: World, sel: seq<nat>, manifesting: set<string>)
    requires Inv(w) && Eligible(w, sel)
    ensures OnManifestListed(CreateManifests(w, sel, manifesting))
  {
    var w' := CreateManifests(w, sel, manifesting);
    forall c | 0 <= c < |w'.consignments| && w'.consignments[c].status == OnManifest ensures IsListed(w', c) {
      if c in sel {
        NewlyListed(w, sel, manifesting, c);
      } else {
        assert IsListed(w, c);
        var i :| 0 <= i < |w.members| && w.members[i].consignment == c;
        assert w'.members[i].consignment == c;
      }
    }
  }

  /** Each selected consignment goes on one manifest, of its own carrier and warehouse. */
  lemma CreatedMembers(w: World, sel: seq<nat>, manifesting: set<string>)
    requires Inv(w) && Eligible(w, sel)
    ensures MembersFit(CreateManifests(w, sel, manifesting))
  {
    var w' := CreateManifests(w, sel, manifesting);
    var rows := RowsAdded(w, sel, manifesting);
    NewRows(w, sel, manifesting);
    OldRowsFit(w, sel, manifesting);
    FitTogether(w', w.members, rows);
  }

  lemma FitTogether(w: World, before: seq<Member>, rows: seq<Member>)
    requires w.members == before + rows
    requires forall i :: 0 <= i < |before| ==> MemberFits(w, before[i])
    requires forall i :: 0 <= i < |rows| ==> MemberFits(w, rows[i])
    ensures MembersFit(w)
  {
  }

  lemma CreatedOnce(w: World, sel: seq<nat>, manifesting: set<string>)
    requires Inv(w) && Eligible(w, sel)
    ensures OneManifestEach(CreateManifests(w, sel, manifesting))
  {
    NewRows(w, sel, manifesting);
    OldRowsFit(w, sel, manifesting);
    AppendOnce(w.members, RowsAdded(w, sel, manifesting));
  }

  lemma CreatedCounts(w: World, sel: seq<nat>, manifesting: set<string>, k: nat, m: nat)
    requires Inv(w) && Eligible(w, sel) && k < |w.consignments|
    ensures ManifestedOnce(CreateManifests(w, sel, manifesting), k, m)
  {
    var cs, base := w.consignments, |w.manifests|;
    var w' := CreateManifests(w, sel, manifesting);
    var groups := Groups(cs, sel, manifesting);
    var new' := seq(|sel|, i requires 0 <= i < |sel| => OnwardEvent(cs[sel[i]], groups, base));
    assert multiset(w'.events) == multiset(w.events) + multiset(new');
    assert Event(w'.consignments[k].order, AsManifested, Some(m)) !in new';
    assert ManifestedOnce(w, k, m);
    NewRows(w, sel, manifesting);
    var rows := RowsAdded(w, sel, manifesting);
    assert forall i :: 0 <= i < |rows| ==> rows[i].manifest >= base;
    assert m < base && Member(m, k) in w'.members ==> Member(m, k) in w.members;
  }

  /** The order an event names belongs to a consignment, old or selected. */
  lemma CreatedEventOrder(w: World, sel: seq<nat>, manifesting: set<string>, i: nat)
    requires Inv(w) && Eligible(w, sel) && i < |CreateManifests(w, sel, manifesting).events|
    ensures HasOrder(w.consignments, CreateManifests(w, sel, manifesting).events[i].order)
  {
  }

  lemma CreatedEvents(w: World, sel: seq<nat>, manifesting: set<string>)
    requires Inv(w) && Eligible(w, sel)
    requires forall order :: HasOrder(w.consignments, order) ==>
               HasOrder(CreateManifests(w, sel, manifesting).consignments, order)
    ensures EventsMatch(CreateManifests(w, sel, manifesting))
  {
    var w' := CreateManifests(w, sel, manifesting);
    forall k: nat, m: nat | k < |w'.consignments| ensures ManifestedOnce(w', k, m) {
      CreatedCounts(w, sel, manifesting, k, m);
    }
    forall i | 0 <= i < |w'.events| ensures HasOrder(w'.consignments, w'.events[i].order) {
      CreatedEventOrder(w, sel, manifesting, i);
    }
  }

  /** The manifests just created still lack their send jobs. */
  ghost predicate InvButJobs(w: World, base: nat) {
    && OrdersUnique(w) && MembersFit(w) && OneManifestEach(w) && OnManifestListed(w) && LabelsMatch(w)
    && EventsMatch(w) && DocumentsMatch(w) && CodesUnique(w)
    && base <= |w.manifests|
    && (forall m :: 0 <= m < base ==> m in w.jobs)
    && (forall m :: base <= m < |w.manifests| ==> w.manifests[m].code.None? && w.manifests[m].status == Pending)
  }

  lemma CreatedAdvances(w: World, sel: seq<nat>, manifesting: set<string>)
    requires Inv(w) && Eligible(w, sel)
    ensures Advances(w, CreateManifests(w, sel, manifesting))
  {
  }

  lemma CreatedRest(w: World, sel: seq<nat>, manifesting: set<string>)
    requires Inv(w) && Eligible(w, sel)
    requires forall order :: HasOrder(w.consignments, order) ==>
               HasOrder(CreateManifests(w, sel, manifesting).consignments, order)
    ensures var w' := CreateManifests(w, sel, manifesting);
            OrdersUnique(w') && LabelsMatch(w') && DocumentsMatch(w') && CodesUnique(w')
  {
    NewRows(w, sel, manifesting);
  }

  lemma CreateManifestsKeepsInv(w: World, sel: seq<nat>, manifesting: set<string>)
    requires Inv(w) && Eligible(w, sel)
    ensures var w' := CreateManifests(w, sel, manifesting);
            InvButJobs(w', |w.manifests|) && Advances(w, w')
  {
    var w' := CreateManifests(w, sel, manifesting);
    CreatedAdvances(w, sel, manifesting);
    CreatedMembers(w, sel, manifesting);
    CreatedOnce(w, sel, manifesting);
    CreatedListed(w, sel, manifesting);
    forall order | HasOrder(w.consignments, order) ensures HasOrder(w'.consignments, order) {
      HasOrderKept(w, w', order);
    }
    CreatedEvents(w, sel, manifesting);
    CreatedRest(w, sel, manifesting);
  }

  lemma EnqueueKeepsInv(w: World, base: nat)
    requires base <= |w.manifests|
    requires OrdersUnique(w) && MembersFit(w) && OneManifestEach(w) && OnManifestListed(w) && LabelsMatch(w)
    requires EventsMatch(w) && DocumentsMatch(w) && CodesUnique(w)
    requires forall m :: 0 <= m < base ==> m in w.jobs
    ensures Inv(Enqueue(w, base)) && Advances(w, Enqueue(w, base))
  {
    var w' := Enqueue(w, base);
    forall k: nat, m: nat | k < |w'.consignments| ensures ManifestedOnce(w', k, m) {
      assert ManifestedOnce(w, k, m);
    }
    forall m | 0 <= m < |w'.manifests| ensures m in w'.jobs {
      if m >= base {
        assert w'.jobs[|w.jobs| + m - base] == m;
      }
    }
    forall i | 0 <= i < |w'.members| ensures MemberFits(w', w'.members[i]) {
      assert MemberFits(w, w.members[i]);
    }
    forall c | 0 <= c < |w'.consignments| && w'.consignments[c].status == OnManifest ensures IsListed(w', c) {
      assert IsListed(w, c);
    }
  }

  // ---------------------------------------------------------------------------------------------
  // The triggers.
  // ---------------------------------------------------------------------------------------------

  lemma {:induction false} ToManifestEligible(w: World, orders: seq<string>)
    requires Inv(w) && NoDuplicates(orders)
    requires forall i :: 0 <= i < |orders| ==> HasOrder(w.consignments, orders[i])
    ensures Eligible(w, ToManifest(w.consignments, orders))
    ensures forall id :: id in ToManifest(w.consignments, orders) ==>
              id < |w.consignments| && w.consignments[id].status == Allocated && w.consignments[id].order in orders
    decreases |orders|
  {
    if orders != [] {
      var init := orders[..|orders| - 1];
      ToManifestEligible(w, init);
      var id := RowOf(w.consignments, orders[|orders| - 1]);
      assert Labelled(w.consignments[id].status) ==> w.consignments[id].carrier.Some?;
      assert orders[|orders| - 1] !in init;
    }
  }

  lemma ConfirmKeepsInv(w: World, orders: seq<string>, manifesting: set<string>)
    requires Inv(w)
    ensures Inv(Confirm(w, orders, manifesting)) && Advances(w, Confirm(w, orders, manifesting))
  {
    if !Refused(w.consignments, orders) {
      assert forall i :: 0 <= i < |orders| ==> Confirmable(w.consignments, orders[i]);
      ToManifestEligible(w, orders);
      var sel := ToManifest(w.consignments, orders);
      CreateManifestsKeepsInv(w, sel, manifesting);
      EnqueueKeepsInv(CreateManifests(w, sel, manifesting), |w.manifests|);
    }
  }

  lemma {:induction false} ReadyRowsExact(cs: seq<Consignment>, carrier: string, warehouse: string)
    ensures var sel := ReadyRows(cs, carrier, warehouse);
            && NoDuplicates(sel)
            && forall id: nat :: id in sel <==>
                 && id < |cs|
                 && cs[id].carrier == Some(carrier) && cs[id].warehouse == Some(warehouse) && cs[id].status == Ready
    decreases |cs|
  {
    if cs != [] {
      var init := cs[..|cs| - 1];
      ReadyRowsExact(init, carrier, warehouse);
      assert |cs| - 1 !in ReadyRows(init, carrier, warehouse);
    }
  }

  /** A sweep's consignments make one group, so at most one manifest carries its code. */
  lemma {:induction false} OneGroup(cs: seq<Consignment>, sel: seq<nat>, manifesting: set<string>, group: Group)
    requires Selectable(cs, sel) && forall i :: 0 <= i < |sel| ==> GroupOf(cs[sel[i]]) == group
    ensures |Groups(cs, sel, manifesting)| <= 1
    ensures forall g :: g in Groups(cs, sel, manifesting) ==> g == group
    decreases |sel|
  {
    if sel != [] {
      OneGroup(cs, sel[..|sel| - 1], manifesting, group);
    }
  }

  lemma SetCodesKeepsInv(w: World, base: nat)
    requires InvButJobs(w, base) && |w.manifests| <= base + 1
    ensures var w' := SetCodes(w, base);
            && Advances(w, w')
            && OrdersUnique(w') && MembersFit(w') && OneManifestEach(w') && OnManifestListed(w') && LabelsMatch(w')
            && EventsMatch(w') && DocumentsMatch(w') && CodesUnique(w')
            && (forall m :: 0 <= m < base ==> m in w'.jobs)
  {
    var w' := SetCodes(w, base);
    forall i | 0 <= i < |w'.members| ensures MemberFits(w', w'.members[i]) {
      assert MemberFits(w, w.members[i]);
    }
    forall k: nat, m: nat | k < |w'.consignments| ensures ManifestedOnce(w', k, m) {
      assert ManifestedOnce(w, k, m);
    }
    forall c | 0 <= c < |w'.consignments| && w'.consignments[c].status == OnManifest ensures IsListed(w', c) {
      assert IsListed(w, c);
    }
  }

  lemma SweepKeepsInv(w: World, carrier: string, warehouse: string, manifesting: set<string>)
    requires Inv(w)
    ensures Inv(Sweep(w, carrier, warehouse, manifesting)) && Advances(w, Sweep(w, carrier, warehouse, manifesting))
  {
    var sel := ReadyRows(w.consignments, carrier, warehouse);
    ReadyRowsExact(w.consignments, carrier, warehouse);
    assert forall i :: 0 <= i < |sel| ==> sel[i] in sel;
    CreateManifestsKeepsInv(w, sel, manifesting);
    OneGroup(w.consignments, sel, manifesting, (carrier, Some(warehouse)));
    var created := CreateManifests(w, sel, manifesting);
    SetCodesKeepsInv(created, |w.manifests|);
    EnqueueKeepsInv(SetCodes(created, |w.manifests|), |w.manifests|);
    AdvancesTrans(w, created, SetCodes(created, |w.manifests|));
    AdvancesTrans(w, SetCodes(created, |w.manifests|), Sweep(w, carrier, warehouse, manifesting));
  }

  lemma AdvancesTrans(a: World, b: World, c: World)
    requires Advances(a, b) && Advances(b, c)
    ensures Advances(a, c)
  {
  }

  // ---------------------------------------------------------------------------------------------
  // Deliveries.
  // ---------------------------------------------------------------------------------------------

  lemma {:induction false} IdsOnExact(members: seq<Member>, mid: nat)
    ensures forall c: nat :: c in IdsOn(members, mid) <==> Member(mid, c) in members
    ensures OncePerConsignment(members) ==> NoDuplicates(IdsOn(members, mid))
    decreases |members|
  {
    if members != [] {
      var (init, last) := (members[..|members| - 1], members[|members| - 1]);
      IdsOnExact(init, mid);
      assert members == init + [last];
      assert OncePerConsignment(members) && last.manifest == mid ==> last.consignment !in IdsOn(init, mid);
    }
  }

  /** A delivery that changes no consignment and does not send: the manifest's bookkeeping, `failed`
      events, and whatever documents got out. */
  ghost predicate OnlyBookkeeping(w: World, w': World, mid: nat) {
    && w' == w.(manifests := w'.manifests, events := w'.events, documents := w'.documents)
    && |w'.manifests| == |w.manifests|
    && (forall m :: 0 <= m < |w.manifests| ==>
          && w'.manifests[m] ==
             w.manifests[m].(attempts := w'.manifests[m].attempts,
                             erred := w'.manifests[m].erred,
                             status := w'.manifests[m].status)
          && (w'.manifests[m].status == Sent <==> w.manifests[m].status == Sent))
    && w.events <= w'.events
    && (forall i :: |w.events| <= i < |w'.events| ==>
          w'.events[i].stage == AsManifestFailed && HasOrder(w.consignments, w'.events[i].order))
    && w.documents <= w'.documents
  }

  lemma BookkeepingKeepsInv(w: World, w': World, mid: nat)
    requires Inv(w) && OnlyBookkeeping(w, w', mid)
    ensures Inv(w') && Advances(w, w')
  {
    var new' := w'.events[|w.events|..];
    assert w'.events == w.events + new';
    forall i | 0 <= i < |w'.members| ensures MemberFits(w', w'.members[i]) {
      assert MemberFits(w, w.members[i]);
    }
    forall k: nat, m: nat | k < |w'.consignments| ensures ManifestedOnce(w', k, m) {
      assert ManifestedOnce(w, k, m);
      assert Event(w'.consignments[k].order, AsManifested, Some(m)) !in new';
      assert multiset(w'.events) == multiset(w.events) + multiset(new');
    }
    forall c | 0 <= c < |w'.consignments| && w'.consignments[c].status == OnManifest ensures IsListed(w', c) {
      assert IsListed(w, c);
    }
    forall i | 0 <= i < |w'.events| ensures HasOrder(w'.consignments, w'.events[i].order) {
      assert i < |w.events| ==> HasOrder(w.consignments, w.events[i].order);
    }
    assert forall d :: d in w.documents ==> d in w'.documents;
  }

  lemma FailKeepsInv(w: World, mid: nat, attempts: nat, documents: seq<Document>)
    requires Inv(w) && mid < |w.manifests| && w.manifests[mid].status != Sent
    ensures var w' := FailDelivery(w.(documents := w.documents + documents), mid, attempts);
            Inv(w') && Advances(w, w')
  {
    var out := w.(documents := w.documents + documents);
    var w' := FailDelivery(out, mid, attempts);
    var ids := IdsOn(w.members, mid);
    IdsOnExact(w.members, mid);
    forall i | |w.events| <= i < |w'.events|
      ensures w'.events[i].stage == AsManifestFailed && HasOrder(w.consignments, w'.events[i].order)
    {
      var c := ids[i - |w.events|];
      assert Member(mid, c) in w.members;
      assert MemberFits(w, Member(mid, c));
      assert w.consignments[c].order == w'.events[i].order;
    }
    BookkeepingKeepsInv(w, w', mid);
  }

  lemma {:induction false} CountDistinct<T>(s: seq<T>, x: T)
    requires NoDuplicates(s)
    ensures multiset(s)[x] == if x in s then 1 else 0
    decreases |s|
  {
    if s != [] {
      var (init, last) := (s[..|s| - 1], s[|s| - 1]);
      assert s == init + [last];
      CountDistinct(init, x);
    }
  }

  /** Each listed consignment gets one event, and nobody else any. */
  lemma NewEventsOnce(cs: seq<Consignment>, ids: seq<nat>, mid: nat, k: nat, m: nat)
    requires forall i, j :: 0 <= i < j < |cs| ==> cs[i].order != cs[j].order
    requires NoDuplicates(ids) && k < |cs| && forall i :: 0 <= i < |ids| ==> ids[i] < |cs|
    ensures Count(EventsFor(cs, ids, AsManifested, mid), Event(cs[k].order, AsManifested, Some(m))) ==
            if m == mid && k in ids then 1 else 0
  {
    var fresh' := EventsFor(cs, ids, AsManifested, mid);
    var e := Event(cs[k].order, AsManifested, Some(m));
    CountDistinct(fresh', e);
    if m == mid && k in ids {
      assert fresh'[IndexOf(ids, k)] == e;
    }
  }

  lemma SendEvents(w: World, mid: nat, attempts: nat, k: nat, m: nat)
    requires Inv(w) && mid < |w.manifests| && w.manifests[mid].status != Sent && k < |w.consignments|
    ensures ManifestedOnce(SendSucceeds(w, mid, attempts), k, m)
  {
    var w' := SendSucceeds(w, mid, attempts);
    var ids := IdsOn(w.members, mid);
    IdsOnExact(w.members, mid);
    assert ManifestedOnce(w, k, m);
    forall i | 0 <= i < |ids| ensures ids[i] < |w.consignments| {
      assert MemberFits(w, Member(mid, ids[i]));
    }
    NewEventsOnce(w.consignments, ids, mid, k, m);
    assert multiset(w'.events) == multiset(w.events) + multiset(EventsFor(w.consignments, ids, AsManifested, mid));
  }

  /** A manifest's listed consignments are its own and nobody else's, and wait on it. */
  lemma IdsWait(w: World, mid: nat)
    requires Inv(w) && mid < |w.manifests| && w.manifests[mid].status != Sent
    ensures forall c :: c in IdsOn(w.members, mid) ==> c < |w.consignments| && w.consignments[c].status == OnManifest
    ensures forall i :: 0 <= i < |w.members| ==>
              (w.members[i].manifest == mid <==> w.members[i].consignment in IdsOn(w.members, mid))
  {
    IdsOnExact(w.members, mid);
    forall c | c in IdsOn(w.members, mid) ensures c < |w.consignments| && w.consignments[c].status == OnManifest {
      assert MemberFits(w, Member(mid, c));
    }
    forall i | 0 <= i < |w.members| && w.members[i].consignment in IdsOn(w.members, mid)
      ensures w.members[i].manifest == mid
    {
      assert Member(mid, w.members[i].consignment) in w.members;
    }
  }

  lemma SendMembers(w: World, mid: nat, attempts: nat)
    requires Inv(w) && mid < |w.manifests| && w.manifests[mid].status != Sent
    ensures var w' := SendSucceeds(w, mid, attempts); MembersFit(w') && OnManifestListed(w')
  {
    var w' := SendSucceeds(w, mid, attempts);
    IdsWait(w, mid);
    forall i | 0 <= i < |w'.members| ensures MemberFits(w', w'.members[i]) {
      assert MemberFits(w, w.members[i]);
    }
    forall c | 0 <= c < |w'.consignments| && w'.consignments[c].status == OnManifest ensures IsListed(w', c) {
      assert IsListed(w, c);
    }
  }

  lemma SendAllEvents(w: World, mid: nat, attempts: nat)
    requires Inv(w) && mid < |w.manifests| && w.manifests[mid].status != Sent
    ensures EventsMatch(SendSucceeds(w, mid, attempts))
  {
    var w' := SendSucceeds(w, mid, attempts);
    IdsWait(w, mid);
    forall k: nat, m: nat | k < |w'.consignments| ensures ManifestedOnce(w', k, m) {
      SendEvents(w, mid, attempts, k, m);
    }
    forall order | HasOrder(w.consignments, order) ensures HasOrder(w'.consignments, order) {
      var i :| 0 <= i < |w.consignments| && w.consignments[i].order == order;
      assert w'.consignments[i].order == order;
    }
    var ids := IdsOn(w.members, mid);
    forall i | 0 <= i < |w'.events| ensures HasOrder(w'.consignments, w'.events[i].order) {
      if i < |w.events| {
        assert HasOrder(w.consignments, w.events[i].order);
      } else {
        var c := ids[i - |w.events|];
        assert c in ids;
        assert w'.consignments[c].order == w'.events[i].order;
      }
    }
  }

  lemma SendDocuments(w: World, mid: nat, attempts: nat)
    requires Inv(w) && mid < |w.manifests| && w.manifests[mid].status != Sent
    requires Document(mid, None) in w.documents ||
             forall c :: c in IdsOn(w.members, mid) ==> Document(mid, Some(c)) in w.documents
    ensures DocumentsMatch(SendSucceeds(w, mid, attempts))
  {
    IdsWait(w, mid);
  }

  lemma SendAdvances(w: World, mid: nat, attempts: nat)
    requires Inv(w) && mid < |w.manifests| && w.manifests[mid].status != Sent
    ensures Advances(w, SendSucceeds(w, mid, attempts))
  {
    IdsWait(w, mid);
  }

  lemma SendRest(w: World, mid: nat, attempts: nat)
    requires Inv(w) && mid < |w.manifests| && w.manifests[mid].status != Sent
    ensures var w' := SendSucceeds(w, mid, attempts);
            OrdersUnique(w') && LabelsMatch(w') && JobsQueued(w') && CodesUnique(w')
  {
    var w' := SendSucceeds(w, mid, attempts);
    IdsWait(w, mid);
    SendAdvances(w, mid, attempts);
    forall order | HasOrder(w.consignments, order) ensures HasOrder(w'.consignments, order) {
      HasOrderKept(w, w', order);
    }
  }

  lemma SendKeepsInv(w: World, mid: nat, attempts: nat)
    requires Inv(w) && mid < |w.manifests| && w.manifests[mid].status != Sent
    requires Document(mid, None) in w.documents ||
             forall c :: c in IdsOn(w.members, mid) ==> Document(mid, Some(c)) in w.documents
    ensures var w' := SendSucceeds(w, mid, attempts); Inv(w') && Advances(w, w')
  {
    SendMembers(w, mid, attempts);
    SendAllEvents(w, mid, attempts);
    SendDocuments(w, mid, attempts);
    SendRest(w, mid, attempts);
    SendAdvances(w, mid, attempts);
  }

  lemma DocumentsKeepInv(w: World, documents: seq<Document>)
    requires Inv(w)
    ensures Inv(w.(documents := w.documents + documents)) && Advances(w, w.(documents := w.documents + documents))
  {
    BookkeepingKeepsInv(w, w.(documents := w.documents + documents), 0);
  }

  lemma DeliverKeepsInv(w: World, mid: nat, attempts: nat, met: Meeting)
    requires Inv(w)
    ensures Inv(Deliver(w, mid, attempts, met)) && Advances(w, Deliver(w, mid, attempts, met))
  {
    if mid < |w.manifests| {
      if w.manifests[mid].status == Sent {
        BookkeepingKeepsInv(w, Deliver(w, mid, attempts, met), mid);
      } else if met.fanOut.None? || (w.manifests[mid].warehouse.Some? && !met.warehouseKnown) {
        assert w.(documents := w.documents + []) == w;
        FailKeepsInv(w, mid, attempts, []);
      } else {
        var documents := Documents(w, mid, met.fanOut.value);
        var k := EmittedCount(met.outcomes, |documents|);
        var out := w.(documents := w.documents + documents[..k]);
        DocumentsKeepInv(w, documents[..k]);
        if k == |documents| {
          assert documents[..k] == documents;
          DocumentsSent(w, mid, met.fanOut.value);
          SendKeepsInv(out, mid, attempts);
          AdvancesTrans(w, out, SendSucceeds(out, mid, attempts));
        } else {
          FailKeepsInv(w, mid, attempts, documents[..k]);
        }
      }
    }
  }

  lemma DocumentsSent(w: World, mid: nat, fanOut: bool)
    ensures var documents := Documents(w, mid, fanOut);
            Document(mid, None) in documents ||
            forall c :: c in IdsOn(w.members, mid) ==> Document(mid, Some(c)) in documents
  {
    var ids := IdsOn(w.members, mid);
    if fanOut {
      forall c | c in ids ensures Document(mid, Some(c)) in Documents(w, mid, fanOut) {
        assert Documents(w, mid, fanOut)[IndexOf(ids, c)] == Document(mid, Some(c));
      }
    }
  }

  // ---------------------------------------------------------------------------------------------
  // Over whole runs.
  // ---------------------------------------------------------------------------------------------

  lemma StepKeepsInv(w: World, a: Action)
    requires Inv(w)
    ensures Inv(Step(w, a)) && Advances(w, Step(w, a))
  {
    match a
    case DoCreate(order, warehouse, fate) => CreateKeepsInv(w, order, warehouse, fate);
    case DoMarkReady(picks) => MarkReadyKeepsInv(w, picks);
    case DoConfirm(orders, manifesting) => ConfirmKeepsInv(w, orders, manifesting);
    case DoSweep(carrier, warehouse, manifesting) => SweepKeepsInv(w, carrier, warehouse, manifesting);
    case DoDeliver(mid, attempts, met) => DeliverKeepsInv(w, mid, attempts, met);
  }

  lemma {:induction false} RunKeepsInv(w: World, actions: seq<Action>)
    requires Inv(w)
    ensures Inv(Run(w, actions)) && Advances(w, Run(w, actions))
    decreases |actions|
  {
    if actions != [] {
      StepKeepsInv(w, actions[0]);
      RunKeepsInv(Step(w, actions[0]), actions[1..]);
      AdvancesTrans(w, Step(w, actions[0]), Run(w, actions));
    }
  }

  lemma EmptyInv()
    ensures Inv(EMPTY)
  {
  }

  /** In every run: a consignment is on at most one manifest; it is `on_manifest` exactly when it is on one
      that is not sent; the members of a sent manifest are dispatched; members share their manifest's
      carrier and warehouse; every manifest has a send job; and from any moment to any later one no status
      has moved backwards. */
  lemma LifecycleSafe(earlier: seq<Action>, later: seq<Action>)
    ensures var (w, w') := (Run(EMPTY, earlier), Run(Run(EMPTY, earlier), later));
            && OneManifestEach(w')
            && (forall c :: 0 <= c < |w'.consignments| ==>
                  (w'.consignments[c].status == OnManifest <==>
                   exists i :: 0 <= i < |w'.members| && w'.members[i].consignment == c &&
                     w'.members[i].manifest < |w'.manifests| && w'.manifests[w'.members[i].manifest].status != Sent))
            && MembersFit(w')
            && JobsQueued(w')
            && Advances(w, w')
  {
    EmptyInv();
    RunKeepsInv(EMPTY, earlier);
    RunKeepsInv(Run(EMPTY, earlier), later);
    var w' := Run(Run(EMPTY, earlier), later);
    forall c | 0 <= c < |w'.consignments| && w'.consignments[c].status == OnManifest
      ensures exists i :: 0 <= i < |w'.members| && w'.members[i].consignment == c &&
                w'.members[i].manifest < |w'.manifests| && w'.manifests[w'.members[i].manifest].status != Sent
    {
      assert IsListed(w', c);
      var i :| 0 <= i < |w'.members| && w'.members[i].consignment == c;
      assert MemberFits(w', w'.members[i]);
    }
  }

  /** However often a manifest's job is delivered, and however its deliveries fail, each member gets the
      `manifested` event once if the manifest was sent and never otherwise; and then the carrier has
      accepted a document that declares it. */
  lemma ManifestedAtMostOnce(actions: seq<Action>, c: nat, m: nat)
    requires c < |Run(EMPTY, actions).consignments|
    ensures var w := Run(EMPTY, actions);
            var times := Count(w.events, Event(w.consignments[c].order, AsManifested, Some(m)));
            && times <= 1
            && (times == 1 <==>
                  m < |w.manifests| && w.manifests[m].status == Sent && Member(m, c) in w.members)
            && (times == 1 ==>
                  && w.consignments[c].status == Dispatched
                  && (Document(m, None) in w.documents || Document(m, Some(c)) in w.documents))
  {
    EmptyInv();
    RunKeepsInv(EMPTY, actions);
    var w := Run(EMPTY, actions);
    assert ManifestedOnce(w, c, m);
    if Member(m, c) in w.members {
      assert MemberFits(w, Member(m, c));
    }
  }
}
