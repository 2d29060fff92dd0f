/** When a create request leaves the carrier's booking, or a stored label, without the row that belongs to it; and
    so when an order can be booked twice. */
module Bookings {
  import opened Lifecycle
  import opened LifecycleProofs
  import opened Prelude

  // ---------------------------------------------------------------------------------------------
  // One request.
  // ---------------------------------------------------------------------------------------------

  /** The request gets as far as the carrier: a supported book operation, its numbers minted. */
  predicate Proceeds(order: string, fate: Fate) {
    && Acceptable(order)
    && fate.allocation.Selected?
    && fate.allocation.definition.Some?
    && fate.allocation.definition.value.book.Some?
    && var book := fate.allocation.definition.value.book.value;
    && book.labelKind != Unsupported
    && (book.mints ==> fate.minted)
  }

  function BookOf(order: string, fate: Fate): Book
    requires Proceeds(order, fate)
  {
    fate.allocation.definition.value.book.value
  }

  /** The carrier is asked to book, and does. */
  predicate Books(order: string, fate: Fate) {
    Proceeds(order, fate) && BookOf(order, fate).hasSteps && fate.booking.Completed?
  }

  /** The order number gets through the label's own steps: drawn, if it is drawn here, and named a file after. */
  predicate Prints(order: string, kind: LabelKind) {
    (kind == LocalRender ==> Renderable(order)) && Storable(order)
  }

  predicate LabelInHand(book: Book, fate: Fate) {
    book.labelKind == Base64Pdf ==> book.hasSteps && fate.labelDecodes
  }

  /** A label is saved. */
  predicate Saves(order: string, fate: Fate) {
    && Proceeds(order, fate)
    && var book := BookOf(order, fate);
    && (book.hasSteps ==> fate.booking.Completed?)
    && LabelInHand(book, fate)
    && Prints(order, book.labelKind)
  }

  /** The booking stands at the carrier and the row does not: a label in hand that the order number cannot carry, or
      a text that some column does not take. */
  predicate StrandsBooking(order: string, fate: Fate) {
    && Books(order, fate)
    && var book := BookOf(order, fate);
    && ((LabelInHand(book, fate) && !Prints(order, book.labelKind)) || !AllFit(Cells(book, fate)))
  }

  /** The label is stored and the row is not. */
  predicate StrandsLabel(order: string, fate: Fate) {
    Saves(order, fate) && !AllFit(Cells(BookOf(order, fate), fate))
  }

  /** A text its column takes: short enough, and without a null character. */
  predicate Takes(width: nat, text: string) {
    |text| <= width && forall i :: 0 <= i < |text| ==> text[i] != '\0'
  }

  /** All a request writes is taken exactly when what it brought is and, if a booking answered, so are its reference,
      at 255 characters, and the barcodes that go to parcels not coded before the call, at 80. */
  lemma AllFitExactlyWhen(book: Book, fate: Fate)
    ensures AllFit(Cells(book, fate)) <==>
      && (forall i :: 0 <= i < |fate.given| ==> Takes(fate.given[i].width, fate.given[i].text))
      && (book.hasSteps && fate.booking.Completed? ==>
            var answer := fate.booking.answer;
            && (answer.reference.Some? ==> Takes(255, answer.reference.value))
            && (!book.mints ==>
                  forall k :: 0 <= k < |answer.barcodes| && k < fate.parcels ==> Takes(80, answer.barcodes[k])))
  {
    if book.hasSteps && fate.booking.Completed? {
      AllFitJoins(fate.given, AnswerCells(book, fate.booking.answer, fate.parcels));
      AnswerFitsExactlyWhen(book, fate.booking.answer, fate.parcels);
    } else {
      assert Cells(book, fate) == fate.given;
    }
    TakenExactlyWhen(fate.given);
  }

  lemma TakenExactlyWhen(cells: seq<Cell>)
    ensures AllFit(cells) <==> forall i :: 0 <= i < |cells| ==> Takes(cells[i].width, cells[i].text)
  {
    assert forall i :: 0 <= i < |cells| ==> (Fits(cells[i]) <==> Takes(cells[i].width, cells[i].text));
  }

  lemma AnswerFitsExactlyWhen(book: Book, answer: Answer, parcels: nat)
    ensures AllFit(AnswerCells(book, answer, parcels)) <==>
      && (answer.reference.Some? ==> Takes(255, answer.reference.value))
      && (!book.mints ==>
            forall k :: 0 <= k < |answer.barcodes| && k < parcels ==> Takes(80, answer.barcodes[k]))
  {
    var cells := AnswerCells(book, answer, parcels);
    TakenExactlyWhen(cells);
    var n := if answer.reference.Some? then 1 else 0;
    assert answer.reference.Some? ==> cells[0] == Cell(answer.reference.value, REFERENCE_WIDTH);
    if !book.mints {
      assert forall k :: 0 <= k < |answer.barcodes| && k < parcels ==>
          cells[n + k] == Cell(answer.barcodes[k], BARCODE_WIDTH);
      assert forall i :: n <= i < |cells| ==> cells[i] == Cell(answer.barcodes[i - n], BARCODE_WIDTH);
    }
  }

  lemma AllFitJoins(a: seq<Cell>, b: seq<Cell>)
    ensures AllFit(a + b) <==> AllFit(a) && AllFit(b)
  {
    assert AllFit(a + b) ==> AllFit(a) && AllFit(b) by {
      assert forall i :: 0 <= i < |a| ==> (a + b)[i] == a[i];
      assert forall i :: 0 <= i < |b| ==> (a + b)[|a| + i] == b[i];
    }
  }

  /** At most one row more, the given order's, and with it its events; or neither. */
  predicate RowOrNothing(w: World, w': World, order: string, labelled: bool) {
    && (!HasOrder(w'.consignments, order) ==> w'.consignments == w.consignments && w'.events == w.events)
    && (HasOrder(w'.consignments, order) ==>
          && |w'.consignments| == |w.consignments| + 1
          && w'.consignments[..|w.consignments|] == w.consignments
          && w'.consignments[|w.consignments|].order == order
          && (Labelled(w'.consignments[|w.consignments|].status) <==> labelled))
  }

  lemma FlushOutcome(w: World, c: Consignment, stages: seq<Stage>, cells: seq<Cell>)
    requires !HasOrder(w.consignments, c.order)
    ensures var w' := Flush(w, c, stages, cells);
      && w'.booked == w.booked && w'.labels == w.labels
      && (HasOrder(w'.consignments, c.order) <==> AllFit(cells))
      && RowOrNothing(w, w', c.order, Labelled(c.status))
  {
    if AllFit(cells) {
      assert AddRow(w, c, stages).consignments[|w.consignments|] == c;
    }
  }

  lemma LabelOutcome(w: World, row: Consignment, sofar: seq<Stage>, book: Book, manifests: bool, fate: Fate)
    requires !HasOrder(w.consignments, row.order) && row.status == Allocated && book.labelKind != Unsupported
    ensures var w' := LabelAndFlush(w, row, sofar, book, manifests, fate);
            var saves := LabelInHand(book, fate) && Prints(row.order, book.labelKind);
      && w'.booked == w.booked
      && w'.labels == w.labels + (if saves then {row.order} else {})
      && (HasOrder(w'.consignments, row.order) <==>
            AllFit(Cells(book, fate)) && (saves || (book.hasSteps && !LabelInHand(book, fate))))
      && RowOrNothing(w, w', row.order, saves)
  {
    var (order, cells, saved) := (row.order, Cells(book, fate), w.(labels := w.labels + {row.order}));
    FlushOutcome(w, row.(status := LabelFailed), sofar + [AsLabelFailed], cells);
    FlushOutcome(saved, row, sofar + [AsLabelCreated], cells);
    FlushOutcome(saved, row.(status := Dispatched), sofar + [AsLabelCreated, AsDispatched], cells);
  }

  /** What a first request for an order leaves: its booking, its label and its row. */
  predicate Leaves(w: World, w': World, order: string, fate: Fate) {
    && w'.booked == w.booked + (if Books(order, fate) then [order] else [])
    && w'.labels == w.labels + (if Saves(order, fate) then {order} else {})
    && (Books(order, fate) ==> (StrandsBooking(order, fate) <==> !HasOrder(w'.consignments, order)))
    && (Saves(order, fate) ==> (StrandsLabel(order, fate) <==> !HasOrder(w'.consignments, order)))
    && RowOrNothing(w, w', order, Saves(order, fate))
  }

  lemma CarrierOutcome(w: World, order: string, warehouse: Option<string>, fate: Fate)
    requires !HasOrder(w.consignments, order) && Proceeds(order, fate)
    ensures Leaves(w, Create(w, order, warehouse, fate), order, fate)
  {
    assert w.booked + [] == w.booked && w.labels + {} == w.labels;
    var book := BookOf(order, fate);
    var row := Consignment(order, Allocated, Some(fate.allocation.carrier), warehouse);
    var manifests := fate.allocation.definition.value.manifests;
    if !book.hasSteps {
      LabelOutcome(w, row, [AsAllocated], book, manifests, fate);
    } else if fate.booking.Completed? {
      LabelOutcome(w.(booked := w.booked + [order]), row, [AsAllocated, AsBooked], book, manifests, fate);
    } else {
      FlushOutcome(w, row.(status := BookingFailed), [AsAllocated, AsBookingFailed], Cells(book, fate));
    }
  }

  lemma RequestOutcome(w: World, order: string, warehouse: Option<string>, fate: Fate)
    requires !HasOrder(w.consignments, order)
    ensures Leaves(w, Create(w, order, warehouse, fate), order, fate)
  {
    if Proceeds(order, fate) {
      CarrierOutcome(w, order, warehouse, fate);
    } else {
      assert w.booked + [] == w.booked && w.labels + {} == w.labels;
      if Acceptable(order) && fate.allocation.NotSelected? {
        FlushOutcome(w, Consignment(order, Rejected, None, warehouse), [AsRejected], fate.given);
      }
    }
  }

  // ---------------------------------------------------------------------------------------------
  // Whole runs.
  // ---------------------------------------------------------------------------------------------

  /** How many times an order's booking has completed at a carrier. */
  function TimesBooked(w: World, order: string): nat {
    multiset(w.booked)[order]
  }

  /** Booked at most once, and never without a row. */
  predicate Safe(w: World, order: string) {
    TimesBooked(w, order) <= 1 && (order in w.booked ==> HasOrder(w.consignments, order))
  }

  /** The k-th action is a first request for this order that has its booking, or its label, stranded. */
  predicate FirstRequest(actions: seq<Action>, k: nat, order: string) {
    && k < |actions|
    && actions[k].DoCreate?
    && actions[k].order == order
    && !HasOrder(Run(EMPTY, actions[..k]).consignments, order)
  }

  predicate BookingStranded(actions: seq<Action>, k: nat, order: string) {
    FirstRequest(actions, k, order) && StrandsBooking(order, actions[k].fate)
  }

  predicate LabelStranded(actions: seq<Action>, k: nat, order: string) {
    FirstRequest(actions, k, order) && StrandsLabel(order, actions[k].fate)
  }

  lemma {:induction false} RunSnoc(w: World, actions: seq<Action>, a: Action)
    ensures Run(w, actions + [a]) == Step(Run(w, actions), a)
    decreases |actions|
  {
    if actions == [] {
      assert [a][1..] == [];
      assert Run(Step(w, a), []) == Step(w, a);
      assert [] + [a] == [a];
    } else {
      RunSnoc(Step(w, actions[0]), actions[1..], a);
      assert (actions + [a])[1..] == actions[1..] + [a];
    }
  }

  lemma RunNext(actions: seq<Action>, k: nat)
    requires k < |actions|
    ensures Run(EMPTY, actions[..k + 1]) == Step(Run(EMPTY, actions[..k]), actions[k])
  {
    RunSnoc(EMPTY, actions[..k], actions[k]);
    assert actions[..k + 1] == actions[..k] + [actions[k]];
  }

  lemma Reachable(actions: seq<Action>)
    ensures Inv(Run(EMPTY, actions))
  {
    EmptyInv();
    RunKeepsInv(EMPTY, actions);
  }

  /** Nothing but a create request books or saves a label. */
  lemma OnlyRequestsBook(w: World, a: Action)
    requires !a.DoCreate?
    ensures Step(w, a).booked == w.booked && Step(w, a).labels == w.labels
    ensures |Step(w, a).consignments| == |w.consignments|
  {
  }

  /** A create request touches no order but its own. */
  lemma OtherOrders(w: World, order: string, warehouse: Option<string>, fate: Fate, other: string)
    requires other != order
    ensures var w' := Create(w, order, warehouse, fate);
      && (other in w'.booked <==> other in w.booked)
      && TimesBooked(w', other) == TimesBooked(w, other)
      && (other in w'.labels <==> other in w.labels)
  {
    if !HasOrder(w.consignments, order) {
      RequestOutcome(w, order, warehouse, fate);
    }
  }

  lemma StepStaysSafe(w: World, a: Action, order: string)
    requires Inv(w) && Safe(w, order)
    ensures Safe(Step(w, a), order) <==>
            !(a.DoCreate? && a.order == order && !HasOrder(w.consignments, order) && StrandsBooking(order, a.fate))
  {
    StepKeepsInv(w, a);
    if HasOrder(w.consignments, order) {
      HasOrderKept(w, Step(w, a), order);
    }
    if !a.DoCreate? {
      OnlyRequestsBook(w, a);
    } else if a.order != order {
      OtherOrders(w, a.order, a.warehouse, a.fate, order);
    } else if !HasOrder(w.consignments, order) {
      RequestOutcome(w, order, a.warehouse, a.fate);
      assert order !in w.booked;
    }
  }

  /** An order is safe from double booking all along a run exactly when no request of the run strands its
      booking. */
  lemma {:induction false} SafeThroughoutExactlyWhenNoneStranded(actions: seq<Action>, order: string)
    ensures (forall k: nat :: k <= |actions| ==> Safe(Run(EMPTY, actions[..k]), order))
            <==> !exists k: nat :: BookingStranded(actions, k, order)
    decreases |actions|
  {
    if forall k: nat :: k <= |actions| ==> Safe(Run(EMPTY, actions[..k]), order) {
      forall k: nat | k < |actions|
        ensures !BookingStranded(actions, k, order)
      {
        assert Safe(Run(EMPTY, actions[..k]), order) && Safe(Run(EMPTY, actions[..k + 1]), order);
        SafeNext(actions, k, order);
      }
    }
    if !exists k: nat :: BookingStranded(actions, k, order) {
      forall k: nat | k <= |actions|
        ensures Safe(Run(EMPTY, actions[..k]), order)
      {
        StaysSafe(actions, k, order);
      }
    }
  }

  lemma {:induction false} StaysSafe(actions: seq<Action>, k: nat, order: string)
    requires k <= |actions| && forall j: nat :: !BookingStranded(actions, j, order)
    ensures Safe(Run(EMPTY, actions[..k]), order)
    decreases k
  {
    if k > 0 {
      StaysSafe(actions, k - 1, order);
      SafeNext(actions, k - 1, order);
    }
  }

  /** One call more keeps an order safe exactly when it is not a request that strands its booking. */
  lemma SafeNext(actions: seq<Action>, k: nat, order: string)
    requires k < |actions| && Safe(Run(EMPTY, actions[..k]), order)
    ensures Safe(Run(EMPTY, actions[..k + 1]), order) <==> !BookingStranded(actions, k, order)
  {
    Reachable(actions[..k]);
    RunNext(actions, k);
    StepStaysSafe(Run(EMPTY, actions[..k]), actions[k], order);
  }

  /** In every run a row is labelled exactly when a label is stored for its order, unless an earlier request for
      the order saved its label and then had its row refused. */
  lemma LabelledExactlyWhenStored(actions: seq<Action>, c: nat)
    requires c < |Run(EMPTY, actions).consignments|
    ensures var (w, order) := (Run(EMPTY, actions), Run(EMPTY, actions).consignments[c].order);
            order in w.labels <==>
            Labelled(w.consignments[c].status) || exists k: nat :: LabelStranded(actions, k, order)
  {
    assert actions[..|actions|] == actions;
    LabelsTold(actions, |actions|, Run(EMPTY, actions).consignments[c].order);
    Reachable(actions);
    assert RowLabelled(Run(EMPTY, actions), Run(EMPTY, actions).consignments[c].order)
        <==> Labelled(Run(EMPTY, actions).consignments[c].status);
  }

  predicate RowLabelled(w: World, order: string) {
    exists c :: 0 <= c < |w.consignments| && w.consignments[c].order == order && Labelled(w.consignments[c].status)
  }

  predicate StrandedBefore(actions: seq<Action>, n: nat, order: string) {
    exists k: nat :: k < n && LabelStranded(actions, k, order)
  }

  lemma StrandedNext(actions: seq<Action>, n: nat, order: string)
    requires n > 0
    ensures StrandedBefore(actions, n, order) <==>
            StrandedBefore(actions, n - 1, order) || LabelStranded(actions, n - 1, order)
  {
    if k: nat :| k < n - 1 && LabelStranded(actions, k, order) {
      assert k < n;
    }
  }

  lemma {:induction false} LabelsTold(actions: seq<Action>, n: nat, order: string)
    requires n <= |actions|
    ensures order in Run(EMPTY, actions[..n]).labels <==>
            RowLabelled(Run(EMPTY, actions[..n]), order) || StrandedBefore(actions, n, order)
    decreases n
  {
    if n > 0 {
      LabelsTold(actions, n - 1, order);
      StrandedNext(actions, n, order);
      LabelsNext(actions, n - 1, order);
    }
  }

  lemma LabelsNext(actions: seq<Action>, n: nat, order: string)
    requires n < |actions|
    ensures var (w, w') := (Run(EMPTY, actions[..n]), Run(EMPTY, actions[..n + 1]));
            var (saves, strands) := (SavesFirst(w, actions[n], order), LabelStranded(actions, n, order));
      && (order in w'.labels <==> order in w.labels || saves)
      && (RowLabelled(w', order) <==> RowLabelled(w, order) || (saves && !strands))
      && (strands ==> saves)
  {
    Reachable(actions[..n]);
    RunNext(actions, n);
    LabelsStep(Run(EMPTY, actions[..n]), actions[n], order);
  }

  /** A first request for an order whose label is saved, or saved and stranded. */
  predicate SavesFirst(w: World, a: Action, order: string) {
    a.DoCreate? && a.order == order && !HasOrder(w.consignments, order) && Saves(order, a.fate)
  }

  predicate StrandsFirst(w: World, a: Action, order: string) {
    a.DoCreate? && a.order == order && !HasOrder(w.consignments, order) && StrandsLabel(order, a.fate)
  }

  /** Rows keep their order and stay labelled, or unlabelled. */
  lemma RowsStayLabelled(w: World, w': World, n: nat, order: string)
    requires Advances(w, w') && n == |w.consignments|
    ensures RowLabelled(w'.(consignments := w'.consignments[..n]), order) <==> RowLabelled(w, order)
  {
    if c :| 0 <= c < n && w.consignments[c].order == order && Labelled(w.consignments[c].status) {
      assert w'.consignments[..n][c].order == order && Labelled(w'.consignments[..n][c].status);
    }
    if c :| 0 <= c < n && w'.consignments[..n][c].order == order && Labelled(w'.consignments[..n][c].status) {
      assert w.consignments[c].order == order && Labelled(w.consignments[c].status);
    }
  }

  lemma OneRowMore(w: World, c: Consignment, order: string)
    requires w.consignments != [] && w.consignments[|w.consignments| - 1] == c
    ensures RowLabelled(w, order) <==>
            || RowLabelled(w.(consignments := w.consignments[..|w.consignments| - 1]), order)
            || (c.order == order && Labelled(c.status))
  {
    var n := |w.consignments| - 1;
    if i :| 0 <= i < n && w.consignments[i].order == order && Labelled(w.consignments[i].status) {
      assert w.consignments[..n][i] == w.consignments[i];
    }
    if i :| 0 <= i < n && w.consignments[..n][i].order == order && Labelled(w.consignments[..n][i].status) {
      assert w.consignments[i].order == order;
    }
  }

  lemma LabelsStep(w: World, a: Action, order: string)
    requires Inv(w)
    ensures order in Step(w, a).labels <==> order in w.labels || SavesFirst(w, a, order)
    ensures RowLabelled(Step(w, a), order) <==>
            RowLabelled(w, order) || (SavesFirst(w, a, order) && !StrandsFirst(w, a, order))
    ensures StrandsFirst(w, a, order) ==> SavesFirst(w, a, order)
  {
    StepKeepsInv(w, a);
    RowsStayLabelled(w, Step(w, a), |w.consignments|, order);
    if !a.DoCreate? {
      OnlyRequestsBook(w, a);
      assert Step(w, a).consignments[..|w.consignments|] == Step(w, a).consignments;
    } else if !HasOrder(w.consignments, a.order) {
      FirstRequestLabels(w, a.order, a.warehouse, a.fate, order);
    }
  }

  /** The labels and labelled rows a first request adds, of its own order or any other. */
  lemma FirstRequestLabels(w: World, order: string, warehouse: Option<string>, fate: Fate, other: string)
    requires !HasOrder(w.consignments, order)
    ensures var w' := Create(w, order, warehouse, fate);
      && (other in w'.labels <==> other in w.labels || (order == other && Saves(order, fate)))
      && (RowLabelled(w', other) <==>
            RowLabelled(w.(consignments := w'.consignments[..|w.consignments|]), other)
            || (order == other && Saves(order, fate) && !StrandsLabel(order, fate)))
  {
    var (w', n) := (Create(w, order, warehouse, fate), |w.consignments|);
    RequestOutcome(w, order, warehouse, fate);
    if HasOrder(w'.consignments, order) {
      OneRowMore(w', w'.consignments[n], other);
    }
  }

  // ---------------------------------------------------------------------------------------------
  // Which orders can be booked twice.
  // ---------------------------------------------------------------------------------------------

  /** Every text the order's requests bring, and every one its carriers answer with, fits its column. */
  predicate TextsFit(actions: seq<Action>, order: string) {
    forall k :: 0 <= k < |actions| && actions[k].DoCreate? && actions[k].order == order &&
                Proceeds(order, actions[k].fate) ==>
      AllFit(Cells(BookOf(order, actions[k].fate), actions[k].fate))
  }

  /** The order goes to carriers of one label kind only. */
  predicate OnlyKind(actions: seq<Action>, order: string, kind: LabelKind) {
    forall k :: 0 <= k < |actions| && actions[k].DoCreate? && actions[k].order == order &&
                Proceeds(order, actions[k].fate) ==>
      BookOf(order, actions[k].fate).labelKind == kind
  }

  /** A carrier that books over the wire. */
  function Bookable(kind: LabelKind, answer: Answer): Fate {
    Fate(Selected("carrier", Some(Published(Some(Book(kind, false, true)), false))), true, Completed(answer), true, 1,
         [])
  }

  function Twice(order: string, kind: LabelKind, answer: Answer): seq<Action> {
    var create := DoCreate(order, None, Bookable(kind, answer));
    [create, create]
  }

  /** A request that strands its booking, made again, books again. */
  lemma StrandedTwice(order: string, kind: LabelKind, answer: Answer)
    requires StrandsBooking(order, Bookable(kind, answer))
    ensures TimesBooked(Run(EMPTY, Twice(order, kind, answer)), order) == 2
  {
    var (create, fate) := (DoCreate(order, None, Bookable(kind, answer)), Bookable(kind, answer));
    var once := Step(EMPTY, create);
    RequestOutcome(EMPTY, order, None, fate);
    RequestOutcome(once, order, None, fate);
    assert [create, create][1..] == [create] && [create][1..] == [];
    assert Run(EMPTY, [create, create]) == Run(once, [create]);
    assert Run(once, [create]) == Run(Step(once, create), []);
    assert Step(once, create).booked == [] + [order] + [order];
  }

  /** As long as every text fits, an order sent to carriers of one label kind is booked at most once and never
      without a row, in every run, exactly when its number, if it gets as far as a carrier at all, gets through that
      kind's label. */
  lemma BookedOnceExactlyWhenPrintable(order: string, kind: LabelKind)
    requires kind != Unsupported
    ensures (forall actions :: TextsFit(actions, order) && OnlyKind(actions, order, kind) ==>
               Safe(Run(EMPTY, actions), order))
            <==> (Acceptable(order) ==> Prints(order, kind))
  {
    if Acceptable(order) ==> Prints(order, kind) {
      forall actions | TextsFit(actions, order) && OnlyKind(actions, order, kind)
        ensures Safe(Run(EMPTY, actions), order)
      {
        assert forall k: nat :: !BookingStranded(actions, k, order);
        assert actions[..|actions|] == actions;
        StaysSafe(actions, |actions|, order);
      }
    } else {
      var twice := Twice(order, kind, Answer(None, []));
      StrandedTwice(order, kind, Answer(None, []));
      assert TextsFit(twice, order) && OnlyKind(twice, order, kind);
      assert !Safe(Run(EMPTY, twice), order);
    }
  }

  /** Whoever makes the label: the number must both be drawable and name a file. */
  lemma BookedOnceExactlyWhenDrawnAndStored(order: string)
    ensures (forall actions :: TextsFit(actions, order) ==> Safe(Run(EMPTY, actions), order))
            <==> (Acceptable(order) ==> Renderable(order) && Storable(order))
  {
    if Acceptable(order) ==> Renderable(order) && Storable(order) {
      forall actions | TextsFit(actions, order)
        ensures Safe(Run(EMPTY, actions), order)
      {
        assert forall k: nat :: !BookingStranded(actions, k, order);
        assert actions[..|actions|] == actions;
        StaysSafe(actions, |actions|, order);
      }
    } else {
      BookedOnceExactlyWhenPrintable(order, LocalRender);
    }
  }

  /** A reference one character too long for its column. */
  const LONG_REFERENCE := Answer(Some(seq(REFERENCE_WIDTH + 1, i => 'x')), [])

  /** Against every answer a carrier may give no order is safe: whatever its number, if it gets as far as the
      carrier, a reference too long for its column books it twice. */
  lemma NoOrderIsSafeFromEveryAnswer(order: string)
    ensures (forall actions :: Safe(Run(EMPTY, actions), order)) <==> !Acceptable(order)
  {
    if Acceptable(order) {
      var fate := Bookable(Base64Pdf, LONG_REFERENCE);
      assert !Fits(Cells(BookOf(order, fate), fate)[0]);
      StrandedTwice(order, Base64Pdf, LONG_REFERENCE);
      assert !Safe(Run(EMPTY, Twice(order, Base64Pdf, LONG_REFERENCE)), order);
    } else {
      forall actions
        ensures Safe(Run(EMPTY, actions), order)
      {
        assert forall k: nat :: !BookingStranded(actions, k, order);
        assert actions[..|actions|] == actions;
        StaysSafe(actions, |actions|, order);
      }
    }
  }

  /** The order numbers the JSON edge lets through: letters, digits, `_` and `-`, one to 64 of them. */
  predicate JsonOrder(order: string) {
    && 1 <= |order| <= ORDER_NUMBER_MAX
    && forall i :: 0 <= i < |order| ==>
         'A' <= order[i] <= 'Z' || 'a' <= order[i] <= 'z' || '0' <= order[i] <= '9' || order[i] in "_-"
  }

  lemma {:induction false} AsciiBytes(s: string)
    requires forall i :: 0 <= i < |s| ==> s[i] < '\U{80}'
    ensures Utf8Bytes(s) == |s|
    decreases |s|
  {
    if s != "" {
      AsciiBytes(s[1..]);
    }
  }

  lemma {:induction false} WideBytes(s: string)
    requires forall i :: 0 <= i < |s| ==> s[i] >= '\U{10000}'
    ensures Utf8Bytes(s) == 4 * |s|
    decreases |s|
  {
    if s != "" {
      WideBytes(s[1..]);
    }
  }

  /** So an order that came through the JSON edge is booked at most once, and never without a row, in every run
      whose texts fit. */
  lemma JsonOrdersAreBookedOnce(order: string, actions: seq<Action>)
    requires JsonOrder(order) && TextsFit(actions, order)
    ensures Safe(Run(EMPTY, actions), order)
  {
    AsciiBytes(order);
    assert order[0] != '.';
    assert forall k: nat :: !BookingStranded(actions, k, order);
    assert actions[..|actions|] == actions;
    StaysSafe(actions, |actions|, order);
  }

  /** The legacy edge asks only that the number be there and short enough. A path and a dot name no file, and a file
      named after 64 four-byte characters is five bytes too long, whoever makes the label; letters outside Latin-1
      cannot be drawn here. */
  lemma LegacyOrdersBookedTwice(order: string, kind: LabelKind)
    requires kind != Unsupported
    requires || order in {"95/1", "."}
             || order == seq(ORDER_NUMBER_MAX, i => '\U{1f4e6}')
             || (order == "\U{8ba2}\U{5355}1" && kind == LocalRender)
    ensures Acceptable(order) && !Prints(order, kind)
    ensures TextsFit(Twice(order, kind, Answer(None, [])), order)
    ensures TimesBooked(Run(EMPTY, Twice(order, kind, Answer(None, []))), order) == 2
  {
    if order == "95/1" {
      assert order[2] == '/';
    } else if order == "\U{8ba2}\U{5355}1" {
      assert order[0] > '\U{ff}';
    } else if order != "." {
      WideBytes(order);
    }
    StrandedTwice(order, kind, Answer(None, []));
  }
}
