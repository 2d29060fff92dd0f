/** The life of a consignment from booking to dispatch, and of the manifests that carry it
    (domain/consignments.py, domain/manifests.py, routers/manifests.py, legacy/consignment_service.py,
    legacy/manifest_service.py, queue.py): what each edge call, taken as one transaction, does to the
    stored rows. Rows are append-only and known by their index, the order they were inserted in. */
module Lifecycle {
  import opened Prelude

  datatype Status = Rejected | BookingFailed | LabelFailed | Allocated | Ready | OnManifest | Dispatched

  predicate Labelled(s: Status) {
    s in {Allocated, Ready, OnManifest, Dispatched}
  }

  datatype Consignment = Consignment(order: string, status: Status, carrier: Option<string>, warehouse: Option<string>)

  datatype SendStatus = Pending | Sent | Failed

  datatype Manifest = Manifest(
    carrier: string,
    warehouse: Option<string>,
    status: SendStatus,
    attempts: nat,
    erred: bool,
    code: Option<nat>)

  /** One consignment declared on one manifest. */
  datatype Member = Member(manifest: nat, consignment: nat)

  datatype Stage =
    | AsRejected | AsAllocated | AsBooked | AsBookingFailed | AsLabelFailed | AsLabelCreated
    | AsOnManifest | AsDispatched | AsManifested | AsManifestFailed

  datatype Event = Event(order: string, stage: Stage, manifest: Option<nat>)

  /** A document a carrier accepted: one consignment's, or the whole manifest's. */
  datatype Document = Document(manifest: nat, consignment: Option<nat>)

  /** The stored rows, the label files, the queued jobs; and what happened at the carriers, which no
      rollback takes back: the orders whose booking completed, and the documents they accepted. */
  datatype World = World(
    consignments: seq<Consignment>,
    manifests: seq<Manifest>,
    members: seq<Member>,
    events: seq<Event>,
    labels: set<string>,
    jobs: seq<nat>,
    codes: nat,
    booked: seq<string>,
    documents: seq<Document>)

  const EMPTY := World([], [], [], [], {}, [], 0, [], [])

  // ---------------------------------------------------------------------------------------------
  // Creating a consignment.
  // ---------------------------------------------------------------------------------------------

  datatype LabelKind = LocalRender | Base64Pdf | Unsupported
  datatype Book = Book(labelKind: LabelKind, mints: bool, hasSteps: bool)
  datatype Published = Published(book: Option<Book>, manifests: bool)
  datatype Allocation = Faulty | NotSelected | Selected(carrier: string, definition: Option<Published>)

  /** What a completed booking's response puts on the row and its parcels, as extracted. */
  datatype Answer = Answer(reference: Option<string>, barcodes: seq<string>)
  datatype Booking = Completed(answer: Answer) | CarrierFailed | Crashed

  /** Text bound for a column of some width. */
  datatype Cell = Cell(text: string, width: nat)

  /** What the request meets: the allocation, the minting, the carrier's answer, whether the label it returned
      decodes; and what it brings, the parcels and the row's texts that nothing else depends on. */
  datatype Fate = Fate(
    allocation: Allocation,
    minted: bool,
    booking: Booking,
    labelDecodes: bool,
    parcels: nat,
    given: seq<Cell>)

  const ORDER_NUMBER_MAX := 64
  const REFERENCE_WIDTH := 255
  const BARCODE_WIDTH := 80
  const FILE_NAME_BYTES := 255

  predicate HasOrder(cs: seq<Consignment>, order: string) {
    exists i :: 0 <= i < |cs| && cs[i].order == order
  }

  /** Any other order number is refused before the carrier is called: too long by the request's own check, or
      unfit for the query that looks for a duplicate. */
  predicate Acceptable(order: string) {
    |order| <= ORDER_NUMBER_MAX && '\0' !in order
  }

  function Utf8Bytes(s: string): nat {
    if s == "" then 0
    else Utf8Bytes(s[1..]) + if s[0] < '\U{80}' then 1 else if s[0] < '\U{800}' then 2
                             else if s[0] < '\U{10000}' then 3 else 4
  }

  /** The label store names a file after the order: one plain file name, `.pdf` added, that the file system takes. */
  predicate Storable(order: string) {
    '/' !in order && order != "." && Utf8Bytes(order) + 4 <= FILE_NAME_BYTES
  }

  /** A label rendered here carries the order number as a Code 128 barcode, which holds Latin-1 only. */
  predicate Renderable(order: string) {
    forall i :: 0 <= i < |order| ==> order[i] <= '\U{ff}'
  }

  /** Postgres takes text no longer than its column and without a null character. */
  predicate Fits(c: Cell) {
    |c.text| <= c.width && '\0' !in c.text
  }

  predicate AllFit(cells: seq<Cell>) {
    forall i :: 0 <= i < |cells| ==> Fits(cells[i])
  }

  /** The reference goes to the row and the barcodes to the parcels, in order, unless codes were minted for them. */
  function AnswerCells(book: Book, answer: Answer, parcels: nat): seq<Cell> {
    var n := if |answer.barcodes| <= parcels then |answer.barcodes| else parcels;
    (if answer.reference.Some? then [Cell(answer.reference.value, REFERENCE_WIDTH)] else [])
    + if book.mints then [] else seq(n, i requires 0 <= i < n => Cell(answer.barcodes[i], BARCODE_WIDTH))
  }

  /** Every text the row and its parcels are written with, once the booking is over. */
  function Cells(book: Book, fate: Fate): seq<Cell> {
    fate.given + if book.hasSteps && fate.booking.Completed? then AnswerCells(book, fate.booking.answer, fate.parcels)
                 else []
  }

  function AddRow(w: World, c: Consignment, stages: seq<Stage>): World {
    w.(consignments := w.consignments + [c],
       events := w.events + seq(|stages|, i requires 0 <= i < |stages| => Event(c.order, stages[i], None)))
  }

  /** The flush: text a column does not take rolls the row and its timeline back. */
  function Flush(w: World, c: Consignment, stages: seq<Stage>, cells: seq<Cell>): World {
    if AllFit(cells) then AddRow(w, c, stages) else w
  }

  /** The label's own steps, the carrier having booked or had nothing to book; `sofar` is the timeline until then. */
  function LabelAndFlush(w: World, row: Consignment, sofar: seq<Stage>, book: Book, manifests: bool, fate: Fate)
    : World
  {
    if book.labelKind == Base64Pdf && !book.hasSteps then w
    else if book.labelKind == Base64Pdf && !fate.labelDecodes then
      Flush(w, row.(status := LabelFailed), sofar + [AsLabelFailed], Cells(book, fate))
    else if book.labelKind == LocalRender && !Renderable(row.order) then w
    else if !Storable(row.order) then w
    else
      var saved := w.(labels := w.labels + {row.order});
      if manifests then Flush(saved, row, sofar + [AsLabelCreated], Cells(book, fate))
      else Flush(saved, row.(status := Dispatched), sofar + [AsLabelCreated, AsDispatched], Cells(book, fate))
  }

  /** The carrier's booking, if it has book steps, and then the label. */
  function BookAndLabel(w: World, row: Consignment, book: Book, manifests: bool, fate: Fate): World {
    if !book.hasSteps then LabelAndFlush(w, row, [AsAllocated], book, manifests, fate)
    else
      match fate.booking
      case Crashed => w
      case CarrierFailed => Flush(w, row.(status := BookingFailed), [AsAllocated, AsBookingFailed], Cells(book, fate))
      case Completed(_) =>
        LabelAndFlush(w.(booked := w.booked + [row.order]), row, [AsAllocated, AsBooked], book, manifests, fate)
  }

  function Create(w: World, order: string, warehouse: Option<string>, fate: Fate): World {
    if !Acceptable(order) || HasOrder(w.consignments, order) || fate.allocation.Faulty? then w
    else if fate.allocation.NotSelected? then
      Flush(w, Consignment(order, Rejected, None, warehouse), [AsRejected], fate.given)
    else if fate.allocation.definition.None? || fate.allocation.definition.value.book.None? then w
    else
      var definition := fate.allocation.definition.value;
      var book := definition.book.value;
      var row := Consignment(order, Allocated, Some(fate.allocation.carrier), warehouse);
      if book.labelKind == Unsupported || (book.mints && !fate.minted) then w
      else BookAndLabel(w, row, book, definition.manifests, fate)
  }

  // ---------------------------------------------------------------------------------------------
  // Marking consignments ready.
  // ---------------------------------------------------------------------------------------------

  /** A code that resolves to a consignment a mark-ready call accepts. */
  predicate Markable(cs: seq<Consignment>, pick: Option<nat>) {
    pick.Some? && pick.value < |cs| && cs[pick.value].status in {Allocated, Ready, Dispatched}
  }

  function MarkReady(w: World, picks: seq<Option<nat>>): World {
    if picks == [] || exists i :: 0 <= i < |picks| && !Markable(w.consignments, picks[i]) then w
    else w.(consignments := seq(|w.consignments|, i requires 0 <= i < |w.consignments| =>
              if Some(i) in picks && w.consignments[i].status == Allocated then w.consignments[i].(status := Ready)
              else w.consignments[i]))
  }

  // ---------------------------------------------------------------------------------------------
  // Grouping consignments into manifests.
  // ---------------------------------------------------------------------------------------------

  type Group = (string, Option<string>)

  predicate Selectable(cs: seq<Consignment>, sel: seq<nat>) {
    forall i :: 0 <= i < |sel| ==> sel[i] < |cs| && cs[sel[i]].carrier.Some?
  }

  function GroupOf(c: Consignment): Group
    requires c.carrier.Some?
  {
    (c.carrier.value, c.warehouse)
  }

  /** The groups that get a manifest, in the order they are first met. */
  function Groups(cs: seq<Consignment>, sel: seq<nat>, manifesting: set<string>): seq<Group>
    requires Selectable(cs, sel)
    decreases |sel|
  {
    if sel == [] then []
    else
      var before := Groups(cs, sel[..|sel| - 1], manifesting);
      var group := GroupOf(cs[sel[|sel| - 1]]);
      if group in before || group.0 !in manifesting then before else before + [group]
  }

  /** A group's consignments, in the order they were given. */
  function InGroup(cs: seq<Consignment>, sel: seq<nat>, group: Group): seq<nat>
    requires Selectable(cs, sel)
    decreases |sel|
  {
    if sel == [] then []
    else
      var before := InGroup(cs, sel[..|sel| - 1], group);
      var id := sel[|sel| - 1];
      if GroupOf(cs[id]) == group then before + [id] else before
  }

  /** The membership rows of the first groups. */
  function MemberRows(cs: seq<Consignment>, sel: seq<nat>, groups: seq<Group>, base: nat): seq<Member>
    requires Selectable(cs, sel)
    decreases |groups|
  {
    if groups == [] then []
    else
      var last := |groups| - 1;
      var ids := InGroup(cs, sel, groups[last]);
      MemberRows(cs, sel, groups[..last], base) + RowsOn(base + last, ids)
  }

  function RowsOn(manifest: nat, ids: seq<nat>): seq<Member> {
    seq(|ids|, i requires 0 <= i < |ids| => Member(manifest, ids[i]))
  }

  function NewManifests(groups: seq<Group>): seq<Manifest> {
    seq(|groups|, i requires 0 <= i < |groups| => Manifest(groups[i].0, groups[i].1, Pending, 0, false, None))
  }

  /** Where a selected consignment goes: onto its manifest, or, its carrier having none, straight out. */
  function Onward(c: Consignment, manifesting: set<string>): Status {
    if c.carrier.Some? && c.carrier.value in manifesting then OnManifest else Dispatched
  }

  function IndexOf<T(==)>(s: seq<T>, x: T): (i: nat)
    requires x in s
    ensures i < |s| && s[i] == x && forall j :: 0 <= j < i ==> s[j] != x
    decreases |s|
  {
    if s[0] == x then 0 else 1 + IndexOf(s[1..], x)
  }

  function OnwardEvent(c: Consignment, groups: seq<Group>, base: nat): Event
    requires c.carrier.Some?
  {
    if GroupOf(c) in groups then Event(c.order, AsOnManifest, Some(base + IndexOf(groups, GroupOf(c))))
    else Event(c.order, AsDispatched, None)
  }

  function CreateManifests(w: World, sel: seq<nat>, manifesting: set<string>): World
    requires Selectable(w.consignments, sel)
  {
    var cs := w.consignments;
    var groups := Groups(cs, sel, manifesting);
    var base := |w.manifests|;
    w.(manifests := w.manifests + NewManifests(groups),
       members := w.members + MemberRows(cs, sel, groups, base),
       consignments := seq(|cs|, i requires 0 <= i < |cs| =>
         if i in sel then cs[i].(status := Onward(cs[i], manifesting)) else cs[i]),
       events := w.events + seq(|sel|, i requires 0 <= i < |sel| => OnwardEvent(cs[sel[i]], groups, base)))
  }

  /** One send job for every manifest from `base` on, in the same transaction. */
  function Enqueue(w: World, base: nat): World
    requires base <= |w.manifests|
  {
    w.(jobs := w.jobs + seq(|w.manifests| - base, i requires 0 <= i => base + i))
  }

  // ---------------------------------------------------------------------------------------------
  // The two manifest triggers.
  // ---------------------------------------------------------------------------------------------

  predicate NoDuplicates<T(==)>(s: seq<T>) {
    forall i, j :: 0 <= i < j < |s| ==> s[i] != s[j]
  }

  /** The row of an order; orders are unique. */
  function RowOf(cs: seq<Consignment>, order: string): (i: nat)
    requires HasOrder(cs, order)
    ensures i < |cs| && cs[i].order == order
    decreases |cs|
  {
    if cs[0].order == order then 0 else 1 + RowOf(cs[1..], order)
  }

  predicate Confirmable(cs: seq<Consignment>, order: string) {
    HasOrder(cs, order) && cs[RowOf(cs, order)].status in {Allocated, Dispatched}
  }

  /** The named consignments that still need a manifest. */
  function ToManifest(cs: seq<Consignment>, orders: seq<string>): seq<nat>
    requires forall i :: 0 <= i < |orders| ==> HasOrder(cs, orders[i])
    decreases |orders|
  {
    if orders == [] then []
    else
      var before := ToManifest(cs, orders[..|orders| - 1]);
      var id := RowOf(cs, orders[|orders| - 1]);
      if cs[id].status == Allocated then before + [id] else before
  }

  predicate Refused(cs: seq<Consignment>, orders: seq<string>) {
    orders == [] || !NoDuplicates(orders) || exists i :: 0 <= i < |orders| && !Confirmable(cs, orders[i])
  }

  function Confirm(w: World, orders: seq<string>, manifesting: set<string>): World {
    if Refused(w.consignments, orders) then w
    else
      var sel := ToManifest(w.consignments, orders);
      if !Selectable(w.consignments, sel) then w
      else Enqueue(CreateManifests(w, sel, manifesting), |w.manifests|)
  }

  /** The ready consignments of one carrier and warehouse, oldest first. */
  function ReadyRows(cs: seq<Consignment>, carrier: string, warehouse: string): seq<nat>
    decreases |cs|
  {
    if cs == [] then []
    else
      var last := |cs| - 1;
      var before := ReadyRows(cs[..last], carrier, warehouse);
      if cs[last].carrier == Some(carrier) && cs[last].warehouse == Some(warehouse) && cs[last].status == Ready then
        before + [last]
      else before
  }

  function SetCodes(w: World, base: nat): World {
    w.(manifests := seq(|w.manifests|, i requires 0 <= i < |w.manifests| =>
         if i >= base then w.manifests[i].(code := Some(w.codes)) else w.manifests[i]),
       codes := w.codes + 1)
  }

  function Sweep(w: World, carrier: string, warehouse: string, manifesting: set<string>): World {
    var sel := ReadyRows(w.consignments, carrier, warehouse);
    if !Selectable(w.consignments, sel) then w
    else Enqueue(SetCodes(CreateManifests(w, sel, manifesting), |w.manifests|), |w.manifests|)
  }

  // ---------------------------------------------------------------------------------------------
  // Delivering a send job.
  // ---------------------------------------------------------------------------------------------

  /** What happens to one document: accepted, failed in a way the job records, or an infrastructure
      fault that rolls the delivery back. */
  datatype Outcome = Emitted | NotEmitted | Fault

  /** What one delivery meets. `fanOut` is absent when the published definition has no manifest
      operation; document k meets outcomes[k], or fails when the list is short. */
  datatype Meeting = Meeting(fanOut: Option<bool>, warehouseKnown: bool, outcomes: seq<Outcome>)

  const MAX_ATTEMPTS := 5

  function IdsOn(members: seq<Member>, manifest: nat): seq<nat>
    decreases |members|
  {
    if members == [] then []
    else
      var last := members[|members| - 1];
      var before := IdsOn(members[..|members| - 1], manifest);
      if last.manifest == manifest then before + [last.consignment] else before
  }

  function Documents(w: World, mid: nat, fanOut: bool): seq<Document> {
    if fanOut then
      var ids := IdsOn(w.members, mid);
      seq(|ids|, i requires 0 <= i < |ids| => Document(mid, Some(ids[i])))
    else [Document(mid, None)]
  }

  /** Document k goes out. */
  predicate Emits(outcomes: seq<Outcome>, k: nat) {
    k < |outcomes| && outcomes[k] == Emitted
  }

  /** Of `needed` documents the first `k` go out, and the one after them, if any is left, does not. */
  predicate GoOut(outcomes: seq<Outcome>, needed: nat, k: nat) {
    && k <= needed
    && (forall j :: 0 <= j < k ==> Emits(outcomes, j))
    && (k < needed ==> !Emits(outcomes, k))
  }

  /** How many of the first `n` documents go out before one does not. */
  function EmittedCount(outcomes: seq<Outcome>, n: nat): (k: nat)
    ensures GoOut(outcomes, n, k)
  {
    if n == 0 then 0
    else
      var k := EmittedCount(outcomes, n - 1);
      if k == n - 1 && Emits(outcomes, n - 1) then n else k
  }

  function FailDelivery(w: World, mid: nat, attempts: nat): World
    requires mid < |w.manifests|
  {
    var ids := IdsOn(w.members, mid);
    var m := w.manifests[mid].(attempts := attempts + 1, erred := true);
    if attempts < MAX_ATTEMPTS then w.(manifests := w.manifests[mid := m])
    else
      w.(manifests := w.manifests[mid := m.(status := Failed)],
         events := w.events + EventsFor(w.consignments, ids, AsManifestFailed, mid))
  }

  function EventsFor(cs: seq<Consignment>, ids: seq<nat>, stage: Stage, mid: nat): seq<Event> {
    seq(|ids|, i requires 0 <= i < |ids| =>
      Event(if ids[i] < |cs| then cs[ids[i]].order else "", stage, Some(mid)))
  }

  function SendSucceeds(w: World, mid: nat, attempts: nat): World
    requires mid < |w.manifests|
  {
    var ids := IdsOn(w.members, mid);
    w.(manifests := w.manifests[mid := w.manifests[mid].(attempts := attempts + 1, status := Sent)],
       consignments := seq(|w.consignments|, i requires 0 <= i < |w.consignments| =>
         if i in ids then w.consignments[i].(status := Dispatched) else w.consignments[i]),
       events := w.events + EventsFor(w.consignments, ids, AsManifested, mid))
  }

  function Deliver(w: World, mid: nat, attempts: nat, met: Meeting): World {
    if mid >= |w.manifests| then w
    else if w.manifests[mid].status == Sent then
      w.(manifests := w.manifests[mid := w.manifests[mid].(attempts := attempts + 1)])
    else if met.fanOut.None? || (w.manifests[mid].warehouse.Some? && !met.warehouseKnown) then
      FailDelivery(w, mid, attempts)
    else
      var documents := Documents(w, mid, met.fanOut.value);
      var k := EmittedCount(met.outcomes, |documents|);
      var out := w.(documents := w.documents + documents[..k]);
      if k == |documents| then SendSucceeds(out, mid, attempts)
      else if k < |met.outcomes| && met.outcomes[k].Fault? then out
      else FailDelivery(out, mid, attempts)
  }

  // ---------------------------------------------------------------------------------------------
  // Runs.
  // ---------------------------------------------------------------------------------------------

  datatype Action =
    | DoCreate(order: string, warehouse: Option<string>, fate: Fate)
    | DoMarkReady(picks: seq<Option<nat>>)
    | DoConfirm(orders: seq<string>, manifesting: set<string>)
    | DoSweep(carrier: string, fromWarehouse: string, manifesting: set<string>)
    | DoDeliver(mid: nat, attempts: nat, met: Meeting)

  function Step(w: World, a: Action): World {
    match a
    case DoCreate(order, warehouse, fate) => Create(w, order, warehouse, fate)
    case DoMarkReady(picks) => MarkReady(w, picks)
    case DoConfirm(orders, manifesting) => Confirm(w, orders, manifesting)
    case DoSweep(carrier, warehouse, manifesting) => Sweep(w, carrier, warehouse, manifesting)
    case DoDeliver(mid, attempts, met) => Deliver(w, mid, attempts, met)
  }

  function Run(w: World, actions: seq<Action>): World
    decreases |actions|
  {
    if actions == [] then w else Run(Step(w, actions[0]), actions[1..])
  }
}
