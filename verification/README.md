# NimbleShip: proofs about its dispatch core

NimbleShip books parcels with carriers, hands out the numbers carriers demand, closes manifests over what was
booked, and lets operators describe a carrier as data. This project models that core in Dafny and proves what its
documentation promises of it. `dafny verify dfyconfig.toml` checks everything.

The parts, each a module or two:

* **Number ranges** (`NumberRange`, `Digits`, `Sscc`, `Minting`). A durable counter per carrier and name, claimed by
  a read and a guarded update. The concurrent model splits every call at its database statements and lets any
  number of callers interleave, commit and roll back, without the advisory lock the program adds on Postgres. On
  top: zero padding and the GS1 check digit (GS1 General Specifications, section 7.9), and the minting of one SSCC
  per parcel before a booking's carrier call.
* **The Carrier Definition language** (`Values`, `Targets`, `Definition`, `Render`, `RenderMeaning`, `Containers`,
  `ConfigKeys`, `Execute`). The authoring checker, the renderer that builds nested JSON by in-place insertion, and the
  executor that threads step outputs through later steps. A rendered leaf may itself be a dictionary or a list, so the
  checker's dry run, which stores nulls, is related to a real rendering by a simulation. `Targets` does this on
  values; `Containers` does it again on mutable dictionaries and lists, where aliasing is possible. `RenderMeaning`
  says what every entry renders to, and when and why it fails, from the entries and the facts alone.
* **Consignments and manifests** (`Lifecycle`, `LifecycleProofs`, `LifecycleEffects`, `Bookings`, `Deliveries`,
  `Store`). Every edge call is one transaction on the stored rows. `Store` is the program's own step-by-step code on
  a mutable database, each method proved equal to `Lifecycle`'s function; `LifecycleProofs` proves what every run of
  calls keeps, `LifecycleEffects` what one call does row by row, `Bookings` which orders can be booked twice,
  `Deliveries` what any sequence of redeliveries does to a manifest.
* **Versioned publishing** (`Publish`, `PublishProofs`, `PublishAlone`, `PublishRaises`). Seeding, drafting and
  publishing as interleaved transactions, for carrier definitions (versions are the highest plus one, under a unique
  key) and rulebooks (versions are drawn from a counter), with and without the advisory lock.
* **Allocation, charges, collection days and the builder's edits** (`Bags`, `Costs`, `Allocation`, `Charges`,
  `Collection`, `Keyed`, `BuilderTools`).

Inputs the program takes from elsewhere are parameters and arbitrary: what a carrier answers, what an upload
returns, the published definitions a sweep meets, the text of a transformed value, the order of interleaving.
Decimals are reals. Isolation is read-committed: a statement sees committed rows and its own transaction's.

## Where the code stops short

* `create_consignment` takes care that a booking the carrier holds always leaves a row, so that a retry cannot book
  again (`api/src/nimbleship/domain/consignments.py`, lines 621-637). It misses two ways out, and
  `Bookings.SafeThroughoutExactlyWhenNoneStranded` proves that there are no others among the steps modelled.
  * The order number. After the carrier call the label is drawn (line 639) and saved (line 650). Drawing refuses a
    number outside Latin-1; saving refuses one that is not a plain file name, or whose file name is over 255 bytes.
    Either rolls the row back. `Bookings.BookedOnceExactlyWhenPrintable` proves that, as long as every text fits its
    column, an order is safe from a second booking exactly when its number gets through the label of its carriers'
    kind. The JSON edge's pattern lets only such numbers through (`Bookings.JsonOrdersAreBookedOnce`); the legacy
    edge checks only presence and length, and `Bookings.LegacyOrdersBookedTwice` names numbers that it lets through
    and that are booked twice.
  * The carrier's answer, which no caller can check. A tracking reference over 255 characters, a barcode over 80, or a
    NUL in either, is refused by the database when the rows are written; the handlers (lines 310-314 and 675-682)
    catch only a clash of keys, so again the row is rolled back after the booking.
    `Bookings.NoOrderIsSafeFromEveryAnswer` proves that this can happen to every order that reaches a carrier. If the
    label had been saved by then it stays behind without a row, and
    `Bookings.LabelledExactlyWhenStored` proves that this is the only way a stored label and a labelled row come apart.
* A publish is meant to be refused when it would change nothing. `PublishProofs.PublishSafe` proves this with the
  advisory lock. Without it one publisher per draft still holds, but any two sessions can publish a version after a
  higher one has gone live: `PublishRaises.EveryPublishRaisesExactlyWhenSerialised` proves that every publish raises
  the live version exactly when the lock is taken or there is only one session, on every rail, the rulebook's included.

## Model

| member | source | states |
|---|---|---|
| NumberRange.HaltNeverReissues | api/src/nimbleship/engine/plugins/number_range.py:113-219 | Once a range exists as `halt` with bound w, every interleaving of reads, writes, commits and rollbacks by any number of callers, asking for any policy and bound, commits exactly 1, 2, 3, ... without repeat and never past w, and the counter is one past the last committed |
| NumberRange.HaltRangeFromTheStart | api/src/nimbleship/engine/plugins/number_range.py:86-219 | From an empty table on, a range only ever asked for as `halt` with one bound commits exactly 1, 2, 3, ... up to that bound, under every interleaving |
| NumberRange.StepKeepsInv | api/src/nimbleship/engine/plugins/number_range.py:113-219 | Any one statement of any caller keeps the concurrent invariant, never un-issues a number, and never changes a halt range's policy or bound |
| NumberRange.WrapSpacing | api/src/nimbleship/engine/plugins/number_range.py:166-203 | On a wrap range whose bounds are at least 1, grow or stay, two issues of one number are at least as many calls apart as the bound at the first issue, legacy rows included |
| NumberRange.WrapCycle | api/src/nimbleship/engine/plugins/number_range.py:195-203 | With a fixed bound w, w = 1 included, the k-th call (from 0) returns k mod w plus 1 |
| NumberRange.AllocateAnswers | api/src/nimbleship/engine/plugins/number_range.py:113-219 | A call goes through exactly when its policy is the one recorded, or none is, and a halt range has its very bound recorded and a number left, a wrap range a bound no higher than asked, or none; each other case has its own refusal; the number is the counter's while within the bound, else 1, and the counter left is one more, or 1 after a wrap range's bound |
| NumberRange.CallAlone | api/src/nimbleship/engine/plugins/number_range.py:113-219 | A call whose read, write and commit nobody comes between claims exactly when the range is open to it, with that number and that row, and otherwise changes nothing |
| NumberRange.OvertakenClaimsNothing | api/src/nimbleship/engine/plugins/number_range.py:204-217 | A caller whose row changed between its read and its write claims nothing |
| NumberRange.SequenceTable.AllocateNumber | api/src/nimbleship/engine/plugins/number_range.py:86-219 | The call on the stored rows: open exactly as said, the number and the row left as said, a refusal for its own reason; every other range, and on refusal this one, is untouched |
| Digits.ZeroPadReadsBack | api/src/nimbleship/engine/plugins/number_range.py:301-304 | A number that fits a width pads to exactly that width and reads back as itself |
| Sscc.TotalByPlaces | api/src/nimbleship/engine/plugins/number_range.py:227-235 | The total taken digit by digit from the right is the sum over the places of each digit times its weight, 3 and 1 in turn |
| Sscc.CheckDigitBalances | api/src/nimbleship/engine/plugins/number_range.py:227-235 | The check digit, and no other digit, brings the sum over the body's places, weighing 3, 1, 3, ... from the right, to a multiple of ten |
| Sscc.AssembleSound | api/src/nimbleship/engine/plugins/number_range.py:246-275 | A code is assembled exactly for a digit prefix of at most 16 and serials from 1 to the highest its remaining digits hold; it has 18 digits, the last balancing the sum over the places of the 17 before it, starts with the prefix, and the serial reads back out of it |
| Sscc.CodesDiffer | api/src/nimbleship/engine/plugins/number_range.py:267-275 | Codes of one prefix with different serials differ; so do codes of two prefixes neither of which starts the other |
| Sscc.SingleErrorCaught | api/src/nimbleship/engine/plugins/number_range.py:227-235 | Changing any one digit of a balanced code unbalances it |
| Sscc.SwapCaughtUnless | api/src/nimbleship/engine/plugins/number_range.py:227-235 | Swapping two adjacent digits keeps the balance exactly when they are equal or differ by five |
| Minting.MintTakesNext | api/src/nimbleship/domain/consignments.py:213-264 | Minting n parcels' serials succeeds exactly when the range still holds n, and then takes the next n in order |
| Minting.MintedSerialsFit | api/src/nimbleship/domain/consignments.py:240-264 | Every serial a successful minting returned lies within the range's bound, so none is refused at assembly |
| Minting.CodesNeverRepeat | api/src/nimbleship/domain/consignments.py:213-264 | Over any run of one carrier's bookings, failed and range-exhausting ones included, whose prefixes do not start one another, no two parcels are minted the same code |
| Minting.InterleavedCodesNeverRepeat | api/src/nimbleship/domain/consignments.py:240-264 | The same however the bookings interleave: every serial committed on a prefix's halt range assembles, and no two of one prefix, or of two that do not start one another, give the same code |
| Minting.MintParcelAllocations | api/src/nimbleship/domain/consignments.py:213-264 | All parcels are coded from consecutive claims or none is committed; any refusal leaves every counter as it was; a claimed serial always assembles |
| Minting.ApplyResponseBarcodes | api/src/nimbleship/domain/consignments.py:401-409 | A carrier's barcodes pair with parcels by position and never replace a code already minted |
| Values.SplitAfterRoot | api/src/nimbleship/engine/render.py:69-86 | Splitting `root.path` gives the root followed by the split of the path |
| Values.SplitJoins | api/src/nimbleship/engine/render.py:69-86 | A path is recovered from its segments |
| Values.WalkOneFurther | api/src/nimbleship/engine/render.py:69-86 | What a path finds is what its last part finds where the rest of it leads: a key of an object, a position of a list, nothing elsewhere |
| Values.WalkLoop | api/src/nimbleship/engine/render.py:69-86 | The loop that reassigns the node finds exactly what the recursive walk of the path finds |
| Targets.InsertAcceptsFree | api/src/nimbleship/domain/carrier_definition.py:100-147 | An insertion is accepted exactly when the target's place is free in the tree |
| Targets.InsertReadsBack | api/src/nimbleship/domain/carrier_definition.py:100-147 | An accepted insertion reads back as the value inserted, and every unrelated place reads as before |
| Targets.InsertSimulates | api/src/nimbleship/domain/carrier_definition.py:111-147 | What the null-leaved probe accepts, any body it simulates accepts, whatever the value inserted, and simulation is kept |
| Targets.DryRunAcceptsCompatible | api/src/nimbleship/domain/carrier_definition.py:422-432 | The dry run accepts a list of targets exactly when they are compatible, a condition on the targets alone |
| Targets.AcceptedTargetsHoldTheirValues | api/src/nimbleship/domain/carrier_definition.py:422-432 | If the dry run accepts, placing any values at all succeeds, every target reads back as its value, and nothing else is in the body |
| Containers.InsertAt | api/src/nimbleship/domain/carrier_definition.py:100-147 | On mutable containers: accepts exactly what the probe accepts, writes only containers the body owns, stores the value's own reference and moves no other |
| Containers.BuildBody | api/src/nimbleship/engine/render.py:115-125 | Building a body writes to no container that existed before, so no input fact changes through an alias; every target holds the very reference its entry rendered |
| Definition.TargetsValidExactlyWhen | api/src/nimbleship/domain/carrier_definition.py:422-432 | A mapping's dry runs are accepted at every level exactly when its targets, and those inside every `each` at any depth, are compatible |
| Definition.ValidateMappingTargets | api/src/nimbleship/domain/carrier_definition.py:422-432 | The probe filled target by target, recursively inside `each`, accepts exactly the mappings whose dry run is accepted at every level |
| Definition.ResolveExactlyWhen | api/src/nimbleship/domain/carrier_definition.py:537-567 | Growing what is known step by step accepts an operation exactly when every source of every step, at any depth of its entries, is well formed and rooted in the facts, in the item it is read for, or in an output of the last earlier step of that name |
| Definition.SourcesResolve | api/src/nimbleship/domain/carrier_definition.py:689-713 | Within one operation, the loop that grows the earlier outputs accepts exactly those step lists |
| Definition.ValidateSources | api/src/nimbleship/domain/carrier_definition.py:665-713 | Over the whole definition: accepted exactly when every operation's steps may read what they read of that operation's own facts, and the auth secret is a fact of them all |
| RenderMeaning.MappingMeans | api/src/nimbleship/engine/render.py:115-125 | A checked mapping renders exactly when all its entries do; then every target, read as a path, holds what its entry says, below containers of the kinds it names, and nothing stands elsewhere; otherwise it fails as its first failing entry |
| RenderMeaning.EntryMeans | api/src/nimbleship/engine/render.py:128-175 | An entry says its constant, its plugin's value, the fact at its path, that fact transformed, the item's value at `pluck` for each item, or, for `each`, one body per item that holds what the inner entries say of it; a bool or number goes out as text; it fails exactly when one of these is missing or unfit, for the first such reason |
| RenderMeaning.RowMeans | api/src/nimbleship/engine/render.py:203-219 | A CSV row holds, in order, what its entries say, and fails at the first that does not render or is no scalar |
| RenderMeaning.FilenameMeans | api/src/nimbleship/engine/render.py:178-188 | A filename is its pieces' texts on end, and fails exactly for a fact that is missing |
| RenderMeaning.StepMeans | api/src/nimbleship/engine/render.py:291-349 | A checked step renders to what its own url, filename, key and mapping say, with the key only on an http step, or fails for one of them |
| Render.StepErrors | api/src/nimbleship/engine/render.py:312-349 | A step with checked targets fails to render only for a source it really reads and that the facts lack, never for a target conflict |
| Render.StepOutputResolves | api/src/nimbleship/domain/carrier_definition.py:537-567 | Of a checked `steps.` source of any length the first three parts resolve whenever the earlier outputs hold what the checker credits them with, and so a source of exactly three parts does |
| Render.CheckedStepErrors | api/src/nimbleship/domain/carrier_definition.py:665-713 | A checked step, its secret, url, filename, mapping, `each` and `pluck` sources together, never fails on a target, and never for want of an earlier step's output: a `steps.` source found missing has more than three parts and its first three resolve |
| ConfigKeys.CollectConfigKeys | api/src/nimbleship/domain/carrier_definition.py:741-747 | The collector adds to its set exactly the config keys an entry reads, at any `each` depth |
| ConfigKeys.CollectorFindsMentions | api/src/nimbleship/domain/carrier_definition.py:715-747 | A key is collected exactly when the definition mentions it somewhere or its auth plugin needs it |
| ConfigKeys.WalkersAgree | api/src/nimbleship/domain/definitions.py:216-229 | The config walker and the renderer's fact walker find the same value for every key |
| ConfigKeys.NothingMissingMeans | api/src/nimbleship/domain/definitions.py:232-243 | No key is missing exactly when every mentioned config source resolves to a non-null value in the renderer and every plugin key is provided |
| ConfigKeys.CompleteConfigResolves | api/src/nimbleship/domain/definitions.py:232-243 | With nothing missing, every config source a step reads resolves |
| Execute.RunTrace | api/src/nimbleship/engine/execute.py:215-373 | A successful run has one successful record per step in order, each of a step the carrier accepted; a run that stops at step k has the k successes before it and one failure exactly when step k was sent; a record says success exactly when the answer was acceptable; records, recorder and sends always agree |
| Execute.StepOutputReads | api/src/nimbleship/engine/execute.py:237-249 | The source `steps.<name>.<output>` reads exactly the value that step's answer gave for that output, and nothing if it gave none |
| Execute.CheckedOperationSound | api/src/nimbleship/engine/execute.py:237-373 | For a strictly valid definition and every carrier answer: no failure is a target conflict or, with a complete config, a missing config value; a missing `steps.` source has more than three parts, and its first three resolve in the run's own step outputs; a success has every declared extraction, a base64 label's included |
| Execute.Execution.Run | api/src/nimbleship/engine/execute.py:360-373 | The executor's loop over its mutable state ends in exactly the state and failure the proofs are about |
| Execute.Execution.RunStep | api/src/nimbleship/engine/execute.py:237-259 | One step: rendered from the facts and earlier outputs, then uploaded or sent |
| Execute.HttpMeans | api/src/nimbleship/engine/execute.py:285-358 | A request that is not sent changes nothing and stops the run; one that is sent is recorded once and succeeds exactly when a reply came, its status is below 400 and, if a response is declared, the body parsed, the condition's path holds the wanted text and every extraction yields; otherwise it fails for the first of these; each declared name then holds what its last extraction yields |
| Execute.Execution.RunHttp | api/src/nimbleship/engine/execute.py:285-358 | One http step on the mutable run does just that |
| Execute.Execution.RunUpload | api/src/nimbleship/engine/execute.py:261-283 | One upload step: recorded as sent unless no uploader serves its transport, as a success exactly when it was not refused; no outputs |
| Execute.Execution.ExtractOutputs | api/src/nimbleship/engine/execute.py:179-192 | The extraction loop fails exactly when some extraction yields nothing, and otherwise maps each declared name to what its last extraction yields |
| LifecycleProofs.LifecycleSafe | api/src/nimbleship/domain/manifests.py:64-133 | In every run of bookings, mark-ready calls, confirmations, sweeps and deliveries: a consignment is on at most one manifest; it is on_manifest exactly when on one not sent; members share the manifest's carrier and warehouse and are dispatched once it is sent; every manifest has its send job; no status moves backwards and no row is lost |
| Bookings.LabelledExactlyWhenStored | api/src/nimbleship/domain/consignments.py:602-682 | In every run a label is stored for a row's order exactly when the row is labelled or an earlier request for the order saved its label and then had its row refused by the database |
| LifecycleProofs.ManifestedAtMostOnce | api/src/nimbleship/domain/manifests.py:243-264 | Over any deliveries, redeliveries and failures a member gets its manifested event at most once, exactly when its manifest is sent, and then it is dispatched and was declared in a document the carrier accepted |
| Deliveries.DeliverMeans | api/src/nimbleship/queue.py:63-112 | One delivery of an unsent manifest gets out, in order, exactly the documents before the first that is not accepted; it is sent, and its consignments leave with an event each, exactly when the operation is published, a named warehouse is known and every document needed is accepted; otherwise that first document decides between a rollback and a recorded failure, final with no retry left |
| Deliveries.IdsOnByRow | api/src/nimbleship/domain/manifests.py:136-150 | The consignments a manifest declares are those of the membership rows that name it, in the rows' order |
| Deliveries.StatusTellsTheRun | api/src/nimbleship/queue.py:63-112 | After any run a manifest is sent exactly when in some delivery every document it needs was accepted; otherwise it is failed exactly when some delivery with no retries left failed for a recorded reason; otherwise it is pending |
| Deliveries.DeliveryEffects | api/src/nimbleship/domain/manifests.py:153-264 | Between any two moments of any run a manifest keeps its carrier, warehouse, code and members; once it is sent no later delivery changes anything of it but its attempts, sends a document again, adds a manifested event or touches its members, which are dispatched |
| Bookings.AllFitExactlyWhen | api/src/nimbleship/domain/consignments.py:385-409 | What a request writes is taken exactly when the texts it brought fit their columns and, if a booking answered, the reference fits 255 characters and each barcode that goes to a parcel not coded before fits 80, none with a null character |
| Bookings.RequestOutcome | api/src/nimbleship/domain/consignments.py:484-682 | A first request adds a booking, and a label, exactly when it gets that far; a booking is left without a row exactly when there is a label to save that the order number cannot carry or a column refuses a text, a saved label exactly when a column does; at most one row is added, labelled exactly when the label was saved |
| LifecycleEffects.RowLeftExactlyWhen | api/src/nimbleship/domain/consignments.py:484-682 | A first request leaves a row exactly when all its texts fit and no service took the order, the carrier failed the booking, the label could not be decoded, or the label was saved |
| LifecycleEffects.TimelineTells | api/src/nimbleship/domain/consignments.py:484-682 | The events a request adds are exactly the stages its row's status stands for, in order, with booked in its place when the carrier booked |
| Bookings.SafeThroughoutExactlyWhenNoneStranded | api/src/nimbleship/domain/consignments.py:602-682 | Over any run an order is booked at most once and never without a row, at every moment, exactly when no request of the run leaves its booking without a row |
| Bookings.BookedOnceExactlyWhenPrintable | api/src/nimbleship/domain/consignments.py:638-650 | In all runs whose texts fit their columns and whose carriers use one kind of label, an order is booked at most once and never without a row if and only if its number, where it is let in at all, gets through that label's drawing and saving |
| Bookings.BookedOnceExactlyWhenDrawnAndStored | api/src/nimbleship/labels/store.py:19-24 | The same over carriers of every label kind: if and only if the number can be drawn and its file can be named |
| Bookings.NoOrderIsSafeFromEveryAnswer | api/src/nimbleship/domain/consignments.py:385-409 | Over all runs with no bound on what carriers answer, an order is booked at most once and never without a row if and only if its number is refused before any carrier is asked; every other order is booked twice by a reference too long for its column |
| Bookings.JsonOrdersAreBookedOnce | api/src/nimbleship/routers/consignments.py:46-52 | An order number the JSON edge's pattern admits is booked at most once and never without a row, in every run in which the texts stored for it fit their columns |
| Bookings.LegacyOrdersBookedTwice | api/src/nimbleship/legacy/consignment_service.py:252-259 | Numbers the legacy edge lets through, a path, a dot, 64 four-byte characters and, where labels are drawn here, a number outside Latin-1, are each booked twice by two requests, though every text fits |
| LifecycleEffects.OneManifestPerGroup | api/src/nimbleship/domain/manifests.py:76-109 | Consignments handed on together share a manifest exactly when they share carrier and warehouse; every one whose carrier manifests is listed, nobody else is, and no manifest is opened empty |
| LifecycleEffects.ManifestsFromTheSelection | api/src/nimbleship/domain/manifests.py:64-133 | Manifests are opened pending in the order their groups are met, each listing its consignments in the order given; every consignment moves, with one event naming its manifest or its departure; nothing else changes |
| LifecycleEffects.ReadyMovesExactly | api/src/nimbleship/legacy/consignment_service.py:50-86 | A mark-ready call changes nothing unless it names something and every code is of an allocated, ready or dispatched consignment; then exactly the named allocated ones become ready |
| LifecycleEffects.ConfirmMovesExactly | api/src/nimbleship/routers/manifests.py:83-132 | A confirmation is accepted exactly when it names some orders, none twice, each of an allocated or dispatched consignment; refused, it changes nothing; accepted, it moves exactly the named ones still allocated, by whether their carrier manifests, and queues one job per manifest it opens |
| LifecycleEffects.SweepMovesExactly | api/src/nimbleship/legacy/manifest_service.py:26-38 | A sweep moves exactly the ready consignments of its carrier and warehouse and opens exactly one manifest, bearing the code it spends, if there are any and the carrier manifests |
| LifecycleEffects.SweepListsExactly | api/src/nimbleship/legacy/manifest_service.py:26-38 | That manifest lists exactly those consignments, oldest first, and its job is queued; without one nothing is listed or queued |
| LifecycleEffects.RequestLeaves | api/src/nimbleship/domain/consignments.py:484-682 | What a create request leaves tells how far it got: the status names the furthest step, the timeline says booked exactly when the carrier's booking completed; with no row there is no event, and a booking or label remains exactly when it was stranded |
| LifecycleProofs.RunKeepsInv | api/src/nimbleship/domain/manifests.py:64-133 | The whole lifecycle invariant, and forward movement, hold along any run |
| Store.Database.CreateConsignment | api/src/nimbleship/domain/consignments.py:484-682 | The request's steps in order leave exactly the world the model says, a label that cannot be drawn or saved and a final write the database refuses included: which refusals leave a row, which leave a booking or a label without one |
| Store.Database.MarkReadyToManifest | api/src/nimbleship/legacy/consignment_service.py:50-86 | Accepts exactly when every code resolves to an allocated, ready or dispatched consignment, and otherwise changes nothing |
| Store.Database.GroupConsignments | api/src/nimbleship/domain/manifests.py:76-81 | The consignments of each carrier and warehouse, in the order given, the groups in the order met |
| Store.Database.MakeManifests | api/src/nimbleship/domain/manifests.py:64-133 | One pending manifest with its members per group that manifests; every consignment moves onto its group's manifest or straight to dispatched |
| Store.Database.ConfirmDispatch | api/src/nimbleship/routers/manifests.py:74-138 | Accepts exactly when the orders are non-repeating, known and allocated or dispatched, then manifests the allocated ones and queues one job each; otherwise nothing happens |
| Store.Database.CreateManifestSweep | api/src/nimbleship/legacy/manifest_service.py:26-38 | Manifests exactly the ready consignments of the carrier and warehouse, stamps one fresh code on all, queues one job each; a code is spent even on an empty sweep |
| Store.Database.SendManifest | api/src/nimbleship/domain/manifests.py:153-264 | Documents go out in order up to the first that is not accepted; exactly when none is left the manifest is sent and its consignments dispatched, each with its event; a sent manifest is left alone |
| Store.Database.RunManifestSend | api/src/nimbleship/queue.py:63-112 | The job on the stored rows does exactly what one delivery should: a recorded failure keeps the attempt count and error, and fails the manifest only with no retries left; a fault rolls the delivery back |
| PublishProofs.PublishSafe | api/src/nimbleship/domain/definitions.py:128-182 | In every interleaving of seeders, drafters and publishers: a draft has at most one successful publisher; definition versions are exactly 1..n with or without the lock; with the lock every publish strictly raises the live version, to itself, and publishes come in version order |
| PublishProofs.StepKeepsInv | api/src/nimbleship/domain/rulebook.py:53-97 | Any one statement keeps the unique key, one claimant per draft, and the seed promise that a table with rows has a published one, which the active rulebook's query relies on |
| PublishProofs.LiveOnlyRises | api/src/nimbleship/domain/rulebook.py:177-213 | Between any two moments of any run, lock or no lock, no version is lost or unpublished and the live version does not fall |
| PublishProofs.StepKeepsGapInv | api/src/nimbleship/domain/definitions.py:128-147 | One session at a time holds uncommitted versions and they follow on from the committed ones, because a second inserter of the same version waits |
| PublishProofs.StepKeepsLockInv | api/src/nimbleship/domain/definitions.py:150-182 | Under the lock a publisher past its checks still outranks every published version when it commits |
| PublishAlone.PublishAlone | api/src/nimbleship/domain/definitions.py:150-182 | A publish with nothing in its way goes through exactly when its version is a draft above the live one, and otherwise changes nothing |
| PublishAlone.DraftAlone | api/src/nimbleship/domain/definitions.py:128-147 | A draft with nothing in its way takes the version after the highest |
| PublishRaises.UnlockedPublishMayNotRaise | api/src/nimbleship/domain/rulebook.py:165-213 | On any rail without the lock, seeded or not, two sessions have a run in which a publish succeeds and the live version is above it before and after |
| PublishRaises.EveryPublishRaisesExactlyWhenSerialised | api/src/nimbleship/domain/rulebook.py:165-213 | On every rail, every publish of every run raises the live version if and only if writers take the lock or there is at most one session |
| PublishAlone.VersionTable.PublishDraft | api/src/nimbleship/domain/definitions.py:150-182 | The call on stored rows: accepted exactly for a draft above the live version, which it then is |
| PublishAlone.VersionTable.CreateDraft | api/src/nimbleship/domain/definitions.py:128-147 | The call on stored rows: a new version, one above the highest, leaving the live version alone |
| Costs.CostIsBandOrderBlind | api/src/nimbleship/domain/costs.py:87-133 | Listing the bands in another order never changes the cost, nor whether there is one |
| Costs.CostedExactlyWhenCarried | api/src/nimbleship/domain/costs.py:97-113 | There is a cost exactly when some weight or parcel band matches |
| Costs.CostIsAsked | api/src/nimbleship/domain/costs.py:77-133 | The cost is the least any covering weight band asks plus the least any covering parcel band asks, each its charge and its additional charge per unit above its minimum, plus the sum of the fuel percentages of that, plus every surcharge whose length is exceeded; there is none exactly when no weight or parcel band covers the shipment |
| Costs.CheapestBandCharged | api/src/nimbleship/domain/costs.py:97-115 | Of each carriage kind the amount charged is some matching band's and no matching band's is less |
| Costs.UnmatchedBandIsFree | api/src/nimbleship/domain/costs.py:97-133 | A band that does not match the shipment changes nothing |
| Costs.SurchargeAddsItsCharge | api/src/nimbleship/domain/costs.py:122-132 | Adding a matching dimension surcharge to a list of bands that costs a shipment raises the cost by exactly the surcharge's charge, untouched by fuel |
| Costs.FuelAddsOnCarriage | api/src/nimbleship/domain/costs.py:117-120 | Adding a matching fuel band raises the cost by exactly its percentage of the carriage alone |
| Allocation.PassesExactlyWhen | api/src/nimbleship/domain/allocation.py:34-40 | The eight checks together say exactly the declared rules, unknown facts passing |
| Allocation.UnknownIsOptimistic | api/src/nimbleship/domain/checks/dimension.py:1-31 | A service eligible for a shipment stays eligible when optional facts are forgotten |
| Allocation.SelectionCostIs | api/src/nimbleship/domain/allocation.py:43-49 | A service with cost bands costs what its bands ask for the shipment's own weight, parcels and length; one without costs its flat cost |
| Allocation.AnswerFromTheServices | api/src/nimbleship/domain/allocation.py:60-100 | From the services' own fields: the winner's rules hold, and it costs less than every other service whose rules hold and that can be costed, or as much and comes first in the tie-break order; none is selected exactly when none can be, told apart by whether any service's rules hold |
| Allocation.EligibleIsTheConjunction | api/src/nimbleship/domain/allocation.py:52-78 | A final verdict is eligible exactly when all its checks are ok, the appended no-cost-data one included, and exactly when the service could be chosen |
| Allocation.AllocationIsOrderBlind | api/src/nimbleship/domain/allocation.py:60-100 | Whatever two orderings of the same services answer, they answer the same winner, cost and reason |
| Allocation.AllocationIsBandOrderBlind | api/src/nimbleship/domain/allocation.py:60-100 | Relisting any service's cost bands changes no verdict, nor the winner, cost or reason |
| Allocation.DuplicateServiceField | api/src/nimbleship/domain/model.py:49-66 | Finds nothing exactly when codes and tie-breaks are all distinct; otherwise reports the first service that repeats something, and what it repeats |
| Allocation.Allocate | api/src/nimbleship/domain/allocation.py:60-100 | Every result ends as its service's verdict; the winner is the one candidate ahead of every other by cost and tie-break; the reason tells none eligible from none costed |
| Allocation.Minimum | api/src/nimbleship/domain/allocation.py:93-93 | The scan returns a costed service that no other precedes |
| Charges.BandChargeIsAsked | api/src/nimbleship/domain/charges.py:53-63 | A band charges its charge, and its additional charge for each of the fewest increments, a kilogram unless it names another, that bring its minimum up to the weight |
| Charges.IncrementsAreLeast | api/src/nimbleship/domain/charges.py:53-63 | The increments billed are the fewest whole ones that cover the weight above the band's minimum |
| Charges.BandChargeIsMonotone | api/src/nimbleship/domain/charges.py:53-63 | Within a band more weight never costs less |
| Charges.ChargeIsBestAsked | api/src/nimbleship/domain/charges.py:66-91 | No charge exactly when no band takes the shipment's warehouse, destination and weight; else what some band that does asks, when every other that does is wider in scope or asks no less |
| Charges.NarrowestScopeSetsThePrice | api/src/nimbleship/domain/charges.py:66-91 | No charge exactly when no band applies; else the cheapest applying band of the narrowest scope that has one |
| Charges.ChargeIsBandOrderBlind | api/src/nimbleship/domain/charges.py:66-91 | The charge does not depend on the order of the bands |
| Charges.CalculateCharge | api/src/nimbleship/domain/charges.py:74-91 | The loop over the three scopes returns that charge |
| Collection.NextCollectionDay | api/src/nimbleship/domain/collection.py:46-64 | The least day on or after the start whose weekday's flag is set, day 1 being a Monday, and that is no holiday; an error exactly when no flag is set or none of the 366 days is such a day; no error with fewer distinct holidays than the closing number, 52 per enabled weekday and one more for each of the first two scanned days whose weekday is enabled |
| Collection.FewHolidaysLeaveADay | api/src/nimbleship/domain/collection.py:59-64 | Fewer distinct holidays than the closing number leave some scanned day collecting |
| Collection.ThatManyHolidaysCanClose | api/src/nimbleship/domain/collection.py:59-64 | The closing number is exact: for every start and every set of weekdays, that many holidays can close the whole scan |
| Collection.WholeWeeks | api/src/nimbleship/domain/collection.py:59-63 | n weeks from any date hold each enabled weekday exactly n times |
| Keyed.SoleIndex | api/src/nimbleship/carrier_builder/tools.py:234-251 | Absent when no item has the key, the one index when one has, ambiguous exactly when two do |
| Keyed.PutChangesOne | api/src/nimbleship/carrier_builder/tools.py:266-273 | After a put the key addresses exactly the new item, and every other item is there, in order and in place |
| Keyed.RemoveTakesOne | api/src/nimbleship/carrier_builder/tools.py:294-300 | A remove takes the addressed item and keeps every other in order |
| BuilderTools.StepPutExactlyWhen | api/src/nimbleship/carrier_builder/tools.py:254-278 | put_step puts the step in place of the one of its name, or last if there is none, exactly when what results is valid; two of its name, or nothing usable given, is refused |
| BuilderTools.StepRemovedExactlyWhen | api/src/nimbleship/carrier_builder/tools.py:281-305 | remove_step takes the one step of the name exactly when what is left is valid; none or two of the name is refused |
| BuilderTools.EntryPutExactlyWhen | api/src/nimbleship/carrier_builder/tools.py:321-354 | put_mapping_entry puts the entry into the one step of the name, in place of the one of its target or last, exactly when what results is valid; an unclear step or target is refused |
| BuilderTools.EntryRemovedExactlyWhen | api/src/nimbleship/carrier_builder/tools.py:357-385 | remove_mapping_entry takes the one entry of the target out of the one step of the name, exactly when what is left is valid |
| BuilderTools.StepPutChangesOne | api/src/nimbleship/carrier_builder/tools.py:254-278 | An accepted put_step leaves a valid operation in which one step of that name stands where the old one stood, or last, and nothing else differs |
| BuilderTools.StepRemovedTakesOne | api/src/nimbleship/carrier_builder/tools.py:281-305 | An accepted remove_step leaves a valid operation with exactly the other steps, in order |
| BuilderTools.EntryPutChangesOne | api/src/nimbleship/carrier_builder/tools.py:321-354 | An accepted put_mapping_entry changes one entry of one step's mapping and nothing else |
| BuilderTools.EntryRemovedTakesOne | api/src/nimbleship/carrier_builder/tools.py:357-385 | An accepted remove_mapping_entry takes one entry of one step's mapping and nothing else |
| BuilderTools.WorkingDefinition.PutOperation | api/src/nimbleship/carrier_builder/tools.py:122-152 | Accepts exactly a valid operation, and then clears exactly the marks of capabilities now drafted |
| BuilderTools.WorkingDefinition.PutStep | api/src/nimbleship/carrier_builder/tools.py:254-278 | Accepted exactly when the edit is unambiguous and leaves a valid operation; a refusal changes nothing |
| BuilderTools.WorkingDefinition.RemoveStep | api/src/nimbleship/carrier_builder/tools.py:281-305 | The same for a removal |
| BuilderTools.WorkingDefinition.PutMappingEntry | api/src/nimbleship/carrier_builder/tools.py:321-354 | The same for one mapping entry |
| BuilderTools.WorkingDefinition.RemoveMappingEntry | api/src/nimbleship/carrier_builder/tools.py:357-385 | The same for removing one |
| BuilderTools.WorkingDefinition.RemoveOperation | api/src/nimbleship/carrier_builder/tools.py:388-398 | Removes exactly the named operation, if present |
| BuilderTools.WorkingDefinition.MarkNotApplicable | api/src/nimbleship/carrier_builder/tools.py:165-191 | Marks exactly a prunable, undrafted capability with a reason |
| BuilderTools.WorkingDefinition.MarkApplicable | api/src/nimbleship/carrier_builder/tools.py:194-205 | Clears exactly the named mark, if made |
| BuilderTools.WorkingDefinition.Dispatch | api/src/nimbleship/carrier_builder/tools.py:614-645 | Any one call keeps the marks well formed and makes no capability both drafted and not applicable; a refused call changes nothing |
| BuilderTools.WorkingDefinition.DispatchAll | api/src/nimbleship/carrier_builder/tools.py:614-645 | Over any sequence of calls no capability becomes both drafted and not applicable, and every operation is the seed's own or one the gate accepted |

## Left out

* Transforms, field plugins, `str()` of a value and XML well-formedness of text are an arbitrary library the
  renderer is given; their own behaviour is not modelled.
* Non-ASCII digits, XML target names, the root element, the definition's own identity rules, request
  methods, headers and query strings, and the label, CSV and XML text itself.
* The offline replay's placeholder for an unresolved step output; only execution is modelled.
* A filename template is given as its literal and placeholder pieces; the pattern that cuts it up is not modelled.
* Whether a plugin name is registered; an auth plugin's outcome is part of the carrier's answer.
* The reorder-threshold warning, error texts, traffic rows, timestamps and the extracted outputs on events.
* Decimal's 28-digit precision: costs and charges are exact.
* Label pruning, shadow replay's contained side effects, the loss of a race on the order's unique key, and order
  validation other than the number's presence and length: what else a request says is a list of texts with the widths
  of their columns.
* Interleaving inside one lifecycle call: each edge call is one atomic transaction.
* Column widths are enforced as Postgres does; SQLite enforces none. Characters are Unicode scalar values, with no
  lone surrogates. Databases, disks and renderers fail only on the texts described above, never of themselves: label
  drawing refuses what the repository says of Code 128, and a file name has at most 255 bytes. A booking whose steps
  stopped part way counts as not booked.
* `set_identity`, `set_auth`, `check` and the blocker tools, which touch no operation; and the difference between an
  absent and an empty step list.
* Dates past the calendar's last year.
* The rules builder, catalogues, tracking, postcode lookup, sign-in and the pages: easy members or not this core.
- NumberRange.HaltNeverReissues: starts from the moment the range is first committed as `halt`; a legacy row without policy or bound is covered by the refusals in the decision itself.
- NumberRange.WrapSpacing: serial use only, since a wrapped counter can return to a stale reader's value.
- Minting.CodesNeverRepeat: one carrier, and prefixes that do not start one another; across carriers the code makes no such promise.
- Containers.BuildBody: a refused build is covered for scalar values, which is how the checker's own dry run uses it; a body is built from other values only after the check.
- Store.Database.RunManifestSend: asks that every membership row names a stored consignment, the table's foreign key; `Store.RunsKnowMembers` shows that every run keeps it.
