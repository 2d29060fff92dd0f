/** Minting one SSCC per parcel before a booking's carrier call, and the barcodes the carrier answers with
    (domain/consignments.py). */
module Minting {
  import opened Digits
  import opened NumberRange
  import opened Prelude
  import Sscc
  import opened Values

  datatype MintError = PrefixNotConfigured | PrefixInvalid(fault: Sscc.Error) | Refused(why: Refusal)

  function SequenceName(prefix: string): string {
    "sscc:" + prefix
  }

  /** `n` claims in a row from one halt range, all of them or none. */
  function Mint(row: Option<Row>, bound: int, n: nat): Result<(Option<Row>, seq<int>), Refusal>
    decreases n
  {
    if n == 0 then Ok((row, []))
    else
      var (first, moved) :- Allocate(row, Request(bound, Halt));
      var (after, rest) :- Mint(Some(moved), bound, n - 1);
      Ok((after, [first] + rest))
  }

  function NextOf(row: Option<Row>): int {
    if row.Some? then row.value.next else 1
  }

  /** An SSCC counter as this program creates and keeps it. */
  predicate SsccRow(row: Option<Row>, bound: int) {
    row.Some? ==> IsHalt(row, bound) && row.value.next >= 1
  }

  /** Minting succeeds exactly when the range still holds enough serials, and then hands out the next
      ones in order. */
  lemma {:induction false} MintTakesNext(row: Option<Row>, bound: int, n: nat)
    requires SsccRow(row, bound)
    ensures Mint(row, bound, n).Ok? <==> n == 0 || NextOf(row) + n - 1 <= bound
    ensures Mint(row, bound, n).Ok? ==>
              var (after, serials) := Mint(row, bound, n).value;
              && serials == Range(NextOf(row), NextOf(row) + n)
              && NextOf(after) == NextOf(row) + n
              && SsccRow(after, bound)
              && (n > 0 ==> after.Some?)
    decreases n
  {
    if n > 0 && Allocate(row, Request(bound, Halt)).Ok? {
      var (first, moved) := Allocate(row, Request(bound, Halt)).value;
      MintTakesNext(Some(moved), bound, n - 1);
      RangeExtends(first, first + 1, first + n);
    }
  }

  lemma {:induction false} MintedSerialsFit(row: Option<Row>, bound: int, n: nat)
    requires row.Some? ==> row.value.next >= 1
    requires Mint(row, bound, n).Ok?
    ensures var serials := Mint(row, bound, n).value.1;
            |serials| == n && forall i :: 0 <= i < n ==> 1 <= serials[i] <= bound
    decreases n
  {
    if n > 0 {
      var (first, moved) := Allocate(row, Request(bound, Halt)).value;
      MintedSerialsFit(Some(moved), bound, n - 1);
    }
  }

  // ---------------------------------------------------------------------------------------------
  // Over any run of bookings.
  // ---------------------------------------------------------------------------------------------

  datatype Booking = Booking(prefix: string, parcels: nat)
  datatype Code = Code(prefix: string, serial: int)

  function CodeText(c: Code): Result<string, Sscc.Error> {
    Sscc.Assemble(c.prefix, c.serial)
  }

  /** The codes one carrier's bookings commit, oldest first. A booking whose prefix is unusable or whose
      range is exhausted commits none; one the carrier refuses later has still spent its codes. */
  function MintRun(rows: map<Key, Row>, carrier: string, bookings: seq<Booking>): (map<Key, Row>, seq<Code>)
    decreases |bookings|
  {
    if bookings == [] then (rows, [])
    else
      var (before, codes) := MintRun(rows, carrier, Init(bookings));
      var b := Last(bookings);
      var key := (carrier, SequenceName(b.prefix));
      match Sscc.WrapAfter(b.prefix)
      case Err(_) => (before, codes)
      case Ok(bound) =>
        match Mint(Lookup(before, key), bound, b.parcels)
        case Err(_) => (before, codes)
        case Ok((after, serials)) =>
          (if after.Some? then before[key := after.value] else before,
           codes + seq(|serials|, i requires 0 <= i < |serials| => Code(b.prefix, serials[i])))
  }

  /** Prefixes that share a carrier: the same, or neither starting the other. */
  predicate Apart(bookings: seq<Booking>) {
    forall i, j :: 0 <= i < |bookings| && 0 <= j < |bookings| ==>
      var (p, q) := (bookings[i].prefix, bookings[j].prefix);
      p == q || (!(p <= q) && !(q <= p))
  }

  ghost predicate Recorded(rows: map<Key, Row>, carrier: string, bookings: seq<Booking>, codes: seq<Code>) {
    && (forall p :: var key := (carrier, SequenceName(p));
          key in rows ==> Sscc.WrapAfter(p).Ok? && SsccRow(Some(rows[key]), Sscc.WrapAfter(p).value))
    && (forall i :: 0 <= i < |codes| ==>
          var key := (carrier, SequenceName(codes[i].prefix));
          && key in rows
          && 1 <= codes[i].serial < rows[key].next
          && CodeText(codes[i]).Ok?
          && exists k :: 0 <= k < |bookings| && bookings[k].prefix == codes[i].prefix)
    && (forall i, j :: 0 <= i < j < |codes| && codes[i].prefix == codes[j].prefix ==>
          codes[i].serial < codes[j].serial)
  }

  lemma SequenceNameInjective(p: string, q: string)
    requires SequenceName(p) == SequenceName(q)
    ensures p == q
  {
    assert SequenceName(p)[5..] == p && SequenceName(q)[5..] == q;
  }

  lemma {:induction false} MintRunRecords(carrier: string, bookings: seq<Booking>)
    ensures var (rows, codes) := MintRun(map[], carrier, bookings);
            Recorded(rows, carrier, bookings, codes)
    decreases |bookings|
  {
    if bookings != [] {
      MintRunRecords(carrier, Init(bookings));
      var (before, old') := MintRun(map[], carrier, Init(bookings));
      var b := Last(bookings);
      var key := (carrier, SequenceName(b.prefix));
      forall p | SequenceName(p) == SequenceName(b.prefix) ensures p == b.prefix {
        SequenceNameInjective(p, b.prefix);
      }
      forall i | 0 <= i < |old'|
        ensures exists k :: 0 <= k < |bookings| && bookings[k].prefix == old'[i].prefix
      {
        var k :| 0 <= k < |Init(bookings)| && Init(bookings)[k].prefix == old'[i].prefix;
        assert bookings[k].prefix == old'[i].prefix;
      }
      if Sscc.WrapAfter(b.prefix).Ok? {
        var bound := Sscc.WrapAfter(b.prefix).value;
        MintTakesNext(Lookup(before, key), bound, b.parcels);
        if Mint(Lookup(before, key), bound, b.parcels).Ok? {
          MintedSerialsFit(Lookup(before, key), bound, b.parcels);
          forall s | 1 <= s <= bound ensures CodeText(Code(b.prefix, s)).Ok? {
            Sscc.AssembleSound(b.prefix, s);
          }
          assert bookings[|bookings| - 1].prefix == b.prefix;
        }
      }
    }
  }

  /** Over any run of one carrier's bookings, exhausted and failing ones included, no two parcels are
      ever minted the same code. */
  lemma CodesNeverRepeat(carrier: string, bookings: seq<Booking>, i: nat, j: nat)
    requires Apart(bookings)
    requires i < j < |MintRun(map[], carrier, bookings).1|
    ensures var codes := MintRun(map[], carrier, bookings).1;
            && CodeText(codes[i]).Ok? && CodeText(codes[j]).Ok?
            && CodeText(codes[i]).value != CodeText(codes[j]).value
  {
    MintRunRecords(carrier, bookings);
    var codes := MintRun(map[], carrier, bookings).1;
    Sscc.CodesDiffer(codes[i].prefix, codes[i].serial, codes[j].prefix, codes[j].serial);
  }

  /** One prefix's range, claimed from by any number of interleaved bookings, each claim a read and a guarded update,
      each transaction committed or rolled back. */
  predicate MintsFrom(prefix: string, actions: seq<Action>) {
    Sscc.WrapAfter(prefix).Ok? && AsksOnly(actions, Request(Sscc.WrapAfter(prefix).value, Halt))
  }

  /** The i-th serial committed from a prefix's range. */
  function Serial(actions: seq<Action>, i: nat): int
    requires i < |Run(FRESH, actions).issued|
  {
    Run(FRESH, actions).issued[i]
  }

  lemma SerialAssembles(prefix: string, actions: seq<Action>, i: nat)
    requires MintsFrom(prefix, actions) && i < |Run(FRESH, actions).issued|
    ensures Serial(actions, i) == i + 1 && Sscc.Assemble(prefix, Serial(actions, i)).Ok?
  {
    var issued := Run(FRESH, actions).issued;
    HaltRangeFromTheStart(actions, Sscc.WrapAfter(prefix).value);
    assert issued[i] == Range(1, |issued| + 1)[i];
    Sscc.AssembleSound(prefix, i + 1);
  }

  /** However a carrier's bookings interleave, with no lock at all, every serial they commit assembles, and no two of
      them, of one prefix or of two that do not start one another, give the same code. */
  lemma InterleavedCodesNeverRepeat(p: string, atP: seq<Action>, q: string, atQ: seq<Action>, i: nat, j: nat)
    requires MintsFrom(p, atP) && MintsFrom(q, atQ)
    requires i < |Run(FRESH, atP).issued| && j < |Run(FRESH, atQ).issued|
    requires if p == q then atP == atQ && i != j else !(p <= q) && !(q <= p)
    ensures var (a, b) := (Sscc.Assemble(p, Serial(atP, i)), Sscc.Assemble(q, Serial(atQ, j)));
            a.Ok? && b.Ok? && a.value != b.value
  {
    SerialAssembles(p, atP, i);
    SerialAssembles(q, atQ, j);
    Sscc.CodesDiffer(p, Serial(atP, i), q, Serial(atQ, j));
  }

  // ---------------------------------------------------------------------------------------------
  // The booking's own steps.
  // ---------------------------------------------------------------------------------------------

  class Parcel {
    var carrierBarcode: Option<string>

    constructor ()
      ensures carrierBarcode == None
    {
      carrierBarcode := None;
    }
  }

  predicate Distinct(parcels: seq<Parcel>) {
    forall i, j :: 0 <= i < j < |parcels| ==> parcels[i] != parcels[j]
  }

  type Claims = Result<(Option<Row>, seq<int>), Refusal>

  /** Claims made after some serials already claimed. */
  function After(serials: seq<int>, rest: Claims): Claims {
    match rest
    case Err(why) => Err(why)
    case Ok((row, more)) => Ok((row, serials + more))
  }

  lemma AfterOne(serials: seq<int>, first: int, rest: Claims)
    ensures After(serials, After([first], rest)) == After(serials + [first], rest)
  {
    if rest.Ok? {
      assert serials + ([first] + rest.value.1) == serials + [first] + rest.value.1;
    }
  }

  lemma NothingClaimed(rest: Claims)
    ensures After([], rest) == rest
  {
    if rest.Ok? {
      assert [] + rest.value.1 == rest.value.1;
    }
  }

  /** One claim more, or the refusal the whole batch meets. */
  lemma MintOne(row: Option<Row>, bound: int, n: nat)
    requires n > 0
    ensures match Allocate(row, Request(bound, Halt))
            case Err(why) => Mint(row, bound, n) == Err(why)
            case Ok((first, moved)) => Mint(row, bound, n) == After([first], Mint(Some(moved), bound, n - 1))
  {
  }

  /** Each parcel's code, from the serials claimed for the parcels. */
  predicate Coded(parcels: seq<Parcel>, n: nat, prefix: string, serials: seq<int>)
    requires n <= |parcels| && n <= |serials|
    reads parcels
  {
    forall i :: 0 <= i < n ==> parcels[i].carrierBarcode == Sscc.Assemble(prefix, serials[i]).ToSome()
  }

  method MintParcel(table: SequenceTable, key: (string, string), prefix: string, bound: nat, parcel: Parcel)
    returns (r: Result<int, Refusal>)
    requires Sscc.WrapAfter(prefix) == Ok(bound) && (key in table.rows ==> table.rows[key].next >= 1)
    modifies table, parcel
    ensures match Allocate(Lookup(old(table.rows), key), Request(bound, Halt))
            case Err(why) => r == Err(why) && table.rows == old(table.rows)
            case Ok((serial, moved)) =>
              && r == Ok(serial)
              && moved.next >= 1 && table.rows == old(table.rows)[key := moved]
              && parcel.carrierBarcode == Sscc.Assemble(prefix, serial).ToSome()
  {
    r := table.AllocateNumber(key.0, key.1, bound, Halt);
    if r.Ok? {
      Sscc.AssembleSound(prefix, r.value);
      parcel.carrierBarcode := Some(Sscc.Assemble(prefix, r.value).value);
    }
  }

  /** One claim per parcel; the first refusal rolls every counter back. */
  method MintEach(table: SequenceTable, key: (string, string), prefix: string, bound: nat, parcels: seq<Parcel>)
    returns (refused: Option<Refusal>)
    requires Distinct(parcels) && parcels != [] && Sscc.WrapAfter(prefix) == Ok(bound)
    requires key in table.rows ==> table.rows[key].next >= 1
    modifies table, parcels
    ensures match Mint(Lookup(old(table.rows), key), bound, |parcels|)
            case Err(why) => refused == Some(why) && table.rows == old(table.rows)
            case Ok((after, serials)) =>
              && refused == None
              && after.Some? && table.rows == old(table.rows)[key := after.value]
              && |serials| == |parcels|
              && Coded(parcels, |parcels|, prefix, serials)
  {
    var committed := table.rows;
    ghost var serials: seq<int> := [];
    NothingClaimed(Mint(Lookup(committed, key), bound, |parcels|));
    for i := 0 to |parcels|
      invariant |serials| == i
      invariant table.rows == committed || (key in table.rows && table.rows == committed[key := table.rows[key]])
      invariant i > 0 ==> key in table.rows
      invariant key in table.rows ==> table.rows[key].next >= 1
      invariant Mint(Lookup(committed, key), bound, |parcels|) ==
                After(serials, Mint(Lookup(table.rows, key), bound, |parcels| - i))
      invariant Coded(parcels, i, prefix, serials)
    {
      MintOne(Lookup(table.rows, key), bound, |parcels| - i);
      var claimed := MintParcel(table, key, prefix, bound, parcels[i]);
      if claimed.Err? {
        table.rows := committed;
        return Some(claimed.error);
      }
      AfterOne(serials, claimed.value, Mint(Lookup(table.rows, key), bound, |parcels| - i - 1));
      serials := serials + [claimed.value];
    }
    refused := None;
  }

  /** Mints a code for every parcel in a transaction of its own. Any refusal rolls every counter back;
      a serial the allocator returned always assembles. */
  method MintParcelAllocations(table: SequenceTable, carrier: string, setting: Option<Value>, parcels: seq<Parcel>)
    returns (r: Result<(), MintError>)
    requires Distinct(parcels) && parcels != []
    requires forall key :: key in table.rows ==> table.rows[key].next >= 1
    modifies table, parcels
    ensures r.Err? ==> table.rows == old(table.rows)
    ensures setting.None? || !setting.value.Str? ==> r == Err(PrefixNotConfigured)
    ensures setting.Some? && setting.value.Str? ==>
              var prefix := setting.value.s;
              var key := (carrier, SequenceName(prefix));
              match Sscc.WrapAfter(prefix)
              case Err(why) => r == Err(PrefixInvalid(why))
              case Ok(bound) =>
                match Mint(Lookup(old(table.rows), key), bound, |parcels|)
                case Err(why) => r == Err(Refused(why))
                case Ok((after, serials)) =>
                  && r == Ok(())
                  && after.Some? && table.rows == old(table.rows)[key := after.value]
                  && |serials| == |parcels|
                  && Coded(parcels, |parcels|, prefix, serials)
  {
    if setting.None? || !setting.value.Str? {
      return Err(PrefixNotConfigured);
    }
    var prefix := setting.value.s;
    var limit := Sscc.WrapAfter(prefix);
    if limit.Err? {
      return Err(PrefixInvalid(limit.error));
    }
    var refused := MintEach(table, (carrier, SequenceName(prefix)), prefix, limit.value, parcels);
    if refused.Some? {
      return Err(Refused(refused.value));
    }
    return Ok(());
  }

  /** Pairs the carrier's barcodes with the parcels in order, filling only a parcel that has none. */
  method ApplyResponseBarcodes(parcels: seq<Parcel>, barcodes: seq<string>)
    requires Distinct(parcels)
    modifies parcels
    ensures forall i :: 0 <= i < |parcels| ==>
              parcels[i].carrierBarcode ==
              if old(parcels[i].carrierBarcode).None? && i < |barcodes| then Some(barcodes[i])
              else old(parcels[i].carrierBarcode)
  {
    var n := if |parcels| <= |barcodes| then |parcels| else |barcodes|;
    for i := 0 to n
      invariant forall j :: i <= j < |parcels| ==> parcels[j].carrierBarcode == old(parcels[j].carrierBarcode)
      invariant forall j :: 0 <= j < i ==>
                  parcels[j].carrierBarcode ==
                  if old(parcels[j].carrierBarcode).None? then Some(barcodes[j])
                  else old(parcels[j].carrierBarcode)
    {
      if parcels[i].carrierBarcode.None? {
        parcels[i].carrierBarcode := Some(barcodes[i]);
      }
    }
  }
}
