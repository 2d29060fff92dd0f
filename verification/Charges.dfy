/** The delivery charge of a shipment under a service's charge bands (domain/charges.py). Decimals are reals. */
module Charges {
  import opened Bags
  import opened Prelude

  datatype Scope = All | Country(code: string) | Area(code: string)

  datatype ChargeBand = ChargeBand(
    scope: Scope,
    warehouse: Option<string>,
    minKg: real,
    maxKg: real,
    charge: real,
    additional: Option<real>,
    perKg: Option<real>)

  /** What authoring lets through. */
  predicate ValidBand(b: ChargeBand) {
    && 0.0 <= b.minKg <= b.maxKg
    && b.charge >= 0.0
    && (b.additional.Some? ==> b.additional.value >= 0.0)
    && (b.perKg.Some? ==> b.perKg.value > 0.0)
  }

  datatype Facts = Facts(weightKg: real, country: string, areas: seq<string>, warehouse: Option<string>)

  /** Rounding towards positive infinity. */
  function Ceiling(x: real): int {
    -(-x).Floor
  }

  function Increment(b: ChargeBand): real {
    if b.perKg.Some? then b.perKg.value else 1.0
  }

  /** How many increments of additional charge a weight is billed for. */
  function Increments(b: ChargeBand, weightKg: real): int
    requires ValidBand(b)
  {
    if weightKg - b.minKg <= 0.0 then 0 else Ceiling((weightKg - b.minKg) / Increment(b))
  }

  function BandCharge(b: ChargeBand, weightKg: real): real
    requires ValidBand(b)
  {
    if b.additional.None? then b.charge
    else b.charge + Increments(b, weightKg) as real * b.additional.value
  }

  lemma CeilingIsLeast(x: real, n: int)
    ensures x <= Ceiling(x) as real < x + 1.0
    ensures x <= n as real ==> Ceiling(x) <= n
  {
  }

  lemma DivideBound(a: real, b: real, n: int)
    requires b > 0.0
    ensures a / b <= n as real <==> a <= n as real * b
  {
    assert a / b * b == a;
    if a / b <= n as real {
      assert a / b * b <= n as real * b;
    }
    if a <= n as real * b {
      assert (a / b - n as real) * b <= 0.0;
    }
  }

  /** The increments are the fewest whole ones that cover the weight above the band's minimum. */
  lemma IncrementsAreLeast(b: ChargeBand, weightKg: real, n: nat)
    requires ValidBand(b)
    ensures 0 <= Increments(b, weightKg)
    ensures weightKg <= b.minKg + Increments(b, weightKg) as real * Increment(b)
    ensures weightKg <= b.minKg + n as real * Increment(b) ==> Increments(b, weightKg) <= n
  {
    var excess := weightKg - b.minKg;
    DivideBound(excess, Increment(b), n);
    DivideBound(excess, Increment(b), Ceiling(excess / Increment(b)));
    DivideBound(excess, Increment(b), 0);
    CeilingIsLeast(excess / Increment(b), n);
    assert n as real * Increment(b) >= 0.0;
  }

  /** What a band asks for a weight: its charge, and its additional charge for each of the fewest increments that bring
      the band's minimum up to the weight. An increment is a kilogram unless the band names another. */
  predicate Started(b: ChargeBand, weightKg: real, n: nat) {
    var step := if b.perKg.Some? then b.perKg.value else 1.0;
    && weightKg <= b.minKg + n as real * step
    && (n > 0 ==> b.minKg + (n - 1) as real * step < weightKg)
  }

  ghost predicate Asks(b: ChargeBand, weightKg: real, price: real) {
    if b.additional.None? then price == b.charge
    else exists n: nat :: Started(b, weightKg, n) && price == b.charge + n as real * b.additional.value
  }

  lemma StartedOnce(b: ChargeBand, weightKg: real, n: nat)
    requires ValidBand(b)
    ensures Started(b, weightKg, n) <==> n == Increments(b, weightKg)
  {
    var few := Increments(b, weightKg);
    IncrementsAreLeast(b, weightKg, n);
    if few > 0 {
      IncrementsAreLeast(b, weightKg, few - 1);
    }
    if n > 0 {
      IncrementsAreLeast(b, weightKg, n - 1);
      if few <= n - 1 {
        assert (n - 1 - few) as real * Increment(b) >= 0.0;
      }
    }
  }

  lemma PriceOf(b: ChargeBand, weightKg: real, n: nat, price: real)
    requires ValidBand(b) && b.additional.Some? && Started(b, weightKg, n)
    requires price == b.charge + n as real * b.additional.value
    ensures price == BandCharge(b, weightKg)
  {
    StartedOnce(b, weightKg, n);
  }

  lemma AsksItsCharge(b: ChargeBand, weightKg: real)
    requires ValidBand(b)
    ensures Asks(b, weightKg, BandCharge(b, weightKg))
  {
    if b.additional.Some? {
      IncrementsAreLeast(b, weightKg, 0);
      StartedOnce(b, weightKg, Increments(b, weightKg));
    }
  }

  lemma AsksNothingElse(b: ChargeBand, weightKg: real, price: real)
    requires ValidBand(b) && Asks(b, weightKg, price)
    ensures price == BandCharge(b, weightKg)
  {
    if b.additional.Some? {
      var n: nat :| Started(b, weightKg, n) && price == b.charge + n as real * b.additional.value;
      PriceOf(b, weightKg, n, price);
    }
  }

  /** A band charges just what it asks. */
  lemma BandChargeIsAsked(b: ChargeBand, weightKg: real, price: real)
    requires ValidBand(b)
    ensures Asks(b, weightKg, price) <==> price == BandCharge(b, weightKg)
  {
    AsksItsCharge(b, weightKg);
    if Asks(b, weightKg, price) {
      AsksNothingElse(b, weightKg, price);
    }
  }

  lemma DivideGrows(x: real, y: real, b: real)
    requires b > 0.0 && x <= y
    ensures x / b <= y / b
  {
    assert (y / b - x / b) * b == y - x;
  }

  /** More weight never costs less. */
  lemma BandChargeIsMonotone(b: ChargeBand, light: real, heavy: real)
    requires ValidBand(b) && light <= heavy
    ensures BandCharge(b, light) <= BandCharge(b, heavy)
  {
    DivideGrows(light - b.minKg, heavy - b.minKg, Increment(b));
    IncrementsAreLeast(b, heavy, 0);
    var (few, many) := (Increments(b, light), Increments(b, heavy));
    assert few <= many;
    if b.additional.Some? {
      assert (many - few) as real * b.additional.value >= 0.0;
    }
  }

  // ---------------------------------------------------------------------------------------------
  // Choosing the band.
  // ---------------------------------------------------------------------------------------------

  datatype ScopeLevel = ByArea | ByCountry | Everywhere

  const LEVELS := [ByArea, ByCountry, Everywhere]

  predicate InScope(b: ChargeBand, level: ScopeLevel, f: Facts) {
    match level
    case ByArea => b.scope.Area? && b.scope.code in f.areas
    case ByCountry => b.scope == Country(f.country)
    case Everywhere => b.scope.All?
  }

  predicate Applies(b: ChargeBand, level: ScopeLevel, f: Facts) {
    && (b.warehouse.None? || b.warehouse == f.warehouse)
    && InScope(b, level, f)
    && b.minKg <= f.weightKg <= b.maxKg
  }

  predicate ValidBands(bands: seq<ChargeBand>) {
    forall b :: b in bands ==> ValidBand(b)
  }

  /** The charges of the bands that apply at one level. */
  function ChargesAt(bands: seq<ChargeBand>, level: ScopeLevel, f: Facts): seq<real> {
    Gather(bands, b => if ValidBand(b) && Applies(b, level, f) then [BandCharge(b, f.weightKg)] else [])
  }

  /** The narrowest level at which any band applies sets the price: its cheapest band's. */
  method CalculateCharge(bands: seq<ChargeBand>, f: Facts) returns (charge: Option<real>)
    requires ValidBands(bands)
    ensures charge == Charge(bands, f)
    ensures charge.None? <==> forall b :: b in bands ==> !Takes(b, f)
    ensures charge.Some? ==> BestAsked(bands, f, charge.value)
  {
    ChargeIsBestAsked(bands, f);
    for i := 0 to |LEVELS|
      invariant forall j :: 0 <= j < i ==> ChargesAt(bands, LEVELS[j], f) == []
    {
      var matching := ChargesAt(bands, LEVELS[i], f);
      if matching != [] {
        assert i == 0 || (i == 1 && ChargesAt(bands, LEVELS[0], f) == [])
               || (ChargesAt(bands, LEVELS[0], f) == [] && ChargesAt(bands, LEVELS[1], f) == []);
        return Some(Least(matching));
      }
    }
    assert forall j :: 0 <= j < 3 ==> ChargesAt(bands, LEVELS[j], f) == [];
    assert ChargesAt(bands, LEVELS[0], f) == ChargesAt(bands, LEVELS[1], f) == ChargesAt(bands, LEVELS[2], f) == [];
    charge := None;
  }

  function Charge(bands: seq<ChargeBand>, f: Facts): Option<real> {
    if ChargesAt(bands, ByArea, f) != [] then Some(Least(ChargesAt(bands, ByArea, f)))
    else if ChargesAt(bands, ByCountry, f) != [] then Some(Least(ChargesAt(bands, ByCountry, f)))
    else if ChargesAt(bands, Everywhere, f) != [] then Some(Least(ChargesAt(bands, Everywhere, f)))
    else None
  }

  predicate SomeApplies(bands: seq<ChargeBand>, level: ScopeLevel, f: Facts) {
    exists b :: b in bands && Applies(b, level, f)
  }

  /** At one level, the least charge is charged by some applying band and beaten by none. */
  predicate CheapestAt(bands: seq<ChargeBand>, level: ScopeLevel, f: Facts, charge: real)
    requires ValidBands(bands)
  {
    && (exists b :: b in bands && Applies(b, level, f) && BandCharge(b, f.weightKg) == charge)
    && (forall b :: b in bands && Applies(b, level, f) ==> charge <= BandCharge(b, f.weightKg))
  }

  lemma ChargesAtLevel(bands: seq<ChargeBand>, level: ScopeLevel, f: Facts)
    requires ValidBands(bands)
    ensures ChargesAt(bands, level, f) != [] <==> SomeApplies(bands, level, f)
    ensures ChargesAt(bands, level, f) != [] ==> CheapestAt(bands, level, f, Least(ChargesAt(bands, level, f)))
  {
    var find := (b: ChargeBand) => if ValidBand(b) && Applies(b, level, f) then [BandCharge(b, f.weightKg)] else [];
    var charges := ChargesAt(bands, level, f);
    forall b | b in bands && Applies(b, level, f)
      ensures BandCharge(b, f.weightKg) in charges
    {
      assert BandCharge(b, f.weightKg) in find(b);
      GatherMembers(bands, find, BandCharge(b, f.weightKg));
    }
    if charges != [] {
      LeastIsLeast(charges);
      GatherMembers(bands, find, Least(charges));
    }
  }

  /** No charge exactly when no band applies at any level; else the price is the cheapest applying band's at
      the narrowest level that has one. */
  lemma NarrowestScopeSetsThePrice(bands: seq<ChargeBand>, f: Facts)
    requires ValidBands(bands)
    ensures Charge(bands, f).None? <==> forall level :: !SomeApplies(bands, level, f)
    ensures SomeApplies(bands, ByArea, f) ==>
              Charge(bands, f).Some? && CheapestAt(bands, ByArea, f, Charge(bands, f).value)
    ensures !SomeApplies(bands, ByArea, f) && SomeApplies(bands, ByCountry, f) ==>
              Charge(bands, f).Some? && CheapestAt(bands, ByCountry, f, Charge(bands, f).value)
    ensures !SomeApplies(bands, ByArea, f) && !SomeApplies(bands, ByCountry, f) && SomeApplies(bands, Everywhere, f) ==>
              Charge(bands, f).Some? && CheapestAt(bands, Everywhere, f, Charge(bands, f).value)
  {
    ChargesAtLevel(bands, ByArea, f);
    ChargesAtLevel(bands, ByCountry, f);
    ChargesAtLevel(bands, Everywhere, f);
  }

  // ---------------------------------------------------------------------------------------------
  // The charge from the bands themselves.
  // ---------------------------------------------------------------------------------------------

  /** A band that takes the shipment: its warehouse, its destination and its weight. */
  predicate Takes(b: ChargeBand, f: Facts) {
    && (b.warehouse.Some? ==> f.warehouse == b.warehouse)
    && b.minKg <= f.weightKg && f.weightKg <= b.maxKg
    && match b.scope
       case All => true
       case Country(code) => f.country == code
       case Area(code) => code in f.areas
  }

  /** How wide a band's scope is: an area, a country, everywhere. */
  function Width(scope: Scope): nat {
    match scope
    case Area(_) => 0
    case Country(_) => 1
    case All => 2
  }

  /** Some band that takes the shipment asks this, and every other that does is wider or asks no less. */
  ghost predicate BestAsked(bands: seq<ChargeBand>, f: Facts, charge: real) {
    exists b :: b in bands && Takes(b, f) && Asks(b, f.weightKg, charge)
      && forall o, price :: o in bands && Takes(o, f) && Asks(o, f.weightKg, price) ==>
           Width(b.scope) < Width(o.scope) || (Width(b.scope) == Width(o.scope) && charge <= price)
  }

  function WidthOf(level: ScopeLevel): nat {
    match level
    case ByArea => 0
    case ByCountry => 1
    case Everywhere => 2
  }

  lemma TakesAtItsLevel(b: ChargeBand, f: Facts, level: ScopeLevel)
    ensures Applies(b, level, f) <==> Takes(b, f) && Width(b.scope) == WidthOf(level)
  {
  }

  lemma BestAtLevel(bands: seq<ChargeBand>, f: Facts, level: ScopeLevel, charge: real)
    requires ValidBands(bands) && SomeApplies(bands, level, f) && CheapestAt(bands, level, f, charge)
    requires forall narrower :: WidthOf(narrower) < WidthOf(level) ==> !SomeApplies(bands, narrower, f)
    ensures BestAsked(bands, f, charge)
  {
    var b :| b in bands && Applies(b, level, f) && BandCharge(b, f.weightKg) == charge;
    TakesAtItsLevel(b, f, level);
    BandChargeIsAsked(b, f.weightKg, charge);
    forall o, price | o in bands && Takes(o, f) && Asks(o, f.weightKg, price)
      ensures Width(b.scope) < Width(o.scope) || (Width(b.scope) == Width(o.scope) && charge <= price)
    {
      var at := match o.scope case Area(_) => ByArea case Country(_) => ByCountry case All => Everywhere;
      TakesAtItsLevel(o, f, at);
      BandChargeIsAsked(o, f.weightKg, price);
      assert SomeApplies(bands, at, f);
      assert at == level || WidthOf(at) > WidthOf(level);
    }
  }

  /** The charge is the best asked, and there is none exactly when no band takes the shipment. */
  lemma ChargeIsBestAsked(bands: seq<ChargeBand>, f: Facts)
    requires ValidBands(bands)
    ensures Charge(bands, f).None? <==> forall b :: b in bands ==> !Takes(b, f)
    ensures Charge(bands, f).Some? ==> BestAsked(bands, f, Charge(bands, f).value)
  {
    NarrowestScopeSetsThePrice(bands, f);
    forall b, level
      ensures Applies(b, level, f) <==> Takes(b, f) && Width(b.scope) == WidthOf(level)
    {
      TakesAtItsLevel(b, f, level);
    }
    if b :| b in bands && Takes(b, f) {
      var at := match b.scope case Area(_) => ByArea case Country(_) => ByCountry case All => Everywhere;
      assert SomeApplies(bands, at, f);
    }
    if Charge(bands, f).Some? {
      var level := if SomeApplies(bands, ByArea, f) then ByArea else if SomeApplies(bands, ByCountry, f) then ByCountry
                   else Everywhere;
      BestAtLevel(bands, f, level, Charge(bands, f).value);
    }
  }

  lemma ChargeIsBandOrderBlind(a: seq<ChargeBand>, b: seq<ChargeBand>, f: Facts)
    requires multiset(a) == multiset(b)
    ensures Charge(a, f) == Charge(b, f)
  {
    forall level
      ensures LeastOrZero(ChargesAt(a, level, f)) == LeastOrZero(ChargesAt(b, level, f))
      ensures ChargesAt(a, level, f) == [] <==> ChargesAt(b, level, f) == []
    {
      SameGather(a, b, (x: ChargeBand) =>
        if ValidBand(x) && Applies(x, level, f) then [BandCharge(x, f.weightKg)] else []);
      SameLeastOrZero(ChargesAt(a, level, f), ChargesAt(b, level, f));
    }
  }
}
