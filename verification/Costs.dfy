/** The delivery cost of a shipment under a service's cost bands (domain/costs.py). Decimals are reals. */
module Costs {
  import opened Bags
  import opened Prelude

  /** One band; the kind implies its fields. */
  datatype CostBand =
    | WeightBand(minKg: real, maxKg: real, charge: real, additional: Option<real>)
    | ParcelBand(minParcels: int, maxParcels: int, charge: real, additional: Option<real>)
    | FuelBand(percentage: real)
    | DimensionBand(overCm: real, charge: real)

  /** The facts a cost depends on. */
  datatype Load = Load(weightKg: real, parcels: int, dimensionCm: Option<real>)

  function OrZero(x: Option<real>): real {
    if x.Some? then x.value else 0.0
  }

  predicate Matches(b: CostBand, load: Load) {
    match b
    case WeightBand(lo, hi, _, _) => lo <= load.weightKg <= hi
    case ParcelBand(lo, hi, _, _) => load.parcels > 0 && lo <= load.parcels <= hi
    case FuelBand(_) => true
    case DimensionBand(over, _) => load.dimensionCm.Some? && load.dimensionCm.value > over
  }

  /** What a matching band contributes: a carriage price, a percentage or a surcharge. */
  function Amount(b: CostBand, load: Load): real {
    match b
    case WeightBand(lo, _, charge, additional) =>
      charge + (if load.weightKg > lo then load.weightKg - lo else 0.0) * OrZero(additional)
    case ParcelBand(lo, _, charge, additional) =>
      charge + (if load.parcels > lo then load.parcels - lo else 0) as real * OrZero(additional)
    case FuelBand(percentage) => percentage
    case DimensionBand(_, charge) => charge
  }

  datatype Kind = ByWeight | ByParcel | Fuel | Dimension

  function KindOf(b: CostBand): Kind {
    match b
    case WeightBand(_, _, _, _) => ByWeight
    case ParcelBand(_, _, _, _) => ByParcel
    case FuelBand(_) => Fuel
    case DimensionBand(_, _) => Dimension
  }

  /** The amounts of the matching bands of one kind, in the order the bands are listed. */
  function Amounts(bands: seq<CostBand>, kind: Kind, load: Load): seq<real> {
    Gather(bands, b => Share(b, kind, load))
  }

  function Share(b: CostBand, kind: Kind, load: Load): seq<real> {
    if KindOf(b) == kind && Matches(b, load) then [Amount(b, load)] else []
  }

  function Percent(amount: real, percentage: real): real {
    amount * percentage / 100.0
  }

  /** Fuel is a percentage of the carriage; surcharges come after it. */
  function Total(carriage: real, fuel: real, surcharges: real): real {
    carriage + Percent(carriage, fuel) + surcharges
  }

  function CarriageOf(bands: seq<CostBand>, load: Load): real {
    LeastOrZero(Amounts(bands, ByWeight, load)) + LeastOrZero(Amounts(bands, ByParcel, load))
  }

  function CalculateCost(bands: seq<CostBand>, load: Load): Option<real> {
    var byWeight := Amounts(bands, ByWeight, load);
    var byParcel := Amounts(bands, ByParcel, load);
    if byWeight == [] && byParcel == [] then None
    else Some(Total(CarriageOf(bands, load),
                    Sum(Amounts(bands, Fuel, load)),
                    Sum(Amounts(bands, Dimension, load))))
  }

  // ---------------------------------------------------------------------------------------------
  // The order the bands are listed in does not matter.
  // ---------------------------------------------------------------------------------------------

  lemma SameTotals(a: seq<CostBand>, b: seq<CostBand>, kind: Kind, load: Load)
    requires multiset(a) == multiset(b)
    ensures Amounts(a, kind, load) == [] <==> Amounts(b, kind, load) == []
    ensures LeastOrZero(Amounts(a, kind, load)) == LeastOrZero(Amounts(b, kind, load))
    ensures Sum(Amounts(a, kind, load)) == Sum(Amounts(b, kind, load))
  {
    SameGather(a, b, x => Share(x, kind, load));
    SameSum(Amounts(a, kind, load), Amounts(b, kind, load));
    SameLeastOrZero(Amounts(a, kind, load), Amounts(b, kind, load));
  }

  /** Same bands, same shipment, same cost, however the bands are listed. */
  lemma CostIsBandOrderBlind(a: seq<CostBand>, b: seq<CostBand>, load: Load)
    requires multiset(a) == multiset(b)
    ensures CalculateCost(a, load) == CalculateCost(b, load)
  {
    SameTotals(a, b, ByWeight, load);
    SameTotals(a, b, ByParcel, load);
    SameTotals(a, b, Fuel, load);
    SameTotals(a, b, Dimension, load);
  }

  predicate Carriage(b: CostBand) {
    b.WeightBand? || b.ParcelBand?
  }

  lemma AmountsOf(bands: seq<CostBand>, kind: Kind, load: Load, x: real)
    ensures x in Amounts(bands, kind, load) <==>
            exists b :: b in bands && KindOf(b) == kind && Matches(b, load) && Amount(b, load) == x
  {
    GatherMembers(bands, b => Share(b, kind, load), x);
  }

  /** There is a basis for a cost exactly when some weight or parcel band matches. */
  lemma CostedExactlyWhenCarried(bands: seq<CostBand>, load: Load)
    ensures CalculateCost(bands, load).Some? <==> exists b :: b in bands && Carriage(b) && Matches(b, load)
  {
    if b :| b in bands && Carriage(b) && Matches(b, load) {
      AmountsOf(bands, KindOf(b), load, Amount(b, load));
    }
    if CalculateCost(bands, load).Some? {
      var kind := if Amounts(bands, ByWeight, load) != [] then ByWeight else ByParcel;
      AmountsOf(bands, kind, load, Amounts(bands, kind, load)[0]);
    }
  }

  /** Of each carriage kind the cheapest matching band is the one charged. */
  lemma CheapestBandCharged(bands: seq<CostBand>, kind: Kind, load: Load)
    requires kind in {ByWeight, ByParcel}
    ensures var least := LeastOrZero(Amounts(bands, kind, load));
      && (forall b :: b in bands && KindOf(b) == kind && Matches(b, load) ==> least <= Amount(b, load))
      && ((exists b :: b in bands && KindOf(b) == kind && Matches(b, load)) ==>
           exists b :: b in bands && KindOf(b) == kind && Matches(b, load) && Amount(b, load) == least)
  {
    var amounts := Amounts(bands, kind, load);
    forall b | b in bands && KindOf(b) == kind && Matches(b, load)
      ensures Amount(b, load) in amounts
    {
      AmountsOf(bands, kind, load, Amount(b, load));
    }
    if amounts != [] {
      LeastIsLeast(amounts);
      AmountsOf(bands, kind, load, Least(amounts));
    }
  }

  // ---------------------------------------------------------------------------------------------
  // The cost from the bands themselves.
  // ---------------------------------------------------------------------------------------------

  /** A weight band that covers the shipment and what it asks: its charge, and its additional charge for each kilogram
      above its minimum. */
  predicate WeightPrice(b: CostBand, load: Load, price: real) {
    && b.WeightBand?
    && b.minKg <= load.weightKg <= b.maxKg
    && price == if b.additional.Some? then b.charge + (load.weightKg - b.minKg) * b.additional.value else b.charge
  }

  /** The same of a parcel band, for each parcel above its minimum. */
  predicate ParcelPrice(b: CostBand, load: Load, price: real) {
    && b.ParcelBand?
    && load.parcels >= 1
    && b.minParcels <= load.parcels <= b.maxParcels
    && price ==
       if b.additional.Some? then b.charge + (load.parcels - b.minParcels) as real * b.additional.value else b.charge
  }

  predicate Price(b: CostBand, load: Load, price: real) {
    WeightPrice(b, load, price) || ParcelPrice(b, load, price)
  }

  ghost predicate AskedBy(bands: seq<CostBand>, load: Load, byWeight: bool, price: real) {
    exists b :: b in bands && b.WeightBand? == byWeight && Price(b, load, price)
  }

  /** The least that the bands of one carriage kind ask, or nothing when none covers the shipment. */
  ghost predicate LeastAsked(bands: seq<CostBand>, load: Load, byWeight: bool, price: real) {
    && (forall other :: AskedBy(bands, load, byWeight, other) ==> price <= other)
    && if exists other :: AskedBy(bands, load, byWeight, other) then AskedBy(bands, load, byWeight, price)
       else price == 0.0
  }

  function FuelWorth(b: CostBand): real {
    if b.FuelBand? then b.percentage else 0.0
  }

  function SurchargeWorth(b: CostBand, load: Load): real {
    if b.DimensionBand? && load.dimensionCm.Some? && b.overCm < load.dimensionCm.value then b.charge else 0.0
  }

  ghost predicate CarriageAsked(bands: seq<CostBand>, load: Load) {
    exists b, price :: b in bands && Price(b, load, price)
  }

  /** What the bands ask for a shipment: the least of each carriage kind, every fuel percentage of that on top, and
      then every surcharge whose length is exceeded. */
  ghost predicate Asked(bands: seq<CostBand>, load: Load, cost: real) {
    && CarriageAsked(bands, load)
    && exists byWeight, byParcel ::
         && LeastAsked(bands, load, true, byWeight)
         && LeastAsked(bands, load, false, byParcel)
         && cost == AskedTotal(bands, load, byWeight + byParcel)
  }

  function AskedTotal(bands: seq<CostBand>, load: Load, carriage: real): real {
    carriage + carriage * SumOver(bands, FuelWorth) / 100.0 + SumOver(bands, b => SurchargeWorth(b, load))
  }

  lemma MatchPrices(b: CostBand, load: Load)
    ensures Carriage(b) && Matches(b, load) ==> forall price :: Price(b, load, price) <==> price == Amount(b, load)
    ensures !(Carriage(b) && Matches(b, load)) ==> forall price :: !Price(b, load, price)
  {
  }

  lemma AskedIsAmounts(bands: seq<CostBand>, load: Load, byWeight: bool, price: real)
    ensures AskedBy(bands, load, byWeight, price) <==>
            price in Amounts(bands, if byWeight then ByWeight else ByParcel, load)
  {
    var kind := if byWeight then ByWeight else ByParcel;
    AmountsOf(bands, kind, load, price);
    if b :| b in bands && b.WeightBand? == byWeight && Price(b, load, price) {
      MatchPrices(b, load);
    }
    if b :| b in bands && KindOf(b) == kind && Matches(b, load) && Amount(b, load) == price {
      MatchPrices(b, load);
      assert Price(b, load, price);
    }
  }

  lemma LeastIsAsked(bands: seq<CostBand>, load: Load, byWeight: bool)
    ensures var least := LeastOrZero(Amounts(bands, if byWeight then ByWeight else ByParcel, load));
            forall price :: LeastAsked(bands, load, byWeight, price) <==> price == least
  {
    var amounts := Amounts(bands, if byWeight then ByWeight else ByParcel, load);
    forall price
      ensures AskedBy(bands, load, byWeight, price) <==> price in amounts
    {
      AskedIsAmounts(bands, load, byWeight, price);
    }
    if amounts != [] {
      LeastIsLeast(amounts);
      assert AskedBy(bands, load, byWeight, Least(amounts));
    }
  }

  lemma CarriedIsAsked(bands: seq<CostBand>, load: Load)
    ensures CalculateCost(bands, load).Some? <==> CarriageAsked(bands, load)
  {
    CostedExactlyWhenCarried(bands, load);
    if b :| b in bands && Carriage(b) && Matches(b, load) {
      MatchPrices(b, load);
      assert Price(b, load, Amount(b, load));
    }
    if CarriageAsked(bands, load) {
      var b, price :| b in bands && Price(b, load, price);
      MatchPrices(b, load);
    }
  }

  lemma ExtrasAreAsked(bands: seq<CostBand>, load: Load)
    ensures Sum(Amounts(bands, Fuel, load)) == SumOver(bands, FuelWorth)
    ensures Sum(Amounts(bands, Dimension, load)) == SumOver(bands, b => SurchargeWorth(b, load))
  {
    SumOfGathered(bands, b => Share(b, Fuel, load), FuelWorth);
    SumOfGathered(bands, b => Share(b, Dimension, load), b => SurchargeWorth(b, load));
  }

  lemma AskedOnce(bands: seq<CostBand>, load: Load, cost: real)
    ensures Asked(bands, load, cost) <==>
            CarriageAsked(bands, load) && cost == AskedTotal(bands, load, CarriageOf(bands, load))
  {
    LeastIsAsked(bands, load, true);
    LeastIsAsked(bands, load, false);
    var byWeight := LeastOrZero(Amounts(bands, ByWeight, load));
    var byParcel := LeastOrZero(Amounts(bands, ByParcel, load));
    assert LeastAsked(bands, load, true, byWeight) && LeastAsked(bands, load, false, byParcel);
  }

  lemma TotalIsAsked(bands: seq<CostBand>, load: Load, carriage: real, fuel: real, surcharges: real)
    requires fuel == SumOver(bands, FuelWorth) && surcharges == SumOver(bands, b => SurchargeWorth(b, load))
    ensures Total(carriage, fuel, surcharges) == AskedTotal(bands, load, carriage)
  {
  }

  /** The cost calculated is the cost asked, and there is none exactly when no carriage band covers the shipment. */
  lemma CostIsAsked(bands: seq<CostBand>, load: Load, cost: real)
    ensures CalculateCost(bands, load) == Some(cost) <==> Asked(bands, load, cost)
    ensures CalculateCost(bands, load).None? <==> !CarriageAsked(bands, load)
  {
    var (carriage, fuel) := (CarriageOf(bands, load), Sum(Amounts(bands, Fuel, load)));
    var surcharges := Sum(Amounts(bands, Dimension, load));
    AskedOnce(bands, load, cost);
    CarriedIsAsked(bands, load);
    ExtrasAreAsked(bands, load);
    TotalIsAsked(bands, load, carriage, fuel, surcharges);
    if CalculateCost(bands, load).Some? {
      CostFromParts(bands, load, carriage, fuel, surcharges);
    }
  }

  lemma AmountsCons(b: CostBand, bands: seq<CostBand>, kind: Kind, load: Load)
    ensures KindOf(b) != kind || !Matches(b, load) ==>
              Amounts([b] + bands, kind, load) == Amounts(bands, kind, load)
    ensures KindOf(b) == kind && Matches(b, load) ==>
              Amounts([b] + bands, kind, load) == [Amount(b, load)] + Amounts(bands, kind, load) &&
              Sum(Amounts([b] + bands, kind, load)) == Amount(b, load) + Sum(Amounts(bands, kind, load))
  {
  }

  lemma AmountsOnCons(b: CostBand, bands: seq<CostBand>, load: Load)
    ensures forall kind :: KindOf(b) != kind || !Matches(b, load) ==>
              Amounts([b] + bands, kind, load) == Amounts(bands, kind, load)
  {
  }

  /** A band that does not match costs nothing. */
  lemma UnmatchedBandIsFree(b: CostBand, bands: seq<CostBand>, load: Load)
    requires !Matches(b, load)
    ensures CalculateCost([b] + bands, load) == CalculateCost(bands, load)
  {
    AmountsOnCons(b, bands, load);
  }

  /** The three totals a cost is made of. */
  predicate Parts(bands: seq<CostBand>, load: Load, carriage: real, fuel: real, surcharges: real) {
    && carriage == CarriageOf(bands, load)
    && fuel == Sum(Amounts(bands, Fuel, load))
    && surcharges == Sum(Amounts(bands, Dimension, load))
  }

  lemma CostFromParts(bands: seq<CostBand>, load: Load, carriage: real, fuel: real, surcharges: real)
    requires CalculateCost(bands, load).Some? && Parts(bands, load, carriage, fuel, surcharges)
    ensures CalculateCost(bands, load).value == Total(carriage, fuel, surcharges)
  {
  }

  /** A fuel or dimension band leaves the carriage alone and adds to its own total. */
  lemma PartsOnCons(b: CostBand, bands: seq<CostBand>, load: Load, carriage: real, fuel: real, surcharges: real)
    requires KindOf(b) in {Fuel, Dimension} && Matches(b, load)
    requires CalculateCost(bands, load).Some? && Parts(bands, load, carriage, fuel, surcharges)
    ensures CalculateCost([b] + bands, load).Some?
    ensures b.FuelBand? ==> Parts([b] + bands, load, carriage, b.percentage + fuel, surcharges)
    ensures b.DimensionBand? ==> Parts([b] + bands, load, carriage, fuel, b.charge + surcharges)
  {
    AmountsOnCons(b, bands, load);
    AmountsCons(b, bands, KindOf(b), load);
  }

  lemma SurchargeSplits(carriage: real, fuel: real, x: real, surcharges: real)
    ensures Total(carriage, fuel, x + surcharges) == Total(carriage, fuel, surcharges) + x
  {
  }

  lemma FuelSplits(carriage: real, p: real, fuel: real)
    ensures Percent(carriage, p + fuel) == Percent(carriage, p) + Percent(carriage, fuel)
  {
    assert carriage * (p + fuel) == carriage * p + carriage * fuel;
  }

  lemma AddSurcharge(b: CostBand, bands: seq<CostBand>, load: Load, carriage: real, fuel: real, surcharges: real,
                     cost: real)
    returns (after: real)
    requires CalculateCost(bands, load) == Some(cost) && Parts(bands, load, carriage, fuel, surcharges)
    requires Matches(b, load) && b.DimensionBand?
    ensures CalculateCost([b] + bands, load) == Some(after) && after == cost + b.charge
  {
    CostFromParts(bands, load, carriage, fuel, surcharges);
    PartsOnCons(b, bands, load, carriage, fuel, surcharges);
    CostFromParts([b] + bands, load, carriage, fuel, b.charge + surcharges);
    SurchargeSplits(carriage, fuel, b.charge, surcharges);
    after := CalculateCost([b] + bands, load).value;
  }

  lemma AddFuel(b: CostBand, bands: seq<CostBand>, load: Load, carriage: real, fuel: real, surcharges: real,
                cost: real)
    returns (after: real)
    requires CalculateCost(bands, load) == Some(cost) && Parts(bands, load, carriage, fuel, surcharges)
    requires Matches(b, load) && b.FuelBand?
    ensures CalculateCost([b] + bands, load) == Some(after) && after == cost + Percent(carriage, b.percentage)
  {
    PartsOnCons(b, bands, load, carriage, fuel, surcharges);
    CostFromParts(bands, load, carriage, fuel, surcharges);
    CostFromParts([b] + bands, load, carriage, b.percentage + fuel, surcharges);
    after := CalculateCost([b] + bands, load).value;
    FuelSplits(carriage, b.percentage, fuel);
  }

  /** A matching surcharge adds its charge to whatever the cost was, free of fuel. */
  lemma SurchargeAddsItsCharge(b: CostBand, bands: seq<CostBand>, load: Load) returns (before: real, after: real)
    requires CalculateCost(bands, load).Some? && Matches(b, load) && b.DimensionBand?
    ensures CalculateCost(bands, load) == Some(before)
    ensures CalculateCost([b] + bands, load) == Some(after) && after == before + b.charge
  {
    before := CalculateCost(bands, load).value;
    after := AddSurcharge(b, bands, load, CarriageOf(bands, load), Sum(Amounts(bands, Fuel, load)),
                          Sum(Amounts(bands, Dimension, load)), before);
  }

  /** A fuel band adds its percentage of the carriage alone. */
  lemma FuelAddsOnCarriage(b: CostBand, bands: seq<CostBand>, load: Load)
    returns (before: real, carriage: real, after: real)
    requires CalculateCost(bands, load).Some? && Matches(b, load) && b.FuelBand?
    ensures CalculateCost(bands, load) == Some(before) && carriage == CarriageOf(bands, load)
    ensures CalculateCost([b] + bands, load) == Some(after) && after == before + Percent(carriage, b.percentage)
  {
    before := CalculateCost(bands, load).value;
    carriage := CarriageOf(bands, load);
    after := AddFuel(b, bands, load, carriage, Sum(Amounts(bands, Fuel, load)),
                     Sum(Amounts(bands, Dimension, load)), before);
  }
}
