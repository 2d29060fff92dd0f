/** The next day a carrier collects from a warehouse (domain/collection.py). A date is its ordinal: day 1 is a
    Monday. */
module Collection {
  import opened Prelude

  datatype CollectionDays = CollectionDays(
    monday: bool, tuesday: bool, wednesday: bool, thursday: bool, friday: bool, saturday: bool, sunday: bool)

  predicate Enabled(days: CollectionDays, weekday: nat) {
    match weekday
    case 1 => days.monday
    case 2 => days.tuesday
    case 3 => days.wednesday
    case 4 => days.thursday
    case 5 => days.friday
    case 6 => days.saturday
    case 7 => days.sunday
    case _ => false
  }

  /** The enabled days, 1 for Monday to 7 for Sunday. */
  function IsoWeekdays(days: CollectionDays): set<nat> {
    set i: nat | 1 <= i <= 7 && Enabled(days, i)
  }

  function IsoWeekday(date: int): (w: nat)
    ensures 1 <= w <= 7
    ensures w == 7 <==> date % 7 == 0
    ensures w < 7 ==> w == date % 7
  {
    (date - 1) % 7 + 1
  }

  /** A carrier collects on this date: the flag of its weekday is set, and it is no holiday. Dates one apart are days
      of the week one apart, and date 1 is a Monday. */
  predicate OpenOn(days: CollectionDays, holidays: seq<int>, date: int) {
    && date !in holidays
    && [days.monday, days.tuesday, days.wednesday, days.thursday, days.friday, days.saturday, days.sunday]
       [(date - 1) % 7]
  }

  lemma CollectsWhenOpen(days: CollectionDays, holidays: seq<int>, date: int)
    ensures Collects(IsoWeekdays(days), (set h | h in holidays), date) <==> OpenOn(days, holidays, date)
  {
  }

  lemma NoWeekdays(days: CollectionDays)
    ensures IsoWeekdays(days) == {} <==> days == CollectionDays(false, false, false, false, false, false, false)
  {
    var weekdays := IsoWeekdays(days);
    assert weekdays == {} ==> 1 !in weekdays && 2 !in weekdays && 3 !in weekdays && 4 !in weekdays
                              && 5 !in weekdays && 6 !in weekdays && 7 !in weekdays;
  }

  const SCAN_LIMIT_DAYS := 366

  predicate Collects(weekdays: set<nat>, holidays: set<int>, date: int) {
    IsoWeekday(date) in weekdays && date !in holidays
  }

  datatype Unschedulable = NoDaysEnabled | NoneWithinAYear

  /** The first collection day on or after a date; an error exactly when no weekday is enabled or none of the
      days scanned collects. */
  method NextCollectionDay(days: CollectionDays, holidays: seq<int>, onOrAfter: int)
    returns (day: Result<int, Unschedulable>)
    ensures var (weekdays, closed) := (IsoWeekdays(days), set h | h in holidays);
      && (day.Ok? ==> onOrAfter <= day.value < onOrAfter + SCAN_LIMIT_DAYS && Collects(weekdays, closed, day.value))
      && (day.Ok? ==> forall d :: onOrAfter <= d < day.value ==> !Collects(weekdays, closed, d))
      && (day == Err(NoDaysEnabled) <==> weekdays == {})
      && (day == Err(NoneWithinAYear) <==>
            weekdays != {} && NoneCollects(weekdays, closed, onOrAfter))
      && (|closed| < ClosingNumber(weekdays, onOrAfter) ==> day.Ok?)
      && WEEKS_SCANNED * |weekdays| <= ClosingNumber(weekdays, onOrAfter)
    ensures day.Ok? ==>
              && onOrAfter <= day.value < onOrAfter + SCAN_LIMIT_DAYS && OpenOn(days, holidays, day.value)
              && forall d :: onOrAfter <= d < day.value ==> !OpenOn(days, holidays, d)
    ensures day.Err? ==>
              forall d :: onOrAfter <= d < onOrAfter + SCAN_LIMIT_DAYS ==> !OpenOn(days, holidays, d)
    ensures day == Err(NoDaysEnabled) <==>
            days == CollectionDays(false, false, false, false, false, false, false)
  {
    var weekdays := IsoWeekdays(days);
    var closed := set h | h in holidays;
    forall d
      ensures Collects(weekdays, closed, d) <==> OpenOn(days, holidays, d)
    {
      CollectsWhenOpen(days, holidays, d);
    }
    NoWeekdays(days);
    if weekdays == {} {
      return Err(NoDaysEnabled);
    }
    assert |closed| < ClosingNumber(weekdays, onOrAfter) ==> !NoneCollects(weekdays, closed, onOrAfter) by {
      if |closed| < ClosingNumber(weekdays, onOrAfter) {
        FewHolidaysLeaveADay(weekdays, closed, onOrAfter);
      }
    }
    var candidate := onOrAfter;
    for i := 0 to SCAN_LIMIT_DAYS
      invariant candidate == onOrAfter + i
      invariant forall d :: onOrAfter <= d < candidate ==> !Collects(weekdays, closed, d)
    {
      if IsoWeekday(candidate) in weekdays && candidate !in closed {
        assert Collects(weekdays, closed, candidate);
        return Ok(candidate);
      }
      candidate := candidate + 1;
    }
    day := Err(NoneWithinAYear);
  }

  predicate NoneCollects(weekdays: set<nat>, holidays: set<int>, start: int) {
    forall d :: start <= d < start + SCAN_LIMIT_DAYS ==> !Collects(weekdays, holidays, d)
  }

  // ---------------------------------------------------------------------------------------------
  // How many holidays it takes to close a warehouse for a year.
  // ---------------------------------------------------------------------------------------------

  /** The dates with these weekdays in a number of whole weeks. */
  function DatesOn(weekdays: set<nat>, start: int, weeks: nat): set<int> {
    set d | start <= d < start + 7 * weeks && IsoWeekday(d) in weekdays
  }

  /** The one date with a given weekday in the seven from `start`. */
  function DateOf(start: int, weekday: nat): (d: int)
    requires 1 <= weekday <= 7
    ensures start <= d < start + 7 && IsoWeekday(d) == weekday
    ensures forall e :: start <= e < start + 7 && IsoWeekday(e) == weekday ==> e == d
  {
    start + (weekday - IsoWeekday(start) + 7) % 7
  }

  lemma {:induction false} OneWeek(weekdays: set<nat>, start: int)
    requires forall w :: w in weekdays ==> 1 <= w <= 7
    ensures |DatesOn(weekdays, start, 1)| == |weekdays|
    decreases |weekdays|
  {
    if weekdays == {} {
      assert DatesOn(weekdays, start, 1) == {};
    } else {
      var w :| w in weekdays;
      OneWeek(weekdays - {w}, start);
      assert DatesOn(weekdays, start, 1) == DatesOn(weekdays - {w}, start, 1) + {DateOf(start, w)};
    }
  }

  lemma LastWeek(weekdays: set<nat>, start: int, weeks: nat)
    requires weeks > 0
    ensures var last := start + 7 * (weeks - 1);
      && DatesOn(weekdays, start, weeks) == DatesOn(weekdays, start, weeks - 1) + DatesOn(weekdays, last, 1)
      && DatesOn(weekdays, start, weeks - 1) !! DatesOn(weekdays, last, 1)
  {
  }

  /** Every week has each enabled weekday once. */
  lemma {:induction false} WholeWeeks(weekdays: set<nat>, start: int, weeks: nat)
    requires forall w :: w in weekdays ==> 1 <= w <= 7
    ensures |DatesOn(weekdays, start, weeks)| == weeks * |weekdays|
    decreases weeks
  {
    if weeks == 0 {
      assert DatesOn(weekdays, start, 0) == {};
    } else {
      var last := start + 7 * (weeks - 1);
      WholeWeeks(weekdays, start, weeks - 1);
      OneWeek(weekdays, last);
      LastWeek(weekdays, start, weeks);
      assert weeks * |weekdays| == (weeks - 1) * |weekdays| + |weekdays|;
    }
  }

  lemma SubsetSize(a: set<int>, b: set<int>)
    requires a <= b
    ensures |a| <= |b|
  {
    assert b == a + (b - a);
  }

  const WEEKS_SCANNED := 52

  /** The days with an enabled weekday among the first so many. */
  function Among(weekdays: set<nat>, start: int, days: nat): set<int> {
    set d | start <= d < start + days && IsoWeekday(d) in weekdays
  }

  function Scanned(weekdays: set<nat>, start: int): set<int> {
    Among(weekdays, start, SCAN_LIMIT_DAYS)
  }

  lemma OneDayMore(weekdays: set<nat>, start: int, days: nat)
    ensures |Among(weekdays, start, days + 1)| ==
            |Among(weekdays, start, days)| + if IsoWeekday(start + days) in weekdays then 1 else 0
  {
    var more := if IsoWeekday(start + days) in weekdays then {start + days} else {};
    assert Among(weekdays, start, days + 1) == Among(weekdays, start, days) + more;
  }

  /** 52 for every enabled weekday, and one more for each of the first two days scanned that has one: their weekdays
      come round a 53rd time. */
  function ClosingNumber(weekdays: set<nat>, start: int): nat {
    WEEKS_SCANNED * |weekdays|
    + (if IsoWeekday(start) in weekdays then 1 else 0)
    + (if IsoWeekday(start + 1) in weekdays then 1 else 0)
  }

  lemma ScannedCount(weekdays: set<nat>, start: int)
    requires forall w :: w in weekdays ==> 1 <= w <= 7
    ensures |Scanned(weekdays, start)| == ClosingNumber(weekdays, start)
  {
    var whole := 7 * WEEKS_SCANNED;
    WholeWeeks(weekdays, start, WEEKS_SCANNED);
    assert Among(weekdays, start, whole) == DatesOn(weekdays, start, WEEKS_SCANNED);
    OneDayMore(weekdays, start, whole);
    OneDayMore(weekdays, start, whole + 1);
    assert IsoWeekday(start + whole) == IsoWeekday(start);
    assert IsoWeekday(start + whole + 1) == IsoWeekday(start + 1);
  }

  /** Fewer distinct holidays than the closing number leave some day scanned collecting. */
  lemma FewHolidaysLeaveADay(weekdays: set<nat>, holidays: set<int>, start: int)
    requires forall w :: w in weekdays ==> 1 <= w <= 7
    requires |holidays| < ClosingNumber(weekdays, start)
    ensures !NoneCollects(weekdays, holidays, start)
  {
    if NoneCollects(weekdays, holidays, start) {
      forall d | d in Scanned(weekdays, start)
        ensures d in holidays
      {
        assert !Collects(weekdays, holidays, d);
      }
      ScannedCount(weekdays, start);
      SubsetSize(Scanned(weekdays, start), holidays);
    }
  }

  /** And that many can close it, whatever the start: the closing number is exact. */
  lemma ThatManyHolidaysCanClose(weekdays: set<nat>, start: int) returns (holidays: set<int>)
    requires forall w :: w in weekdays ==> 1 <= w <= 7
    ensures |holidays| == ClosingNumber(weekdays, start) && NoneCollects(weekdays, holidays, start)
  {
    holidays := Scanned(weekdays, start);
    ScannedCount(weekdays, start);
  }
}
