/** The filters of a search and the test each stored deal goes through. */
module SearchQuery {
  import opened Base
  import opened Calendar
  import opened DealTypes

  /** A date filter: bounds are date codes; the duration counts days and is 0 unless both bounds
      were given. */
  datatype DateFilter = DateFilter(on: bool, from: nat, to: nat, duration: nat)

  const NO_DATES := DateFilter(false, 0, 0, 0)

  datatype Filters = Filters(
    minTimestamp: int,
    origin: Option<nat>,
    newerThan: Option<nat>,
    roundtrip: Option<bool>,
    destinations: Option<set<nat>>,
    countries: Option<set<nat>>,
    departure: DateFilter,
    return_: DateFilter,
    exact: Option<nat>,
    stay: Option<(nat, nat)>,
    direct: Option<bool>,
    departureDays: Option<bv8>,
    returnDays: Option<bv8>)

  predicate InDates(f: DateFilter, code: nat) {
    f.on ==> f.from <= code <= f.to
  }

  /** The filter chain of `process_element`. */
  predicate Matches(f: Filters, d: DealInfo) {
    TripMatches(f, d) && DatesMatch(f, d)
  }

  predicate TripMatches(f: Filters, d: DealInfo) {
    && !(d.timestamp <= f.minTimestamp)
    && (f.origin.Some? ==> d.origin == f.origin.value)
    && (f.newerThan.Some? ==> f.newerThan.value <= d.timestamp)
    && (f.roundtrip.Some? ==> (f.roundtrip.value <==> d.returnDate != 0))
    && (f.destinations.Some? ==> d.destination in f.destinations.value)
    && (f.countries.Some? ==> d.destinationCountry in f.countries.value)
  }

  predicate DatesMatch(f: Filters, d: DealInfo) {
    && InDates(f.departure, d.departureDate)
    && InDates(f.return_, d.returnDate)
    && (f.exact.Some? ==> d.returnDate == f.exact.value || d.departureDate == f.exact.value)
    && (f.stay.Some? ==> f.stay.value.0 <= d.stayDays <= f.stay.value.1)
    && (f.direct.Some? ==> d.direct == f.direct.value)
    && OnDays(f.departureDays, d.departureDays)
    && OnDays(f.returnDays, d.returnDays)
  }

  /** Weekdays are bit masks: some day of the deal is among the wanted ones. */
  predicate OnDays(wanted: Option<bv8>, days: bv8) {
    wanted.Some? ==> days & wanted.value != 0
  }

  /** The chain as the program runs it. */
  method Accepts(f: Filters, d: DealInfo) returns (accepted: bool)
    ensures accepted <==> Matches(f, d)
  {
    accepted := AcceptsTrip(f, d);
    if accepted {
      accepted := AcceptsDates(f, d);
    }
  }

  method AcceptsTrip(f: Filters, d: DealInfo) returns (accepted: bool)
    ensures accepted <==> TripMatches(f, d)
  {
    if d.timestamp <= f.minTimestamp {
      return false;
    }
    if f.origin.Some? && f.origin.value != d.origin {
      return false;
    }
    if f.newerThan.Some? && f.newerThan.value > d.timestamp {
      return false;
    }
    if f.roundtrip.Some? {
      if f.roundtrip.value {
        if d.returnDate == 0 {
          return false;
        }
      } else {
        if d.returnDate != 0 {
          return false;
        }
      }
    }
    if f.destinations.Some? && d.destination !in f.destinations.value {
      return false;
    }
    if f.countries.Some? && d.destinationCountry !in f.countries.value {
      return false;
    }
    return true;
  }

  method AcceptsDates(f: Filters, d: DealInfo) returns (accepted: bool)
    ensures accepted <==> DatesMatch(f, d)
  {
    if f.departure.on && (d.departureDate < f.departure.from || d.departureDate > f.departure.to) {
      return false;
    }
    if f.return_.on && (d.returnDate < f.return_.from || d.returnDate > f.return_.to) {
      return false;
    }
    if f.exact.Some? && d.returnDate != f.exact.value && d.departureDate != f.exact.value {
      return false;
    }
    if f.stay.Some? && (d.stayDays < f.stay.value.0 || d.stayDays > f.stay.value.1) {
      return false;
    }
    if f.direct.Some? && f.direct.value != d.direct {
      return false;
    }
    if !OnDays(f.departureDays, d.departureDays) {
      return false;
    }
    if !OnDays(f.returnDays, d.returnDays) {
      return false;
    }
    return true;
  }

  /** The filter that a pair of optional bounds asks for. */
  function Window(from: Option<Date>, to: Option<Date>): DateFilter {
    if from.None? && to.None? then NO_DATES
    else DateFilter(true,
                    if from.Some? then Code(from.value) else 0,
                    if to.Some? then Code(to.value) else UINT32_MAX,
                    if from.Some? && to.Some? then (DaysAfter(to.value, from.value) + 1) % 0x1_0000_0000 else 0)
  }

  /** The part of the query object that fixes dates and size of the result. */
  class SearchQuery {
    var departure: DateFilter
    var return_: DateFilter
    var limit: nat

    constructor ()
      ensures departure == return_ == NO_DATES && limit == 20
    {
      departure, return_, limit := NO_DATES, NO_DATES, 20;
    }

    /** Fails on bounds in the wrong order. */
    method DepartureDates(from: Option<Date>, to: Option<Date>) returns (ok: bool)
      modifies this`departure
      ensures departure == if from.None? && to.None? then old(departure) else Window(from, to)
      ensures ok <==> (from.None? && to.None?) || Window(from, to).from <= Window(from, to).to
    {
      if from.None? && to.None? {
        return true;
      }
      departure := departure.(on := true);
      if from.Some? && to.Some? {
        departure := departure.(duration := (DaysAfter(to.value, from.value) + 1) % 0x1_0000_0000);
      } else {
        departure := departure.(duration := 0);
      }
      departure := departure.(from := if from.Some? then Code(from.value) else 0);
      departure := departure.(to := if to.Some? then Code(to.value) else UINT32_MAX);
      return departure.from <= departure.to;
    }

    method ReturnDates(from: Option<Date>, to: Option<Date>) returns (ok: bool)
      modifies this`return_
      ensures return_ == if from.None? && to.None? then old(return_) else Window(from, to)
      ensures ok <==> (from.None? && to.None?) || Window(from, to).from <= Window(from, to).to
    {
      if from.None? && to.None? {
        return true;
      }
      return_ := return_.(on := true);
      if from.Some? && to.Some? {
        return_ := return_.(duration := (DaysAfter(to.value, from.value) + 1) % 0x1_0000_0000);
      } else {
        return_ := return_.(duration := 0);
      }
      return_ := return_.(from := if from.Some? then Code(from.value) else 0);
      return_ := return_.(to := if to.Some? then Code(to.value) else UINT32_MAX);
      return return_.from <= return_.to;
    }

    /** Accepts 1 to 367. */
    method ResultLimit(value: Option<nat>) returns (ok: bool)
      modifies this`limit
      ensures ok <==> value.None? || 0 < value.value <= 367
      ensures limit == if ok && value.Some? then value.value else old(limit)
    {
      if value.None? {
        return true;
      }
      if value.value > 0 && value.value <= 367 {
        limit := value.value;
        return true;
      }
      return false;
    }
  }

  // ---------------------------------------------------------------- what a closed window admits

  /** A day of the calendar whose year fits its 16-bit field. */
  predicate Usable(d: Date) {
    ValidDate(d) && d.year <= 0xFFFF
  }

  /** A window with both bounds given, in order. */
  predicate Closed(f: DateFilter, from: Date, to: Date) {
    && Usable(from) && Usable(to)
    && Code(from) <= Code(to)
    && f == Window(Some(from), Some(to))
  }

  /** The valid dates a closed window admits are its first day and the `duration - 1` days after
      it, no more and no less. */
  lemma ClosedWindowDays(f: DateFilter, from: Date, to: Date, d: Date)
    requires Closed(f, from, to) && ValidDate(d)
    ensures f.duration == Rdn(to) - Rdn(from) + 1
    ensures InDates(f, Code(d)) <==> exists i: nat :: i < f.duration && d == AddDays(from, i)
  {
    CodeOrderIsDayOrder(from, to);
    CodeOrderIsDayOrder(from, d);
    CodeOrderIsDayOrder(d, to);
    DaysAfterCounts(from, to);
    NumberRange(from);
    NumberRange(to);
    SmallModulo(Rdn(to) - Rdn(from) + 1);
    if InDates(f, Code(d)) {
      var i := Rdn(d) - Rdn(from);
      AddDaysCounts(from, i);
      CodeOrderIsDayOrder(AddDays(from, i), d);
      assert i < f.duration && d == AddDays(from, i);
    }
    if i: nat :| i < f.duration && d == AddDays(from, i) {
      AddDaysCounts(from, i);
      CodeOrderIsDayOrder(d, from);
      CodeOrderIsDayOrder(to, d);
    }
  }

  /** A window of at most eleven days spans fewer than 2^14 codes, even over the end of a year. */
  lemma ShortWindowSpread(f: DateFilter, from: Date, to: Date)
    requires Closed(f, from, to) && f.duration <= 11
    ensures f.to - f.from < 16384
  {
    ClosedWindowDays(f, from, to, from);
    if from.year + 2 <= to.year {
      FarYears(from, to);
      assert false;
    }
    assert Code(to) - Code(from) <= 10000 + 12 * 100 + 31;
  }

  lemma FarYears(from: Date, to: Date)
    requires ValidDate(from) && ValidDate(to) && from.year + 2 <= to.year
    ensures Rdn(to) - Rdn(from) >= 365
  {
    YearBounds(from);
    YearBounds(to);
    YearNumbers(from.year + 1, to.year);
  }
}
