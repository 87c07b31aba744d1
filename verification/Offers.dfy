/** What a caller gives to `addDeal`, how it is stored, and what the filters of a search mean for it. */
module Offers {
  import opened Base
  import opened Calendar
  import opened DealTypes
  import opened SearchQuery

  datatype Offer = Offer(
    origin: nat, destination: nat, country: nat, departure: Date, return_: Option<Date>, direct: bool, price: nat)

  /** One bit per weekday, Monday the lowest. */
  function DayBit(day: nat): bv8
    requires day < 8
  {
    if day == 0 then 1 else if day == 1 then 2 else if day == 2 then 4 else if day == 3 then 8
    else if day == 4 then 16 else if day == 5 then 32 else if day == 6 then 64 else 128
  }

  /** The stored form. The weekday of a return that is not there is whatever the program finds. */
  function InfoOf(o: Offer, noWeekday: bv8): DealInfo
    requires ValidDate(o.departure) && (o.return_.Some? ==> ValidDate(o.return_.value))
  {
    NO_DEAL.(
      origin := o.origin, destination := o.destination, destinationCountry := o.country,
      departureDate := Code(o.departure),
      returnDate := if o.return_.Some? then Code(o.return_.value) else 0,
      direct := o.direct, price := o.price,
      departureDays := DayBit(DayOfWeek(o.departure)),
      returnDays := if o.return_.Some? then DayBit(DayOfWeek(o.return_.value)) else noWeekday,
      stayDays := if o.return_.Some? then Min(255, DaysAfter(o.return_.value, o.departure)) else 255)
  }

  /** What was given, read off the stored form. */
  function OfferOf(d: DealInfo): Offer {
    Offer(d.origin, d.destination, d.destinationCountry, FromCode(d.departureDate),
          if d.returnDate == 0 then None else Some(FromCode(d.returnDate)), d.direct, d.price)
  }

  /** Nothing that was given is lost. */
  lemma StoredOfferComesBack(o: Offer, noWeekday: bv8)
    requires ValidDate(o.departure) && (o.return_.Some? ==> ValidDate(o.return_.value))
    ensures OfferOf(InfoOf(o, noWeekday)) == o
  {
    CodeRoundTrip(o.departure);
    if o.return_.Some? {
      CodeRoundTrip(o.return_.value);
    }
  }

  // ---------------------------------------------------------------- weekdays

  predicate Has(mask: bv8, day: nat)
    requires day < 8
  {
    mask & DayBit(day) != 0
  }

  /** Two masks meet exactly if they have a day in common. */
  lemma MasksMeetIff(a: bv8, b: bv8)
    ensures OnDays(Some(b), a) <==> exists day: nat :: day < 8 && Has(a, day) && Has(b, day)
  {
    if a & b != 0 {
      var day := CommonDay(a, b);
    }
    forall day: nat | day < 8 && Has(a, day) && Has(b, day)
      ensures a & b != 0
    {
      MeetAt(a, b, DayBit(day), day);
    }
  }

  lemma MeetAt(a: bv8, b: bv8, bit: bv8, day: nat)
    requires day < 8 && bit == DayBit(day) && a & bit != 0 && b & bit != 0
    ensures a & b != 0
  {
    EightBits(a, b);
    assert bit == 1 || bit == 2 || bit == 4 || bit == 8 || bit == 16 || bit == 32 || bit == 64 || bit == 128;
  }

  lemma CommonDay(a: bv8, b: bv8) returns (day: nat)
    requires a & b != 0
    ensures day < 8 && Has(a, day) && Has(b, day)
  {
    EightBits(a, b);
    day := if a & 1 != 0 && b & 1 != 0 then 0 else if a & 2 != 0 && b & 2 != 0 then 1
           else if a & 4 != 0 && b & 4 != 0 then 2 else if a & 8 != 0 && b & 8 != 0 then 3
           else if a & 16 != 0 && b & 16 != 0 then 4 else if a & 32 != 0 && b & 32 != 0 then 5
           else if a & 64 != 0 && b & 64 != 0 then 6 else 7;
  }

  lemma EightBits(a: bv8, b: bv8)
    ensures a & b != 0 <==>
              || (a & 1 != 0 && b & 1 != 0) || (a & 2 != 0 && b & 2 != 0) || (a & 4 != 0 && b & 4 != 0)
              || (a & 8 != 0 && b & 8 != 0) || (a & 16 != 0 && b & 16 != 0) || (a & 32 != 0 && b & 32 != 0)
              || (a & 64 != 0 && b & 64 != 0) || (a & 128 != 0 && b & 128 != 0)
  {
  }

  /** A deal passes a weekday filter exactly if the weekday of its date is among the wanted ones. */
  lemma WeekdayFilterIff(o: Offer, noWeekday: bv8, wanted: bv8)
    requires ValidDate(o.departure) && (o.return_.Some? ==> ValidDate(o.return_.value))
    ensures OnDays(Some(wanted), InfoOf(o, noWeekday).departureDays) <==> Has(wanted, DayOfWeek(o.departure))
    ensures o.return_.Some? ==>
              (OnDays(Some(wanted), InfoOf(o, noWeekday).returnDays) <==> Has(wanted, DayOfWeek(o.return_.value)))
  {
    SymmetricMasks(DayBit(DayOfWeek(o.departure)), wanted);
    if o.return_.Some? {
      SymmetricMasks(DayBit(DayOfWeek(o.return_.value)), wanted);
    }
  }

  lemma SymmetricMasks(a: bv8, b: bv8)
    ensures a & b == b & a
  {
  }

  /** Distinct weekdays have distinct bits. */
  lemma OneBitPerDay(day: nat, other: nat)
    requires day < 8 && other < 8
    ensures Has(DayBit(day), other) <==> day == other
  {
  }

  // ---------------------------------------------------------------- stay

  /** Within what a stay filter can ask for, it asks for the number of days from departure to return;
      the longest stays, and one-way deals, count as 255 days. */
  lemma StayFilterIff(o: Offer, noWeekday: bv8, lo: nat, hi: nat)
    requires Usable(o.departure) && o.return_.Some? && Usable(o.return_.value)
    requires Code(o.departure) <= Code(o.return_.value) && hi < 255
    ensures lo <= InfoOf(o, noWeekday).stayDays <= hi
            <==> exists n: nat :: lo <= n <= hi && AddDays(o.departure, n) == o.return_.value
  {
    var dep, ret := o.departure, o.return_.value;
    DaysAfterCounts(dep, ret);
    var days := DaysAfter(ret, dep);
    CodeOrderIsDayOrder(ret, dep);
    if lo <= days <= hi {
      assert AddDays(dep, days) == ret;
    }
    if n: nat :| lo <= n <= hi && AddDays(dep, n) == ret {
      AddDaysCounts(dep, n);
      assert n == days;
    }
  }

  // ---------------------------------------------------------------- the filters, one by one

  /** What is accepted is what was asked for. */
  lemma AcceptedWasAskedFor(f: Filters, d: DealInfo)
    requires Matches(f, d)
    ensures d.timestamp > f.minTimestamp
    ensures f.origin.Some? ==> d.origin == f.origin.value
    ensures f.newerThan.Some? ==> d.timestamp >= f.newerThan.value
    ensures f.roundtrip == Some(true) ==> d.returnDate != 0
    ensures f.roundtrip == Some(false) ==> d.returnDate == 0
    ensures f.destinations.Some? ==> d.destination in f.destinations.value
    ensures f.countries.Some? ==> d.destinationCountry in f.countries.value
    ensures f.departure.on ==> f.departure.from <= d.departureDate && d.departureDate <= f.departure.to
    ensures f.return_.on ==> f.return_.from <= d.returnDate && d.returnDate <= f.return_.to
    ensures f.exact.Some? ==> f.exact.value in {d.departureDate, d.returnDate}
    ensures f.stay.Some? ==> f.stay.value.0 <= d.stayDays && d.stayDays <= f.stay.value.1
    ensures f.direct.Some? ==> d.direct == f.direct.value
    ensures f.departureDays.Some? ==>
              exists day: nat :: day < 8 && Has(d.departureDays, day) && Has(f.departureDays.value, day)
    ensures f.returnDays.Some? ==>
              exists day: nat :: day < 8 && Has(d.returnDays, day) && Has(f.returnDays.value, day)
  {
    if f.departureDays.Some? {
      MasksMeetIff(d.departureDays, f.departureDays.value);
    }
    if f.returnDays.Some? {
      MasksMeetIff(d.returnDays, f.returnDays.value);
    }
  }

  /** Whatever differs from an accepted deal only where nothing was asked, or stays within what was
      asked, is accepted too. */
  lemma WithinWhatWasAsked(f: Filters, d: DealInfo, e: DealInfo)
    requires Matches(f, d)
    requires e.timestamp > f.minTimestamp && (f.newerThan.Some? ==> e.timestamp >= f.newerThan.value)
    requires f.origin.Some? ==> e.origin == d.origin
    requires f.roundtrip.Some? ==> (e.returnDate == 0 <==> d.returnDate == 0)
    requires f.destinations.Some? ==> e.destination == d.destination || e.destination in f.destinations.value
    requires f.countries.Some? ==> e.destinationCountry == d.destinationCountry || e.destinationCountry in f.countries.value
    requires f.departure.on ==> f.departure.from <= e.departureDate && e.departureDate <= f.departure.to
    requires f.return_.on ==> f.return_.from <= e.returnDate && e.returnDate <= f.return_.to
    requires f.exact.Some? ==> f.exact.value in {e.departureDate, e.returnDate}
    requires f.stay.Some? ==> f.stay.value.0 <= e.stayDays && e.stayDays <= f.stay.value.1
    requires f.direct.Some? ==> e.direct == d.direct
    requires f.departureDays.Some? ==>
               exists day: nat :: day < 8 && Has(e.departureDays, day) && Has(f.departureDays.value, day)
    requires f.returnDays.Some? ==>
               exists day: nat :: day < 8 && Has(e.returnDays, day) && Has(f.returnDays.value, day)
    ensures Matches(f, e)
  {
    if f.departureDays.Some? {
      MasksMeetIff(e.departureDays, f.departureDays.value);
    }
    if f.returnDays.Some? {
      MasksMeetIff(e.returnDays, f.returnDays.value);
    }
  }

  /** Nothing asked, nothing refused but what is out of view. */
  lemma NothingAsked(f: Filters, d: DealInfo)
    requires f == Filters(f.minTimestamp, None, None, None, None, None, NO_DATES, NO_DATES, None, None, None, None, None)
    ensures Matches(f, d) <==> d.timestamp > f.minTimestamp
  {
  }
}
