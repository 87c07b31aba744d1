/** Grouping by date, the result is cut to a limit that is computed beforehand. This module says how
    many date groups a request can get at most, and so exactly when the cut can drop a date. */
module DateLimits {
  import opened Base
  import opened Calendar
  import opened DealTypes
  import opened SearchQuery
  import opened DateGroups

  // ---------------------------------------------------------------- days and their codes

  /** The first and the last day that 16-bit years can name. */
  const FIRST_DAY := Date(1, 1, 1)
  const LAST_DAY := Date(0xFFFF, 12, 31)

  ghost predicate IsDate(code: nat) {
    exists x :: Usable(x) && Code(x) == code
  }

  /** The deal's dates are codes of calendar dates and in order, as the server demands of deals that
      are added; a one-way deal has return date 0. */
  ghost predicate DatedDeal(d: DealInfo) {
    && IsDate(d.departureDate)
    && (d.returnDate == 0 || (IsDate(d.returnDate) && d.departureDate <= d.returnDate))
  }

  /** The codes of the days of a closed window. */
  function WindowCodes(from: Date, n: nat): (r: seq<nat>)
    requires ValidDate(from)
    ensures |r| == n && forall i :: 0 <= i < n ==> r[i] == Code(AddDays(from, i))
  {
    if n == 0 then [] else WindowCodes(from, n - 1) + [Code(AddDays(from, n - 1))]
  }

  lemma DistinctDays(from: Date, n: nat)
    requires ValidDate(from)
    ensures NoRepeats(WindowCodes(from, n))
  {
    forall i, j | 0 <= i < j < n
      ensures WindowCodes(from, n)[i] != WindowCodes(from, n)[j]
    {
      AddDaysCounts(from, i);
      AddDaysCounts(from, j);
      CodeOrderIsDayOrder(AddDays(from, i), AddDays(from, j));
    }
  }

  /** The number of days from `lo` to `hi`, both included. */
  function DaysFromTo(lo: Date, hi: Date): nat {
    var n := Rdn(hi) - Rdn(lo) + 1;
    if n > 0 then n else 0
  }

  function Codes(lo: Date, hi: Date): (r: seq<nat>)
    requires ValidDate(lo)
    ensures |r| == DaysFromTo(lo, hi)
  {
    WindowCodes(lo, DaysFromTo(lo, hi))
  }

  lemma CodesAre(lo: Date, hi: Date, code: nat)
    requires ValidDate(lo) && Usable(hi)
    ensures code in Codes(lo, hi) <==> IsDate(code) && Code(lo) <= code <= Code(hi)
  {
    if code in Codes(lo, hi) {
      var i :| 0 <= i < DaysFromTo(lo, hi) && Codes(lo, hi)[i] == code;
      ListedDay(lo, hi, i);
    }
    if IsDate(code) && Code(lo) <= code <= Code(hi) {
      var x :| Usable(x) && Code(x) == code;
      DayIsListed(lo, hi, x);
    }
  }

  lemma ListedDay(lo: Date, hi: Date, i: nat)
    requires ValidDate(lo) && Usable(hi) && i < DaysFromTo(lo, hi)
    ensures Usable(AddDays(lo, i)) && Code(lo) <= Code(AddDays(lo, i)) <= Code(hi)
  {
    var x := AddDays(lo, i);
    AddDaysCounts(lo, i);
    CodeOrderIsDayOrder(x, lo);
    CodeOrderIsDayOrder(hi, x);
    EarlierYear(x, hi);
  }

  lemma EarlierYear(x: Date, y: Date)
    requires ValidDate(x) && ValidDate(y) && Code(x) <= Code(y)
    ensures x.year <= y.year
  {
  }

  lemma DayIsListed(lo: Date, hi: Date, x: Date)
    requires ValidDate(lo) && Usable(hi) && Usable(x) && Code(lo) <= Code(x) <= Code(hi)
    ensures Code(x) in Codes(lo, hi)
  {
    CodeOrderIsDayOrder(x, lo);
    CodeOrderIsDayOrder(hi, x);
    var i := Rdn(x) - Rdn(lo);
    AddDaysCounts(lo, i);
    CodeOrderIsDayOrder(AddDays(lo, i), x);
    assert Codes(lo, hi)[i] == Code(x);
  }

  /** The later, and the earlier, of two days. */
  function Later(a: Date, b: Date): Date {
    if Code(a) < Code(b) then b else a
  }

  function Earlier(a: Date, b: Date): Date {
    if Code(a) < Code(b) then a else b
  }

  predicate Within(x: Date, lo: Date, hi: Date) {
    Code(lo) <= Code(x) <= Code(hi)
  }

  // ---------------------------------------------------------------- what a request asks for

  /** The bounds that a request gives. */
  datatype Bounds = Bounds(depFrom: Option<Date>, depTo: Option<Date>, retFrom: Option<Date>, retTo: Option<Date>)

  /** A pair of bounds as the setters accept it: calendar dates, in order. */
  predicate Accepted(from: Option<Date>, to: Option<Date>) {
    && (from.Some? ==> Usable(from.value))
    && (to.Some? ==> Usable(to.value))
    && (from.Some? && to.Some? ==> Code(from.value) <= Code(to.value))
  }

  /** The filters were set from these bounds; an exact date, if given, is a date. */
  ghost predicate SetFrom(f: Filters, w: Bounds) {
    && Accepted(w.depFrom, w.depTo) && f.departure == Window(w.depFrom, w.depTo)
    && Accepted(w.retFrom, w.retTo) && f.return_ == Window(w.retFrom, w.retTo)
    && (f.exact.Some? ==> IsDate(f.exact.value))
  }

  /** Nothing but dates, and perhaps round trips or one-way trips, is asked for. */
  predicate DatesOnly(f: Filters) {
    && f.origin.None? && f.newerThan.None? && f.destinations.None? && f.countries.None?
    && f.stay.None? && f.direct.None? && f.departureDays.None? && f.returnDays.None?
  }

  function Range(from: Option<Date>, to: Option<Date>): nat {
    if from.Some? && to.Some? then (DaysAfter(to.value, from.value) + 1) % 0x1_0000_0000 else 0
  }

  /** Days from the first departure to the last return, or the longer of the two windows. */
  function MaxDuration(w: Bounds): nat {
    if w.depFrom.Some? && w.retTo.Some? then Range(w.depFrom, w.retTo)
    else Max(Range(w.depFrom, w.depTo), Range(w.retFrom, w.retTo))
  }

  /** From first departure to last return if both are given, else the longer window. */
  lemma MaxDurationIs(w: Bounds)
    requires Accepted(w.depFrom, w.depTo) && Accepted(w.retFrom, w.retTo) && Accepted(w.depFrom, w.retTo)
    ensures w.depFrom.Some? && w.retTo.Some? ==>
              exists n: nat :: MaxDuration(w) == n + 1 && AddDays(w.depFrom.value, n) == w.retTo.value
    ensures !(w.depFrom.Some? && w.retTo.Some?) ==>
              && MaxDuration(w) >= Window(w.depFrom, w.depTo).duration && MaxDuration(w) >= Window(w.retFrom, w.retTo).duration
              && MaxDuration(w) in {Window(w.depFrom, w.depTo).duration, Window(w.retFrom, w.retTo).duration}
  {
    if w.depFrom.Some? && w.retTo.Some? {
      var n := LastDayOfRange(w.depFrom.value, w.retTo.value);
    } else {
      WindowDuration(w.depFrom, w.depTo);
      WindowDuration(w.retFrom, w.retTo);
    }
  }

  lemma LastDayOfRange(from: Date, to: Date) returns (n: nat)
    requires Usable(from) && Usable(to) && Code(from) <= Code(to)
    ensures Range(Some(from), Some(to)) == n + 1 && AddDays(from, n) == to
  {
    RangeIs(from, to);
    CodeOrderIsDayOrder(to, from);
    DaysAfterCounts(from, to);
    n := DaysAfter(to, from);
  }

  /** The first and the last day of a window, open ends included. */
  function Lo(from: Option<Date>): Date {
    if from.Some? then from.value else FIRST_DAY
  }

  function Hi(to: Option<Date>): Date {
    if to.Some? then to.value else LAST_DAY
  }

  lemma ExtremeDays(x: Date)
    requires Usable(x)
    ensures Usable(FIRST_DAY) && Usable(LAST_DAY)
    ensures Code(FIRST_DAY) <= Code(x) <= Code(LAST_DAY) && 0 < Code(x) < 0x8000_0000
  {
  }

  lemma BoundsInOrder(from: Option<Date>, to: Option<Date>)
    requires Accepted(from, to)
    ensures Usable(Lo(from)) && Usable(Hi(to)) && Code(Lo(from)) <= Code(Hi(to))
  {
    ExtremeDays(FIRST_DAY);
    ExtremeDays(Lo(from));
    ExtremeDays(Hi(to));
  }

  lemma WindowAdmits(from: Option<Date>, to: Option<Date>, code: nat)
    requires Accepted(from, to) && IsDate(code)
    ensures InDates(Window(from, to), code) <==> Code(Lo(from)) <= code <= Code(Hi(to))
  {
    var x :| Usable(x) && Code(x) == code;
    ExtremeDays(x);
  }

  /** No return date is admitted exactly if no first return is given. */
  lemma WindowAdmitsNoReturn(from: Option<Date>, to: Option<Date>)
    requires Accepted(from, to)
    ensures InDates(Window(from, to), 0) <==> from.None?
  {
    if from.Some? {
      ExtremeDays(from.value);
    }
  }

  predicate RoundTrips(f: Filters) {
    f.roundtrip != Some(false)
  }

  predicate OneWays(f: Filters, w: Bounds) {
    f.roundtrip != Some(true) && w.retFrom.None?
  }

  // ---------------------------------------------------------------- how many groups there can be

  /** Grouping by return date: the days on which a return can be, and one group of one-way deals. */
  function ReturnGroups(f: Filters, w: Bounds): nat {
    (if RoundTrips(f) then DaysFromTo(Later(Lo(w.depFrom), Lo(w.retFrom)), Hi(w.retTo)) else 0)
    + (if OneWays(f, w) then 1 else 0)
  }

  /** Grouping by the exact date `x`: departures of deals that return on it, returns of deals that
      depart on it, and the one-way deals among these. */
  function ExactGroups(f: Filters, w: Bounds, x: Date): nat
    requires ValidDate(x)
  {
    (if RoundTrips(f) && Within(x, Lo(w.retFrom), Hi(w.retTo))
     then DaysFromTo(Lo(w.depFrom), Earlier(Hi(w.depTo), x)) else 0)
    + (if RoundTrips(f) && Within(x, Lo(w.depFrom), Hi(w.depTo))
       then DaysFromTo(Later(Lo(w.retFrom), NextDay(x)), Hi(w.retTo)) else 0)
    + (if OneWays(f, w) && Within(x, Lo(w.depFrom), Hi(w.depTo)) then 1 else 0)
  }

  /** Whether the computed limit is enough, for a caller to check before the search. Grouping by
      departure or by both dates it always is. */
  predicate Fits(r: Prepared, f: Filters, w: Bounds)
    requires r.Ready?
  {
    match r.grouping
    case ByReturn => ReturnGroups(f, w) <= r.limit
    case ByExact(date) => ValidDate(FromCode(date)) && ExactGroups(f, w, FromCode(date)) <= r.limit
    case _ => true
  }

  ghost predicate Good(f: Filters, d: DealInfo) {
    Matches(f, d) && DatedDeal(d)
  }

  ghost predicate AllGood(f: Filters, deals: seq<DealInfo>) {
    forall i :: 0 <= i < |deals| ==> Good(f, deals[i])
  }

  function GroupKeys(g: Grouping, deals: seq<DealInfo>): set<nat> {
    Keys(deals, (d: DealInfo) => GroupKey(g, d))
  }

  /** However many dated deals match, they fall into at most `n` groups. */
  ghost predicate AlwaysFits(f: Filters, g: Grouping, n: nat) {
    forall deals: seq<DealInfo> :: AllGood(f, deals) ==> |GroupKeys(g, deals)| <= n
  }

  // ---------------------------------------------------------------- counting

  lemma {:induction false} CountDistinct<T>(s: set<T>, t: seq<T>)
    requires forall x :: x in s ==> x in t
    ensures |s| <= |t|
  {
    if t == [] {
      assert s == {};
    } else {
      var rest := s - {t[0]};
      forall x | x in rest
        ensures x in t[1..]
      {
        assert x in t && x != t[0];
      }
      CountDistinct(rest, t[1..]);
      assert s <= rest + {t[0]};
      SubsetSize(s, rest + {t[0]});
      UnionSize(rest, t[0]);
    }
  }

  lemma {:induction false} SubsetSize<T>(a: set<T>, b: set<T>)
    requires a <= b
    ensures |a| <= |b|
  {
    if a == {} {
    } else {
      var x :| x in a;
      SubsetSize(a - {x}, b - {x});
    }
  }

  lemma UnionSize<T>(a: set<T>, x: T)
    ensures |a + {x}| <= |a| + 1
  {
    if x in a {
      assert a + {x} == a;
    }
  }

  /** Every group key is listed. */
  ghost predicate Listed(f: Filters, g: Grouping, keys: seq<nat>) {
    forall d :: Good(f, d) ==> GroupKey(g, d) in keys
  }

  /** Some dated deal that matches has this group key. */
  ghost predicate Attained(f: Filters, g: Grouping, k: nat) {
    exists d :: Good(f, d) && GroupKey(g, d) == k
  }

  lemma ListedFits(f: Filters, g: Grouping, keys: seq<nat>, deals: seq<DealInfo>)
    requires Listed(f, g, keys) && AllGood(f, deals)
    ensures |GroupKeys(g, deals)| <= |keys|
  {
    forall k | k in GroupKeys(g, deals)
      ensures k in keys
    {
      var i :| 0 <= i < |deals| && GroupKey(g, deals[i]) == k;
      assert Good(f, deals[i]);
    }
    CountDistinct(GroupKeys(g, deals), keys);
  }

  lemma {:induction false} DealsFor(f: Filters, g: Grouping, keys: seq<nat>) returns (deals: seq<DealInfo>)
    requires forall i :: 0 <= i < |keys| ==> Attained(f, g, keys[i])
    ensures AllGood(f, deals) && |deals| == |keys|
    ensures forall i :: 0 <= i < |keys| ==> GroupKey(g, deals[i]) == keys[i]
  {
    if keys == [] {
      deals := [];
    } else {
      var front := keys[..|keys| - 1];
      deals := DealsFor(f, g, front);
      assert Attained(f, g, keys[|keys| - 1]);
      var d :| Good(f, d) && GroupKey(g, d) == keys[|keys| - 1];
      deals := deals + [d];
    }
  }

  /** If the listed keys are distinct and all attained, their number is the exact bound. */
  lemma FitsIffKeysDo(f: Filters, g: Grouping, keys: seq<nat>, n: nat)
    requires NoRepeats(keys) && Listed(f, g, keys) && forall i :: 0 <= i < |keys| ==> Attained(f, g, keys[i])
    ensures AlwaysFits(f, g, n) <==> |keys| <= n
  {
    if |keys| <= n {
      forall deals: seq<DealInfo> | AllGood(f, deals)
        ensures |GroupKeys(g, deals)| <= n
      {
        ListedFits(f, g, keys, deals);
      }
    } else {
      var deals := DealsFor(f, g, keys);
      forall k | k in keys
        ensures k in GroupKeys(g, deals)
      {
        var i :| 0 <= i < |keys| && keys[i] == k;
        assert deals[i] in deals;
      }
      DistinctFit(keys, GroupKeys(g, deals));
      assert AllGood(f, deals) && |GroupKeys(g, deals)| > n;
    }
  }

  // ---------------------------------------------------------------- deals that match

  /** A deal with these dates that passes every filter but those on dates. */
  function DealOn(f: Filters, dep: nat, ret: nat): DealInfo {
    NO_DEAL.(timestamp := if f.minTimestamp < 0 then 0 else f.minTimestamp + 1, departureDate := dep, returnDate := ret)
  }

  lemma DealOnMatches(f: Filters, w: Bounds, dep: nat, ret: nat)
    requires SetFrom(f, w) && DatesOnly(f)
    requires IsDate(dep) && Code(Lo(w.depFrom)) <= dep <= Code(Hi(w.depTo))
    requires if ret == 0 then OneWays(f, w)
             else RoundTrips(f) && IsDate(ret) && dep <= ret && Code(Lo(w.retFrom)) <= ret <= Code(Hi(w.retTo))
    requires f.exact.Some? ==> dep == f.exact.value || ret == f.exact.value
    ensures Good(f, DealOn(f, dep, ret))
  {
    WindowAdmits(w.depFrom, w.depTo, dep);
    if ret == 0 {
      WindowAdmitsNoReturn(w.retFrom, w.retTo);
    } else {
      WindowAdmits(w.retFrom, w.retTo, ret);
    }
  }

  /** What matching says about the dates of a deal. */
  lemma GoodDates(f: Filters, w: Bounds, d: DealInfo)
    requires SetFrom(f, w) && Good(f, d)
    ensures IsDate(d.departureDate) && Code(Lo(w.depFrom)) <= d.departureDate <= Code(Hi(w.depTo))
    ensures d.returnDate == 0 ==> OneWays(f, w)
    ensures d.returnDate != 0 ==>
              && RoundTrips(f) && IsDate(d.returnDate) && d.departureDate <= d.returnDate
              && Code(Lo(w.retFrom)) <= d.returnDate <= Code(Hi(w.retTo))
  {
    WindowAdmits(w.depFrom, w.depTo, d.departureDate);
    if d.returnDate == 0 {
      WindowAdmitsNoReturn(w.retFrom, w.retTo);
    } else {
      WindowAdmits(w.retFrom, w.retTo, d.returnDate);
    }
  }

  // ---------------------------------------------------------------- grouping by return date

  function ReturnDays(f: Filters, w: Bounds): seq<nat>
    requires ValidDate(Lo(w.depFrom)) && ValidDate(Lo(w.retFrom))
  {
    if RoundTrips(f) then Codes(Later(Lo(w.depFrom), Lo(w.retFrom)), Hi(w.retTo)) else []
  }

  function ReturnKeys(f: Filters, w: Bounds): (r: seq<nat>)
    requires ValidDate(Lo(w.depFrom)) && ValidDate(Lo(w.retFrom))
    ensures |r| == ReturnGroups(f, w)
  {
    ReturnDays(f, w) + if OneWays(f, w) then [0] else []
  }

  lemma ReturnDaysAre(f: Filters, w: Bounds, code: nat)
    requires Accepted(w.depFrom, w.depTo) && Accepted(w.retFrom, w.retTo)
    ensures ValidDate(Lo(w.depFrom)) && ValidDate(Lo(w.retFrom))
    ensures code in ReturnDays(f, w)
            <==> RoundTrips(f) && IsDate(code) && Code(Lo(w.depFrom)) <= code && Code(Lo(w.retFrom)) <= code <= Code(Hi(w.retTo))
  {
    BoundsInOrder(w.depFrom, w.depTo);
    BoundsInOrder(w.retFrom, w.retTo);
    CodesAre(Later(Lo(w.depFrom), Lo(w.retFrom)), Hi(w.retTo), code);
  }

  lemma ReturnKeysListed(f: Filters, w: Bounds)
    requires SetFrom(f, w)
    ensures ValidDate(Lo(w.depFrom)) && ValidDate(Lo(w.retFrom)) && Listed(f, ByReturn, ReturnKeys(f, w))
  {
    ReturnDaysAre(f, w, 0);
    forall d | Good(f, d)
      ensures d.returnDate in ReturnKeys(f, w)
    {
      GoodDates(f, w, d);
      ReturnDaysAre(f, w, d.returnDate);
    }
  }

  lemma ReturnKeyAttained(f: Filters, w: Bounds, k: nat)
    requires SetFrom(f, w) && DatesOnly(f) && f.exact.None?
    requires ValidDate(Lo(w.depFrom)) && ValidDate(Lo(w.retFrom)) && k in ReturnKeys(f, w)
    ensures Attained(f, ByReturn, k)
  {
    BoundsInOrder(w.depFrom, w.depTo);
    if k in ReturnDays(f, w) {
      ReturnDaysAre(f, w, k);
      PositiveCode(k);
    }
    ReturnPossible(f, w, Lo(w.depFrom), k);
  }

  lemma ReturnPossible(f: Filters, w: Bounds, first: Date, ret: nat)
    requires SetFrom(f, w) && DatesOnly(f) && f.exact.None?
    requires Usable(first) && first == Lo(w.depFrom) && Code(first) <= Code(Hi(w.depTo))
    requires if ret == 0 then OneWays(f, w)
             else RoundTrips(f) && IsDate(ret) && Code(first) <= ret && Code(Lo(w.retFrom)) <= ret <= Code(Hi(w.retTo))
    ensures Attained(f, ByReturn, ret)
  {
    var dep := Code(first);
    assert IsDate(dep);
    DealOnMatches(f, w, dep, ret);
    assert GroupKey(ByReturn, DealOn(f, dep, ret)) == ret;
  }

  lemma PositiveCode(code: nat)
    requires IsDate(code)
    ensures 0 < code < 0x8000_0000
  {
    var x :| Usable(x) && Code(x) == code;
    ExtremeDays(x);
  }

  lemma ReturnKeysDistinct(f: Filters, w: Bounds)
    requires Accepted(w.depFrom, w.depTo) && Accepted(w.retFrom, w.retTo)
    ensures ValidDate(Lo(w.depFrom)) && ValidDate(Lo(w.retFrom)) && NoRepeats(ReturnKeys(f, w))
  {
    ReturnDaysAre(f, w, 0);
    if IsDate(0) {
      PositiveCode(0);
    }
    DistinctDays(Later(Lo(w.depFrom), Lo(w.retFrom)), |ReturnDays(f, w)|);
    NoRepeatsTogether(ReturnDays(f, w), if OneWays(f, w) then [0] else []);
  }

  lemma NoRepeatsTogether(s: seq<nat>, t: seq<nat>)
    requires NoRepeats(s) && NoRepeats(t) && forall x :: x in s ==> x !in t
    ensures NoRepeats(s + t)
  {
    forall i, j | 0 <= i < j < |s + t|
      ensures (s + t)[i] != (s + t)[j]
    {
      if i < |s| <= j {
        assert s[i] in s && t[j - |s|] in t;
      }
    }
  }

  lemma ReturnFitsIff(f: Filters, w: Bounds, n: nat)
    requires SetFrom(f, w) && DatesOnly(f) && f.exact.None?
    ensures AlwaysFits(f, ByReturn, n) <==> ReturnGroups(f, w) <= n
  {
    ReturnKeysListed(f, w);
    ReturnKeysDistinct(f, w);
    forall i | 0 <= i < |ReturnKeys(f, w)|
      ensures Attained(f, ByReturn, ReturnKeys(f, w)[i])
    {
      ReturnKeyAttained(f, w, ReturnKeys(f, w)[i]);
    }
    FitsIffKeysDo(f, ByReturn, ReturnKeys(f, w), n);
  }

  // ---------------------------------------------------------------- grouping by an exact date

  /** Codes of return dates with the top bit set. */
  function Marked(s: seq<nat>): (r: seq<nat>)
    ensures |r| == |s| && forall i :: 0 <= i < |s| ==> r[i] == s[i] + 0x8000_0000
  {
    seq(|s|, i requires 0 <= i < |s| => s[i] + 0x8000_0000)
  }

  function DeparturesTo(f: Filters, w: Bounds, x: Date): seq<nat>
    requires ValidDate(Lo(w.depFrom))
  {
    if RoundTrips(f) && Within(x, Lo(w.retFrom), Hi(w.retTo)) then Codes(Lo(w.depFrom), Earlier(Hi(w.depTo), x)) else []
  }

  function ReturnsAfter(f: Filters, w: Bounds, x: Date): seq<nat>
    requires ValidDate(Lo(w.retFrom)) && ValidDate(x)
  {
    if RoundTrips(f) && Within(x, Lo(w.depFrom), Hi(w.depTo))
    then Codes(Later(Lo(w.retFrom), NextDay(x)), Hi(w.retTo)) else []
  }

  function NoReturns(f: Filters, w: Bounds, x: Date): seq<nat> {
    if OneWays(f, w) && Within(x, Lo(w.depFrom), Hi(w.depTo)) then [0] else []
  }

  function ExactKeys(f: Filters, w: Bounds, x: Date): (r: seq<nat>)
    requires ValidDate(Lo(w.depFrom)) && ValidDate(Lo(w.retFrom)) && ValidDate(x)
    ensures |r| == ExactGroups(f, w, x)
  {
    DeparturesTo(f, w, x) + Marked(ReturnsAfter(f, w, x) + NoReturns(f, w, x))
  }

  lemma DeparturesAre(f: Filters, w: Bounds, x: Date, code: nat)
    requires Accepted(w.depFrom, w.depTo) && Accepted(w.retFrom, w.retTo) && Usable(x)
    ensures ValidDate(Lo(w.depFrom))
    ensures code in DeparturesTo(f, w, x)
            <==> && RoundTrips(f) && Within(x, Lo(w.retFrom), Hi(w.retTo)) && IsDate(code)
                 && Code(Lo(w.depFrom)) <= code <= Code(Hi(w.depTo)) && code <= Code(x)
  {
    BoundsInOrder(w.depFrom, w.depTo);
    CodesAre(Lo(w.depFrom), Earlier(Hi(w.depTo), x), code);
  }

  lemma ReturnsAre(f: Filters, w: Bounds, x: Date, code: nat)
    requires Accepted(w.depFrom, w.depTo) && Accepted(w.retFrom, w.retTo) && Usable(x)
    ensures ValidDate(Lo(w.retFrom))
    ensures code in ReturnsAfter(f, w, x)
            <==> && RoundTrips(f) && Within(x, Lo(w.depFrom), Hi(w.depTo)) && IsDate(code)
                 && Code(Lo(w.retFrom)) <= code <= Code(Hi(w.retTo)) && Code(x) < code
  {
    BoundsInOrder(w.retFrom, w.retTo);
    CodesAre(Later(Lo(w.retFrom), NextDay(x)), Hi(w.retTo), code);
    if IsDate(code) {
      var y :| Usable(y) && Code(y) == code;
      NextDayIsLeast(x, y);
    }
  }

  /** Nothing lies between a day and the next. */
  lemma NextDayIsLeast(x: Date, y: Date)
    requires ValidDate(x) && ValidDate(y)
    ensures Code(x) < Code(y) <==> Code(NextDay(x)) <= Code(y)
  {
    NextDayIsNextNumber(x);
    CodeOrderIsDayOrder(x, y);
    CodeOrderIsDayOrder(y, NextDay(x));
  }

  lemma InMarked(s: seq<nat>, code: nat)
    requires code in s
    ensures code + 0x8000_0000 in Marked(s)
  {
    var i :| 0 <= i < |s| && s[i] == code;
    assert Marked(s)[i] == code + 0x8000_0000;
  }

  lemma ExactKeysListed(f: Filters, w: Bounds, x: Date)
    requires SetFrom(f, w) && f.exact == Some(Code(x)) && Usable(x)
    ensures ValidDate(Lo(w.depFrom)) && ValidDate(Lo(w.retFrom)) && Listed(f, ByExact(Code(x)), ExactKeys(f, w, x))
  {
    DeparturesAre(f, w, x, 0);
    ReturnsAre(f, w, x, 0);
    forall d | Good(f, d)
      ensures GroupKey(ByExact(Code(x)), d) in ExactKeys(f, w, x)
    {
      ExactKeyListed(f, w, x, d);
    }
  }

  lemma ExactKeyListed(f: Filters, w: Bounds, x: Date, d: DealInfo)
    requires SetFrom(f, w) && f.exact == Some(Code(x)) && Usable(x) && Good(f, d)
    requires ValidDate(Lo(w.depFrom)) && ValidDate(Lo(w.retFrom))
    ensures GroupKey(ByExact(Code(x)), d) in ExactKeys(f, w, x)
  {
    GoodDates(f, w, d);
    ExtremeDays(x);
    if d.returnDate == Code(x) {
      DeparturesAre(f, w, x, d.departureDate);
    } else {
      if d.returnDate != 0 {
        ReturnsAre(f, w, x, d.returnDate);
        PositiveCode(d.returnDate);
      }
      MarkedKey(d, Code(x));
      InMarked(ReturnsAfter(f, w, x) + NoReturns(f, w, x), d.returnDate);
    }
  }

  lemma MarkedKey(d: DealInfo, date: nat)
    requires d.returnDate != date && d.returnDate < 0x8000_0000
    ensures GroupKey(ByExact(date), d) == d.returnDate + 0x8000_0000
  {
  }

  lemma ExactKeyAttained(f: Filters, w: Bounds, x: Date, k: nat)
    requires SetFrom(f, w) && DatesOnly(f) && f.exact == Some(Code(x)) && Usable(x)
    requires ValidDate(Lo(w.depFrom)) && ValidDate(Lo(w.retFrom)) && k in ExactKeys(f, w, x)
    ensures Attained(f, ByExact(Code(x)), k)
  {
    ExtremeDays(x);
    if k in DeparturesTo(f, w, x) {
      DeparturesAre(f, w, x, k);
      DealOnMatches(f, w, k, Code(x));
      assert GroupKey(ByExact(Code(x)), DealOn(f, k, Code(x))) == k;
    } else {
      var rets := ReturnsAfter(f, w, x) + NoReturns(f, w, x);
      var i :| 0 <= i < |rets| && Marked(rets)[i] == k;
      ReturnAttained(f, w, x, rets[i]);
      MarkedKey(DealOn(f, Code(x), rets[i]), Code(x));
    }
  }

  lemma ReturnAttained(f: Filters, w: Bounds, x: Date, ret: nat)
    requires SetFrom(f, w) && DatesOnly(f) && f.exact == Some(Code(x)) && Usable(x)
    requires ValidDate(Lo(w.retFrom)) && ret in ReturnsAfter(f, w, x) + NoReturns(f, w, x)
    ensures Good(f, DealOn(f, Code(x), ret)) && ret != Code(x) && ret < 0x8000_0000
  {
    ExtremeDays(x);
    if ret in ReturnsAfter(f, w, x) {
      ReturnsAre(f, w, x, ret);
      PositiveCode(ret);
    }
    DealOnMatches(f, w, Code(x), ret);
  }

  lemma MarkedDistinct(s: seq<nat>)
    requires NoRepeats(s)
    ensures NoRepeats(Marked(s))
  {
  }

  lemma ExactKeysDistinct(f: Filters, w: Bounds, x: Date)
    requires Accepted(w.depFrom, w.depTo) && Accepted(w.retFrom, w.retTo) && Usable(x)
    ensures ValidDate(Lo(w.depFrom)) && ValidDate(Lo(w.retFrom)) && NoRepeats(ExactKeys(f, w, x))
  {
    DeparturesAre(f, w, x, 0);
    ReturnsAre(f, w, x, 0);
    if IsDate(0) {
      PositiveCode(0);
    }
    var deps, rets, none := DeparturesTo(f, w, x), ReturnsAfter(f, w, x), NoReturns(f, w, x);
    DistinctDays(Lo(w.depFrom), |deps|);
    DistinctDays(Later(Lo(w.retFrom), NextDay(x)), |rets|);
    NoRepeatsTogether(rets, none);
    MarkedDistinct(rets + none);
    forall k | k in deps
      ensures k !in Marked(rets + none)
    {
      DeparturesAre(f, w, x, k);
      PositiveCode(k);
    }
    NoRepeatsTogether(deps, Marked(rets + none));
  }

  lemma ExactFitsIff(f: Filters, w: Bounds, x: Date, n: nat)
    requires SetFrom(f, w) && DatesOnly(f) && f.exact == Some(Code(x)) && Usable(x)
    ensures AlwaysFits(f, ByExact(Code(x)), n) <==> ExactGroups(f, w, x) <= n
  {
    ExactKeysListed(f, w, x);
    ExactKeysDistinct(f, w, x);
    var keys := ExactKeys(f, w, x);
    forall i | 0 <= i < |keys|
      ensures Attained(f, ByExact(Code(x)), keys[i])
    {
      ExactKeyAttained(f, w, x, keys[i]);
    }
    FitsIffKeysDo(f, ByExact(Code(x)), keys, n);
  }

  // ---------------------------------------------------------------- grouping by departure or both

  lemma AdmittedCode(f: DateFilter, from: Date, to: Date, code: nat)
    requires Closed(f, from, to) && f.on && InDates(f, code)
    requires IsDate(code)
    ensures code in WindowCodes(from, f.duration)
  {
    var x :| Usable(x) && Code(x) == code;
    ClosedWindowDays(f, from, to, x);
    var i: nat :| i < f.duration && x == AddDays(from, i);
    assert WindowCodes(from, f.duration)[i] == code;
  }

  lemma DepartureLimit(f: Filters, deals: seq<DealInfo>, from: Date, to: Date)
    requires Closed(f.departure, from, to) && AllGood(f, deals)
    ensures |GroupKeys(ByDeparture, deals)| <= f.departure.duration
  {
    var keys := WindowCodes(from, f.departure.duration);
    forall d | Good(f, d)
      ensures GroupKey(ByDeparture, d) in keys
    {
      AdmittedCode(f.departure, from, to, d.departureDate);
    }
    ListedFits(f, ByDeparture, keys, deals);
  }

  function RowKeys(dep: nat, rets: seq<nat>): (r: seq<nat>)
    ensures |r| == |rets|
    ensures forall e :: e in rets ==> CombinationKey(dep, e) in r
  {
    if rets == [] then [] else [CombinationKey(dep, rets[0])] + RowKeys(dep, rets[1..])
  }

  /** All pairs of codes, as keys. */
  function PairKeys(deps: seq<nat>, rets: seq<nat>): seq<nat> {
    if deps == [] then [] else RowKeys(deps[0], rets) + PairKeys(deps[1..], rets)
  }

  lemma {:induction false} PairKeysCount(deps: seq<nat>, rets: seq<nat>)
    ensures |PairKeys(deps, rets)| == |deps| * |rets|
  {
    if deps == [] {
    } else {
      PairKeysCount(deps[1..], rets);
      assert |deps| * |rets| == |rets| + (|deps| - 1) * |rets|;
    }
  }

  lemma {:induction false} PairKeyListed(deps: seq<nat>, rets: seq<nat>, d: nat, e: nat)
    requires d in deps && e in rets
    ensures CombinationKey(d, e) in PairKeys(deps, rets)
  {
    if d == deps[0] {
    } else {
      PairKeyListed(deps[1..], rets, d, e);
    }
  }

  lemma BothLimit(f: Filters, deals: seq<DealInfo>, depFrom: Date, depTo: Date, retFrom: Date, retTo: Date)
    requires Closed(f.departure, depFrom, depTo) && Closed(f.return_, retFrom, retTo) && AllGood(f, deals)
    ensures |GroupKeys(ByBoth, deals)| <= f.departure.duration * f.return_.duration
  {
    var deps := WindowCodes(depFrom, f.departure.duration);
    var rets := WindowCodes(retFrom, f.return_.duration);
    forall d | Good(f, d)
      ensures d.departureDate in deps && d.returnDate in rets
    {
      AdmittedPair(f, d, depFrom, depTo, retFrom, retTo);
    }
    PairsFit(f, deals, deps, rets);
  }

  lemma PairsFit(f: Filters, deals: seq<DealInfo>, deps: seq<nat>, rets: seq<nat>)
    requires forall d :: Good(f, d) ==> d.departureDate in deps && d.returnDate in rets
    requires AllGood(f, deals)
    ensures |GroupKeys(ByBoth, deals)| <= |deps| * |rets|
  {
    forall d | Good(f, d)
      ensures GroupKey(ByBoth, d) in PairKeys(deps, rets)
    {
      PairKeyListed(deps, rets, d.departureDate, d.returnDate);
    }
    ListedFits(f, ByBoth, PairKeys(deps, rets), deals);
    PairKeysCount(deps, rets);
  }

  lemma AdmittedPair(f: Filters, d: DealInfo, depFrom: Date, depTo: Date, retFrom: Date, retTo: Date)
    requires Closed(f.departure, depFrom, depTo) && Closed(f.return_, retFrom, retTo)
    requires Matches(f, d) && DatedDeal(d)
    ensures d.departureDate in WindowCodes(depFrom, f.departure.duration)
    ensures d.returnDate in WindowCodes(retFrom, f.return_.duration)
  {
    AdmittedCode(f.departure, depFrom, depTo, d.departureDate);
    AdmittedCode(f.return_, retFrom, retTo, d.returnDate);
  }

  /** A window has a duration exactly if both its bounds are given. */
  lemma WindowDuration(from: Option<Date>, to: Option<Date>)
    requires Accepted(from, to)
    ensures Window(from, to).duration == Range(from, to)
    ensures Range(from, to) > 0 <==> from.Some? && to.Some?
    ensures Range(from, to) > 0 ==> Closed(Window(from, to), from.value, to.value)
  {
    if from.Some? && to.Some? {
      ClosedWindowDays(Window(from, to), from.value, to.value, from.value);
      CodeOrderIsDayOrder(from.value, to.value);
    }
  }

  /** The computed limit fits its 16-bit field. */
  lemma PreparedLimit(f: Filters, all: bool, maxDuration: nat, limit: nat)
    requires PreSearch(f, all, maxDuration, limit).Ready? && f.exact.None?
    requires (f.departure.duration > 0 ==> f.departure.on) && (f.return_.duration > 0 ==> f.return_.on)
    ensures var r := PreSearch(f, all, maxDuration, limit);
            match r.grouping
            case ByDeparture => f.departure.duration > 1 && r.limit == f.departure.duration
            case ByReturn => f.return_.duration > 0 ==> r.limit == f.return_.duration
            case ByBoth => f.departure.duration > 0 && f.return_.duration > 0
                           && r.limit == f.departure.duration * f.return_.duration
            case ByExact(_) => false
  {
    if all {
      SmallProduct(f.departure.duration, f.return_.duration);
    }
  }

  lemma SmallProduct(a: nat, b: nat)
    requires a <= 11 && b <= 11
    ensures a * b <= 121
  {
  }

  /** Which windows are closed, and what the limit is. */
  lemma PlainPrepared(f: Filters, all: bool, limit: nat, w: Bounds)
    requires SetFrom(f, w) && f.exact.None? && PreSearch(f, all, MaxDuration(w), limit).Ready?
    ensures var r := PreSearch(f, all, MaxDuration(w), limit);
            match r.grouping
            case ByDeparture => ClosedBounds(f.departure, w.depFrom, w.depTo) && r.limit == f.departure.duration
            case ByReturn => w.retFrom.Some? && w.retTo.Some? ==>
                               ClosedBounds(f.return_, w.retFrom, w.retTo) && r.limit == f.return_.duration
            case ByBoth => && ClosedBounds(f.departure, w.depFrom, w.depTo) && ClosedBounds(f.return_, w.retFrom, w.retTo)
                           && r.limit == f.departure.duration * f.return_.duration
            case ByExact(_) => false
  {
    WindowDuration(w.depFrom, w.depTo);
    WindowDuration(w.retFrom, w.retTo);
    PreparedLimit(f, all, MaxDuration(w), limit);
  }

  predicate ClosedBounds(f: DateFilter, from: Option<Date>, to: Option<Date>) {
    from.Some? && to.Some? && Closed(f, from.value, to.value)
  }

  // ---------------------------------------------------------------- the limit

  /** The date that an exact filter names. */
  lemma ExactDate(f: Filters, w: Bounds)
    requires SetFrom(f, w) && f.exact.Some?
    ensures Usable(FromCode(f.exact.value)) && Code(FromCode(f.exact.value)) == f.exact.value
  {
    var x :| Usable(x) && Code(x) == f.exact.value;
    CodeRoundTrip(x);
  }

  lemma GroupingOf(f: Filters, all: bool, maxDuration: nat, limit: nat)
    requires PreSearch(f, all, maxDuration, limit).Ready?
    ensures var g := PreSearch(f, all, maxDuration, limit).grouping;
            if f.exact.Some? then g == ByExact(f.exact.value) else !g.ByExact?
  {
  }

  /** In every way of grouping by date: if the computed limit fits, the matching deals fall into no
      more groups than the limit, whatever else is asked for; so the cut drops no date. */
  lemma LimitCoversEveryDate(f: Filters, all: bool, limit: nat, w: Bounds, deals: seq<DealInfo>)
    requires SetFrom(f, w) && PreSearch(f, all, MaxDuration(w), limit).Ready?
    requires Fits(PreSearch(f, all, MaxDuration(w), limit), f, w) && AllGood(f, deals)
    ensures var r := PreSearch(f, all, MaxDuration(w), limit);
            |GroupKeys(r.grouping, deals)| <= r.limit
  {
    var r := PreSearch(f, all, MaxDuration(w), limit);
    GroupingOf(f, all, MaxDuration(w), limit);
    if f.exact.Some? {
      var x := FromCode(f.exact.value);
      ExactDate(f, w);
      ExactKeysListed(f, w, x);
      ListedFits(f, r.grouping, ExactKeys(f, w, x), deals);
    } else if r.grouping == ByReturn {
      ReturnKeysListed(f, w);
      ListedFits(f, ByReturn, ReturnKeys(f, w), deals);
    } else {
      OtherGroupingsFit(f, all, limit, w, deals);
    }
  }

  lemma OtherGroupingsFit(f: Filters, all: bool, limit: nat, w: Bounds, deals: seq<DealInfo>)
    requires SetFrom(f, w) && f.exact.None? && PreSearch(f, all, MaxDuration(w), limit).Ready?
    requires PreSearch(f, all, MaxDuration(w), limit).grouping != ByReturn && AllGood(f, deals)
    ensures var r := PreSearch(f, all, MaxDuration(w), limit);
            |GroupKeys(r.grouping, deals)| <= r.limit
  {
    PlainPrepared(f, all, limit, w);
    match PreSearch(f, all, MaxDuration(w), limit).grouping {
      case ByDeparture => DepartureLimit(f, deals, w.depFrom.value, w.depTo.value);
      case ByBoth => BothLimit(f, deals, w.depFrom.value, w.depTo.value, w.retFrom.value, w.retTo.value);
    }
  }

  /** For requests by date: the cut to the computed limit can never drop a date exactly if the limit
      fits, which the request alone decides. */
  lemma LimitSufficesIff(f: Filters, all: bool, limit: nat, w: Bounds)
    requires SetFrom(f, w) && DatesOnly(f) && PreSearch(f, all, MaxDuration(w), limit).Ready?
    ensures var r := PreSearch(f, all, MaxDuration(w), limit);
            AlwaysFits(f, r.grouping, r.limit) <==> Fits(r, f, w)
  {
    var r := PreSearch(f, all, MaxDuration(w), limit);
    GroupingOf(f, all, MaxDuration(w), limit);
    if f.exact.Some? {
      ExactDate(f, w);
      ExactFitsIff(f, w, FromCode(f.exact.value), r.limit);
    } else if r.grouping == ByReturn {
      ReturnFitsIff(f, w, r.limit);
    } else {
      forall deals: seq<DealInfo> | AllGood(f, deals)
        ensures |GroupKeys(r.grouping, deals)| <= r.limit
      {
        OtherGroupingsFit(f, all, limit, w, deals);
      }
    }
  }

  // ---------------------------------------------------------------- what that means

  /** A request by date and nothing else. */
  function ByDates(w: Bounds, exact: Option<nat>): Filters {
    Filters(-1, None, None, None, None, None, Window(w.depFrom, w.depTo), Window(w.retFrom, w.retTo),
            exact, None, None, None, None)
  }

  /** With both bounds of the return given, the limit always fits when grouping by return. */
  lemma ClosedReturnFits(f: Filters, all: bool, limit: nat, w: Bounds)
    requires SetFrom(f, w) && f.exact.None? && PreSearch(f, all, MaxDuration(w), limit).Ready?
    requires PreSearch(f, all, MaxDuration(w), limit).grouping == ByReturn && w.retFrom.Some? && w.retTo.Some?
    ensures Fits(PreSearch(f, all, MaxDuration(w), limit), f, w)
  {
    PlainPrepared(f, all, limit, w);
    var from, to := w.retFrom.value, w.retTo.value;
    ClosedWindowDays(f.return_, from, to, from);
    BoundsInOrder(w.depFrom, w.depTo);
    CodeOrderIsDayOrder(from, Lo(w.depFrom));
  }

  /** With an exact date, a first departure and a last return no more than 16 bits of days apart, and no
      one-way deals, the limit always fits. */
  lemma BoundedExactFits(f: Filters, all: bool, limit: nat, w: Bounds)
    requires SetFrom(f, w) && f.exact.Some? && PreSearch(f, all, MaxDuration(w), limit).Ready?
    requires w.depFrom.Some? && w.retTo.Some? && Accepted(w.depFrom, w.retTo) && MaxDuration(w) <= 0xFFFF
    requires !OneWays(f, w)
    ensures Fits(PreSearch(f, all, MaxDuration(w), limit), f, w)
  {
    ExactDate(f, w);
    BoundedExactGroups(f, w, FromCode(f.exact.value));
    DaysAreRange(w.depFrom.value, w.retTo.value);
    ExactPrepared(f, all, MaxDuration(w), limit);
  }

  lemma DaysAreRange(from: Date, to: Date)
    requires Usable(from) && Usable(to) && Code(from) <= Code(to)
    ensures 0 < DaysFromTo(from, to) == Range(Some(from), Some(to))
  {
    RangeIs(from, to);
    CodeOrderIsDayOrder(to, from);
  }

  lemma BoundedExactGroups(f: Filters, w: Bounds, x: Date)
    requires Accepted(w.depFrom, w.depTo) && Accepted(w.retFrom, w.retTo) && Usable(x)
    requires w.depFrom.Some? && w.retTo.Some? && Accepted(w.depFrom, w.retTo) && !OneWays(f, w)
    ensures ExactGroups(f, w, x) <= DaysFromTo(w.depFrom.value, w.retTo.value)
  {
    BoundsInOrder(w.depFrom, w.depTo);
    BoundsInOrder(w.retFrom, w.retTo);
    BeforeAndAfter(w.depFrom.value, Earlier(Hi(w.depTo), x), x, Later(Lo(w.retFrom), NextDay(x)), w.retTo.value);
  }

  lemma ExactPrepared(f: Filters, all: bool, maxDuration: nat, limit: nat)
    requires f.exact.Some? && PreSearch(f, all, maxDuration, limit).Ready? && 0 < maxDuration <= 0xFFFF
    ensures PreSearch(f, all, maxDuration, limit) == Ready(ByExact(f.exact.value), maxDuration)
  {
  }

  /** Days up to `x` and days after it make up no more than all of them. */
  lemma BeforeAndAfter(first: Date, lo: Date, x: Date, hi: Date, last: Date)
    requires ValidDate(first) && ValidDate(lo) && ValidDate(x) && ValidDate(hi) && ValidDate(last)
    requires Code(lo) <= Code(x) && Code(NextDay(x)) <= Code(hi) && Code(first) <= Code(last)
    ensures var before := if Code(x) <= Code(last) then DaysFromTo(first, lo) else 0;
            var after := if Code(first) <= Code(x) then DaysFromTo(hi, last) else 0;
            before + after <= DaysFromTo(first, last)
  {
    NextDayIsNextNumber(x);
    CodeOrderIsDayOrder(x, lo);
    CodeOrderIsDayOrder(hi, NextDay(x));
    CodeOrderIsDayOrder(last, x);
    CodeOrderIsDayOrder(x, first);
    CodeOrderIsDayOrder(last, first);
  }

  /** One day of departure and only a last return: the limit of the request stays, and it fits exactly
      if it leaves room for every day up to the last return and for the one-way deals. */
  lemma LastReturnFitsIff(day: Date, to: Date, limit: nat)
    requires Usable(day) && Usable(to) && Code(day) <= Code(to)
    ensures var w := Bounds(Some(day), Some(day), None, Some(to));
            var r := PreSearch(ByDates(w, None), false, MaxDuration(w), limit);
            r == Ready(ByReturn, limit) && (Fits(r, ByDates(w, None), w) <==> Range(Some(day), Some(to)) + 1 <= limit)
  {
    var w := Bounds(Some(day), Some(day), None, Some(to));
    WindowDuration(Some(day), Some(day));
    ClosedWindowDays(Window(Some(day), Some(day)), day, day, day);
    WindowDuration(Some(day), Some(to));
    ClosedWindowDays(Window(Some(day), Some(to)), day, to, day);
    ExtremeDays(day);
  }

  /** One day of departure and no last return: no limit a request can ask for fits. Dates in requests
      have years of four digits. */
  lemma OpenReturnNeverFits(day: Date, limit: nat)
    requires ValidDate(day) && day.year <= 9999 && limit <= 367
    ensures var w := Bounds(Some(day), Some(day), None, None);
            var r := PreSearch(ByDates(w, None), false, MaxDuration(w), limit);
            r == Ready(ByReturn, limit) && !Fits(r, ByDates(w, None), w)
  {
    var w := Bounds(Some(day), Some(day), None, None);
    WindowDuration(Some(day), Some(day));
    ClosedWindowDays(Window(Some(day), Some(day)), day, day, day);
    ExtremeDays(day);
    YearBounds(day);
    YearBounds(LAST_DAY);
    YearNumbers(day.year + 1, LAST_DAY.year);
  }

  lemma RangeIs(from: Date, to: Date)
    requires Usable(from) && Usable(to) && Code(from) <= Code(to)
    ensures Window(Some(from), Some(to)).duration == Range(Some(from), Some(to)) == Rdn(to) - Rdn(from) + 1
  {
    WindowDuration(Some(from), Some(to));
    ClosedWindowDays(Window(Some(from), Some(to)), from, to, from);
  }

  /** Departure and last return on one day. */
  function OneDay(day: Date): Bounds {
    Bounds(Some(day), Some(day), None, Some(day))
  }

  /** Departure, last return and exact date all on one day: the limit is 1, but there can be two groups,
      same-day returns and one-way deals. */
  lemma ExactOneWayDropsAGroup(day: Date, limit: nat)
    requires Usable(day)
    ensures var f := ByDates(OneDay(day), Some(Code(day)));
            var r := PreSearch(f, false, MaxDuration(OneDay(day)), limit);
            r == Ready(ByExact(Code(day)), 1) && ExactGroups(f, OneDay(day), day) == 2 && !Fits(r, f, OneDay(day))
  {
    OneDayReady(day, limit);
    TwoGroupsOnOneDay(day);
    TooManyGroups(ByDates(OneDay(day), Some(Code(day))), OneDay(day), day, 1);
  }

  lemma OneDayReady(day: Date, limit: nat)
    requires Usable(day)
    ensures PreSearch(ByDates(OneDay(day), Some(Code(day))), false, MaxDuration(OneDay(day)), limit)
            == Ready(ByExact(Code(day)), 1)
  {
    RangeIs(day, day);
    ExactReady(ByDates(OneDay(day), Some(Code(day))), 1, limit, Code(day));
  }

  /** What the checks before a search by exact date amount to. */
  lemma ExactReady(f: Filters, maxDuration: nat, limit: nat, date: nat)
    requires f.exact == Some(date) && 0 < maxDuration
    requires 0 < f.departure.duration <= 367 && f.return_.duration <= 367
    ensures PreSearch(f, false, maxDuration, limit) == Ready(ByExact(date), maxDuration % 0x1_0000)
  {
  }

  lemma TooManyGroups(f: Filters, w: Bounds, x: Date, n: nat)
    requires ValidDate(x) && n < ExactGroups(f, w, x)
    ensures !Fits(Ready(ByExact(Code(x)), n), f, w)
  {
    CodeRoundTrip(x);
  }

  lemma TwoGroupsOnOneDay(day: Date)
    requires Usable(day)
    ensures ExactGroups(ByDates(OneDay(day), Some(Code(day))), OneDay(day), day) == 2
  {
    ExtremeDays(day);
    NextDayIsNextNumber(day);
    NextDayIsLeast(day, day);
    NoDaysBefore(Later(FIRST_DAY, NextDay(day)), day);
  }

  lemma NoDaysBefore(lo: Date, hi: Date)
    requires ValidDate(lo) && ValidDate(hi) && Code(hi) < Code(lo)
    ensures DaysFromTo(lo, hi) == 0
  {
    CodeOrderIsDayOrder(hi, lo);
  }

  /** An exact date on the only day of departure, and the only day of return 65535 days later: the 16-bit
      limit is 0, and the one date there is gets dropped. */
  lemma ExactWideRangeDropsAll(day: Date, last: Date, limit: nat)
    requires Usable(day) && Usable(last) && Rdn(last) - Rdn(day) == 65535
    ensures var w := Bounds(Some(day), Some(day), Some(last), Some(last));
            var f := ByDates(w, Some(Code(day)));
            var r := PreSearch(f, false, MaxDuration(w), limit);
            r == Ready(ByExact(Code(day)), 0) && ExactGroups(f, w, day) == 1 && !Fits(r, f, w)
  {
    CodeOrderIsDayOrder(day, last);
    RangeIs(day, day);
    RangeIs(last, last);
    RangeIs(day, last);
    var w := Bounds(Some(day), Some(day), Some(last), Some(last));
    ExactReady(ByDates(w, Some(Code(day))), 65536, limit, Code(day));
    OneGroupFarAway(day, last);
    TooManyGroups(ByDates(w, Some(Code(day))), w, day, 0);
  }

  lemma OneGroupFarAway(day: Date, last: Date)
    requires Usable(day) && Usable(last) && Code(day) < Code(last)
    ensures var w := Bounds(Some(day), Some(day), Some(last), Some(last));
            ExactGroups(ByDates(w, Some(Code(day))), w, day) == 1
  {
    NextDayIsLeast(day, last);
    if Code(NextDay(day)) == Code(last) {
      CodeOrderIsDayOrder(NextDay(day), last);
    }
  }
}
