/** Grouping by date: the limits checked before a search, the key a deal is grouped under, why the
    32-bit key tells dates apart, and the order of the result. */
module DateGroups {
  import opened Base
  import opened Calendar
  import opened DealTypes
  import opened SearchQuery

  // ---------------------------------------------------------------- exclusive or on naturals

  function Xor(a: nat, b: nat): nat {
    if a == 0 && b == 0 then 0
    else (a % 2 + b % 2) % 2 + 2 * Xor(a / 2, b / 2)
  }

  function Pow2(k: nat): nat {
    if k == 0 then 1 else 2 * Pow2(k - 1)
  }

  lemma {:induction false} XorCancels(a: nat, b: nat, c: nat)
    requires Xor(a, c) == Xor(b, c)
    ensures a == b
    decreases a + b + c
  {
    if a == 0 && b == 0 && c == 0 {
    } else {
      XorUnfold(a, c);
      XorUnfold(b, c);
      XorCancels(a / 2, b / 2, c / 2);
      SameParity(a, b, c);
    }
  }

  lemma SameParity(a: nat, b: nat, c: nat)
    requires (a % 2 + c % 2) % 2 == (b % 2 + c % 2) % 2
    ensures a % 2 == b % 2
  {
  }

  lemma XorUnfold(a: nat, b: nat)
    ensures Xor(a, b) == (a % 2 + b % 2) % 2 + 2 * Xor(a / 2, b / 2)
    ensures Xor(a, b) / 2 == Xor(a / 2, b / 2) && Xor(a, b) % 2 == (a % 2 + b % 2) % 2
  {
  }

  /** `a` shifted left by `k` bits. */
  function Shl(a: nat, k: nat): nat {
    if k == 0 then a else 2 * Shl(a, k - 1)
  }

  lemma {:induction false} ShlMultiplies(a: nat, k: nat)
    ensures Shl(a, k) == a * Pow2(k)
  {
    if k == 0 {
    } else {
      ShlMultiplies(a, k - 1);
      assert 2 * (a * Pow2(k - 1)) == a * (2 * Pow2(k - 1));
    }
  }

  /** The low `k` bits of `x`. */
  function Low(x: nat, k: nat): nat {
    if k == 0 then 0 else x % 2 + 2 * Low(x / 2, k - 1)
  }

  /** One bit at a time: an even number leaves the last bit of the other alone. */
  lemma XorWithEven(even: nat, half: nat, b: nat)
    requires even == 2 * half
    ensures Xor(even, b) / 2 == Xor(half, b / 2) && Xor(even, b) % 2 == b % 2
  {
    XorUnfold(even, b);
    Halved(even, half);
  }

  lemma Halved(even: nat, half: nat)
    requires even == 2 * half
    ensures even / 2 == half && even % 2 == 0
  {
  }

  lemma LowUnfold(x: nat, k: nat)
    requires k > 0
    ensures Low(x, k) == x % 2 + 2 * Low(x / 2, k - 1)
  {
  }

  /** Where `a` was shifted by `k` bits, the low bits of the result are those of `b`. */
  lemma {:induction false} XorLowBits(a: nat, b: nat, k: nat)
    ensures Low(Xor(Shl(a, k), b), k) == Low(b, k)
  {
    if k == 0 {
    } else {
      var x := Xor(Shl(a, k), b);
      XorWithEven(Shl(a, k), Shl(a, k - 1), b);
      XorLowBits(a, b / 2, k - 1);
      LowUnfold(x, k);
      LowUnfold(b, k);
    }
  }

  /** Bit `i` of `x`. */
  predicate Bit(x: nat, i: nat) {
    if i == 0 then x % 2 == 1 else Bit(x / 2, i - 1)
  }

  /** A bit of the exclusive or is set exactly if the two bits differ. */
  lemma {:induction false} XorBits(a: nat, b: nat, i: nat)
    ensures Bit(Xor(a, b), i) <==> Bit(a, i) != Bit(b, i)
  {
    XorUnfold(a, b);
    if i == 0 {
      OddSum(a, b);
    } else {
      XorBits(a / 2, b / 2, i - 1);
    }
  }

  lemma OddSum(a: nat, b: nat)
    ensures (a % 2 + b % 2) % 2 == 1 <==> (a % 2 == 1) != (b % 2 == 1)
  {
  }

  lemma {:induction false} ShlBits(a: nat, k: nat, i: nat)
    ensures Bit(Shl(a, k), i) <==> k <= i && Bit(a, i - k)
  {
    if k == 0 {
    } else {
      Halved(Shl(a, k), Shl(a, k - 1));
      if i > 0 {
        ShlBits(a, k - 1, i - 1);
      }
    }
  }

  /** The low bits of a sum are those of the part that was not shifted. */
  lemma {:induction false} LowBitsOfSum(q: nat, r: nat, k: nat, i: nat)
    requires i < k
    ensures Bit(Shl(q, k) + r, i) <==> Bit(r, i)
  {
    HalfOfSum(Shl(q, k - 1), r);
    if i == 0 {
    } else {
      LowBitsOfSum(q, r / 2, k - 1, i - 1);
    }
  }

  lemma HalfOfSum(half: nat, r: nat)
    ensures (2 * half + r) / 2 == half + r / 2 && (2 * half + r) % 2 == r % 2
  {
  }

  /** Numbers with the same low bits differ by a multiple of 2^k. */
  lemma {:induction false} SameLowBits(x: nat, y: nat, k: nat) returns (q: int)
    requires Low(x, k) == Low(y, k)
    ensures x - y == q * Pow2(k)
  {
    if k == 0 {
      q := x - y;
    } else {
      q := SameLowBits(x / 2, y / 2, k - 1);
      assert x % 2 == y % 2;
      assert x - y == 2 * (x / 2 - y / 2);
      assert 2 * (q * Pow2(k - 1)) == q * (2 * Pow2(k - 1));
    }
  }

  // ---------------------------------------------------------------- the key

  /** The 32-bit value `(departure << 18) ^ return`. */
  function CombinationKey(departure: nat, ret: nat): nat {
    Xor((departure * 0x4_0000) % 0x1_0000_0000, ret)
  }

  /** The key bit by bit: the low 18 bits are those of the return code, the others those of both codes,
      the departure shifted by 18. */
  lemma KeyBits(departure: nat, ret: nat, i: nat)
    requires i < 32
    ensures i < 18 ==> (Bit(CombinationKey(departure, ret), i) <==> Bit(ret, i))
    ensures i >= 18 ==> (Bit(CombinationKey(departure, ret), i) <==> Bit(departure, i - 18) != Bit(ret, i))
  {
    EighteenBits();
    FourteenBits();
    ShiftKeepsLowBits(departure);
    ShlMultiplies(departure % 0x4000, 18);
    XorBits((departure * 0x4_0000) % 0x1_0000_0000, ret, i);
    ShlBits(departure % 0x4000, 18, i);
    if i >= 18 {
      ShlMultiplies(departure / 0x4000, 14);
      LowBitsOfSum(departure / 0x4000, departure % 0x4000, 14, i - 18);
      assert departure == Shl(departure / 0x4000, 14) + departure % 0x4000;
    }
  }

  lemma FourteenBits()
    ensures Pow2(14) == 0x4000
  {
    assert Pow2(2) == 4;
    assert Pow2(4) == 4 * Pow2(2) && Pow2(6) == 4 * Pow2(4) && Pow2(8) == 4 * Pow2(6);
    assert Pow2(10) == 4 * Pow2(8) && Pow2(12) == 4 * Pow2(10) && Pow2(14) == 4 * Pow2(12);
  }

  lemma ShiftKeepsLowBits(x: nat)
    ensures (x * 0x4_0000) % 0x1_0000_0000 == (x % 0x4000) * 0x4_0000
  {
    assert x == 0x4000 * (x / 0x4000) + x % 0x4000;
  }

  lemma EighteenBits()
    ensures Pow2(18) == 0x4_0000
  {
    assert Pow2(2) == 4;
    assert Pow2(4) == 4 * Pow2(2) && Pow2(6) == 4 * Pow2(4) && Pow2(8) == 4 * Pow2(6);
    assert Pow2(10) == 4 * Pow2(8) && Pow2(12) == 4 * Pow2(10) && Pow2(14) == 4 * Pow2(12);
    assert Pow2(16) == 4 * Pow2(14) && Pow2(18) == 4 * Pow2(16);
  }

  /** The key determines the return code, up to multiples of 2^18. */
  lemma KeyFixesReturn(d1: nat, r1: nat, d2: nat, r2: nat) returns (q: int)
    requires CombinationKey(d1, r1) == CombinationKey(d2, r2)
    ensures r1 - r2 == q * 0x4_0000
  {
    EighteenBits();
    ShiftKeepsLowBits(d1);
    ShiftKeepsLowBits(d2);
    ShlMultiplies(d1 % 0x4000, 18);
    ShlMultiplies(d2 % 0x4000, 18);
    XorLowBits(d1 % 0x4000, r1, 18);
    XorLowBits(d2 % 0x4000, r2, 18);
    q := SameLowBits(r1, r2, 18);
  }

  /** The key tells apart any two pairs of codes from two windows of fewer than 2^14 codes. */
  lemma KeyIsInjective(lo: nat, hi: nat, from: nat, to: nat, d1: nat, r1: nat, d2: nat, r2: nat)
    requires lo <= d1 <= hi && lo <= d2 <= hi && hi - lo < 0x4000
    requires from <= r1 <= to && from <= r2 <= to && to - from < 0x4000
    ensures CombinationKey(d1, r1) == CombinationKey(d2, r2) <==> d1 == d2 && r1 == r2
  {
    if CombinationKey(d1, r1) == CombinationKey(d2, r2) {
      var q := KeyFixesReturn(d1, r1, d2, r2);
      assert r1 == r2;
      XorCancels((d1 * 0x4_0000) % 0x1_0000_0000, (d2 * 0x4_0000) % 0x1_0000_0000, r1);
      ShiftKeepsLowBits(d1);
      ShiftKeepsLowBits(d2);
      assert d1 % 0x4000 == d2 % 0x4000;
    }
  }

  // ---------------------------------------------------------------- before the search

  datatype Grouping = ByDeparture | ByReturn | ByExact(date: nat) | ByBoth

  datatype Prepared =
    | Ready(grouping: Grouping, limit: nat)
    | NoInterval
    | IntervalTooLarge
    | CombinationsNeedBoth
    | CombinationsTooLarge

  /** The input checks and the limit, which is a 16-bit field. */
  function PreSearch(f: Filters, allCombinations: bool, maxDuration: nat, limit: nat): Prepared {
    var dep, ret := f.departure, f.return_;
    if dep.duration == 0 && ret.duration == 0 then NoInterval
    else if (dep.on && dep.duration > 367) || (ret.on && ret.duration > 367) then IntervalTooLarge
    else if allCombinations && (dep.duration == 0 || ret.duration == 0) then CombinationsNeedBoth
    else if allCombinations && (dep.duration > 11 || ret.duration > 11) then CombinationsTooLarge
    else if f.exact.Some? then
      Ready(ByExact(f.exact.value), if maxDuration != 0 then maxDuration % 0x1_0000 else limit)
    else if allCombinations then Ready(ByBoth, (dep.duration * ret.duration) % 0x1_0000)
    else if dep.duration <= 1 then
      Ready(ByReturn, if ret.duration != 0 then ret.duration % 0x1_0000 else limit)
    else Ready(ByDeparture, dep.duration % 0x1_0000)
  }

  /** A request is let through exactly if it gives an interval, none longer than 367 days, and, for all
      combinations, two intervals of at most 11 days. */
  lemma ReadyIff(f: Filters, all: bool, maxDuration: nat, limit: nat)
    requires (f.departure.duration > 0 ==> f.departure.on) && (f.return_.duration > 0 ==> f.return_.on)
    ensures PreSearch(f, all, maxDuration, limit).Ready?
            <==> && (f.departure.duration != 0 || f.return_.duration != 0)
                 && f.departure.duration <= 367 && f.return_.duration <= 367
                 && (all ==> 1 <= f.departure.duration <= 11 && 1 <= f.return_.duration <= 11)
  {
  }

  /** What such a request is grouped by, and its limit. */
  lemma ReadyMeans(f: Filters, all: bool, maxDuration: nat, limit: nat)
    requires PreSearch(f, all, maxDuration, limit).Ready?
    requires f.departure.duration <= 367 && f.return_.duration <= 367
    ensures var r := PreSearch(f, all, maxDuration, limit);
            && (f.exact.Some? ==> r.grouping == ByExact(f.exact.value))
            && (f.exact.None? && all ==> r.grouping == ByBoth)
            && (f.exact.None? && !all && f.departure.duration >= 2 ==> r == Ready(ByDeparture, f.departure.duration))
            && (f.exact.None? && !all && f.departure.duration <= 1 && f.return_.duration >= 1 ==>
                  r == Ready(ByReturn, f.return_.duration))
            && (f.exact.None? && !all && f.departure.duration == 1 && f.return_.duration == 0 ==>
                  r == Ready(ByReturn, limit))
  {
  }

  function GroupKey(g: Grouping, d: DealInfo): nat {
    match g
    case ByExact(date) =>
      if date == d.returnDate then d.departureDate
      else if d.returnDate / 0x8000_0000 % 2 == 1 then d.returnDate
      else d.returnDate + 0x8000_0000
    case ByBoth => CombinationKey(d.departureDate, d.returnDate)
    case ByReturn => d.returnDate
    case ByDeparture => d.departureDate
  }

  // ---------------------------------------------------------------- the order of the result

  /** The comparators that sort the result. */
  predicate Before(g: Grouping, a: DealInfo, b: DealInfo) {
    match g
    case ByExact(date) =>
      if date == a.returnDate && date == b.returnDate then a.departureDate < b.departureDate
      else if date == a.departureDate && date == b.departureDate then a.returnDate < b.returnDate
      else date == a.returnDate
    case ByReturn => a.returnDate < b.returnDate
    case _ =>
      if a.departureDate == b.departureDate then a.returnDate < b.returnDate
      else a.departureDate < b.departureDate
  }

  /** A number that orders deals in the same way. */
  function DateRank(g: Grouping, d: DealInfo): int {
    match g
    case ByExact(date) => if d.departureDate == date then 0x1_0000_0000 + d.returnDate else d.departureDate
    case ByReturn => d.returnDate
    case _ => d.departureDate * 0x1_0000_0000 + d.returnDate
  }

  /** On deals that match, with 32-bit dates in order, every comparator compares ranks; in particular
      it is the strict weak order that sorting needs. */
  lemma ComparatorIsRank(g: Grouping, a: DealInfo, b: DealInfo)
    requires forall d :: d == a || d == b ==>
               && d.departureDate < 0x1_0000_0000 && d.returnDate < 0x1_0000_0000
               && (d.returnDate == 0 || d.departureDate <= d.returnDate)
               && (g.ByExact? ==> 0 < g.date && (d.departureDate == g.date || d.returnDate == g.date))
    ensures Before(g, a, b) <==> DateRank(g, a) < DateRank(g, b)
  {
  }

  /** Grouping by both dates puts two matching deals into one group exactly if they agree on both
      dates, although the key keeps only 14 bits of the departure. */
  lemma CombinationGroupsAreDatePairs(f: Filters, maxDuration: nat, limit: nat, a: DealInfo, b: DealInfo,
                                      depFrom: Date, depTo: Date, retFrom: Date, retTo: Date)
    requires PreSearch(f, true, maxDuration, limit).Ready? && f.exact.None?
    requires Closed(f.departure, depFrom, depTo) && Closed(f.return_, retFrom, retTo)
    requires Matches(f, a) && Matches(f, b)
    ensures PreSearch(f, true, maxDuration, limit).grouping == ByBoth
    ensures GroupKey(ByBoth, a) == GroupKey(ByBoth, b)
            <==> a.departureDate == b.departureDate && a.returnDate == b.returnDate
  {
    ShortWindowSpread(f.departure, depFrom, depTo);
    ShortWindowSpread(f.return_, retFrom, retTo);
    KeyIsInjective(f.departure.from, f.departure.to, f.return_.from, f.return_.to,
                   a.departureDate, a.returnDate, b.departureDate, b.returnDate);
  }
}
