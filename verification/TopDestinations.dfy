/** The most wanted destinations of a locale, and the one-minute cache in front of them. */
module TopDestinations {
  import opened Base
  import opened Calendar
  import Q = SearchQuery
  import Sorting

  const CACHE_LIFETIME: nat := 60

  datatype Record = Record(locale: nat, destination: nat, departureDate: nat)

  datatype DstInfo = DstInfo(destination: nat, counter: nat)

  /** What a search filters by. */
  datatype Filter = Filter(locale: nat, departure: Q.DateFilter)

  predicate Wanted(f: Filter, r: Record) {
    r.locale == f.locale && Q.InDates(f.departure, r.departureDate)
  }

  /** The destinations of the matching records, in order. */
  function Destinations(f: Filter, records: seq<Record>): seq<nat> {
    if records == [] then []
    else
      var last := records[|records| - 1];
      Destinations(f, records[..|records| - 1]) + if Wanted(f, last) then [last.destination] else []
  }

  /** The positions of the records that name locale and destination, with a departure in the window if
      one is asked for. */
  function RecordsFor(f: Filter, records: seq<Record>, d: nat): set<nat> {
    set i | 0 <= i < |records| && records[i].locale == f.locale && records[i].destination == d
            && (f.departure.on ==> f.departure.from <= records[i].departureDate && records[i].departureDate <= f.departure.to)
  }

  /** A destination counts as often as the records of the asked locale and dates name it. */
  lemma {:induction false} CountsRecordsOfTheLocale(f: Filter, records: seq<Record>, d: nat)
    ensures multiset(Destinations(f, records))[d] == |RecordsFor(f, records, d)|
  {
    if records == [] {
    } else {
      var n := |records| - 1;
      var front := records[..n];
      CountsRecordsOfTheLocale(f, front, d);
      LastRecordCounts(f, records, d);
      assert multiset(Destinations(f, records))[d]
          == multiset(Destinations(f, front))[d] + if n in RecordsFor(f, records, d) then 1 else 0;
    }
  }

  lemma LastRecordCounts(f: Filter, records: seq<Record>, d: nat)
    requires records != []
    ensures var n := |records| - 1;
            |RecordsFor(f, records, d)|
            == |RecordsFor(f, records[..n], d)| + if n in RecordsFor(f, records, d) then 1 else 0
  {
    var n := |records| - 1;
    var before, after := RecordsFor(f, records[..n], d), RecordsFor(f, records, d);
    assert n !in before;
    if n in after {
      assert after == before + {n};
    } else {
      assert after == before;
    }
  }

  // ---------------------------------------------------------------- ranking

  predicate Descending(s: seq<DstInfo>) {
    forall i, j :: 0 <= i < j < |s| ==> s[i].counter >= s[j].counter
  }

  /** The entries are exactly the destinations of `m`, each once, with its multiplicity. */
  ghost predicate Counts(m: multiset<nat>, s: seq<DstInfo>) {
    forall e: DstInfo ::
      multiset(s)[e] == if e.counter > 0 && e.counter == m[e.destination] then 1 else 0
  }

  /** A complete ranking of the destinations `ds`; the order of equal counters is open. */
  ghost predicate IsRanking(ds: seq<nat>, full: seq<DstInfo>) {
    Descending(full) && Counts(multiset(ds), full)
  }

  function Total(s: seq<DstInfo>): nat {
    if s == [] then 0 else s[0].counter + Total(s[1..])
  }

  lemma {:induction false} TotalOfCounts(m: multiset<nat>, s: seq<DstInfo>)
    requires Counts(m, s)
    ensures Total(s) == |m|
    decreases s
  {
    if s == [] {
      forall d
        ensures d !in m
      {
        assert multiset(s)[DstInfo(d, m[d])] == 0;
      }
      assert m == multiset{};
    } else {
      assert multiset(s)[s[0]] > 0;
      FirstRemoved(m, s);
      TotalOfCounts(m[s[0].destination := 0], s[1..]);
    }
  }

  lemma FirstRemoved(m: multiset<nat>, s: seq<DstInfo>)
    requires Counts(m, s) && s != []
    ensures Counts(m[s[0].destination := 0], s[1..])
  {
    var m' := m[s[0].destination := 0];
    assert s == [s[0]] + s[1..];
    assert multiset(s)[s[0]] > 0;
    forall e: DstInfo
      ensures multiset(s[1..])[e] == if e.counter > 0 && e.counter == m'[e.destination] then 1 else 0
    {
      assert multiset(s)[e] == (if e == s[0] then 1 else 0) + multiset(s[1..])[e];
      assert multiset(s)[e] == if e.counter > 0 && e.counter == m[e.destination] then 1 else 0;
    }
  }

  /** Before truncation the counters add up to the number of matching records. */
  lemma CountersAddUp(f: Filter, records: seq<Record>, full: seq<DstInfo>)
    requires IsRanking(Destinations(f, records), full)
    ensures Total(full) == |Destinations(f, records)|
  {
    TotalOfCounts(multiset(Destinations(f, records)), full);
  }

  lemma EntryOf(ds: seq<nat>, full: seq<DstInfo>, d: nat) returns (i: nat)
    requires IsRanking(ds, full) && d in ds
    ensures i < |full| && full[i] == DstInfo(d, multiset(ds)[d])
  {
    var e := DstInfo(d, multiset(ds)[d]);
    assert multiset(full)[e] == 1;
    assert e in full;
    i :| 0 <= i < |full| && full[i] == e;
  }

  /** Truncation keeps the top: a destination left out is wanted no more often than any that is
      kept; every kept entry carries its true count; entries are dropped only above the limit. */
  lemma TruncationKeepsTheTop(ds: seq<nat>, full: seq<DstInfo>, limit: nat, d: nat, i: nat)
    requires IsRanking(ds, full) && i < |Cut(full, limit)|
    ensures var top := Cut(full, limit);
            && |top| == Min(limit, |full|)
            && top[i].destination in ds && top[i].counter == multiset(ds)[top[i].destination]
            && (d in ds && (forall j :: 0 <= j < |top| ==> top[j].destination != d)
                ==> multiset(ds)[d] <= top[i].counter)
  {
    var top := Cut(full, limit);
    assert forall j :: 0 <= j < |top| ==> full[j] == top[j];
    assert multiset(full)[full[i]] > 0;
    if d in ds && forall j :: 0 <= j < |top| ==> top[j].destination != d {
      var k := EntryOf(ds, full, d);
    }
  }

  // ---------------------------------------------------------------- computing a ranking

  /** The hash of counters. */
  ghost predicate GroupsOk(grouped: map<nat, nat>, ds: seq<nat>) {
    forall d :: (if d in grouped then grouped[d] else 0) == multiset(ds)[d] && (d in grouped <==> d in ds)
  }

  function Rank(e: DstInfo): int {
    0 - e.counter
  }

  /** Larger counters first. */
  method SortByCounter(s: seq<DstInfo>) returns (r: seq<DstInfo>)
    ensures Descending(r) && multiset(r) == multiset(s)
  {
    r := Sorting.Sort(s, Rank);
    assert forall i :: 0 <= i < |r| ==> Rank(r[i]) == 0 - r[i].counter;
  }

  /** Entries made from the counters of the destinations in `done`. */
  ghost predicate Listed(grouped: map<nat, nat>, done: set<nat>, s: seq<DstInfo>) {
    forall e: DstInfo ::
      multiset(s)[e] == if e.destination in done && e.destination in grouped
                           && grouped[e.destination] == e.counter then 1 else 0
  }

  lemma ListOne(grouped: map<nat, nat>, done: set<nat>, s: seq<DstInfo>, d: nat)
    requires Listed(grouped, done, s) && d in grouped && d !in done
    ensures Listed(grouped, done + {d}, s + [DstInfo(d, grouped[d])])
  {
    forall e: DstInfo
      ensures multiset(s + [DstInfo(d, grouped[d])])[e]
              == if e.destination in done + {d} && e.destination in grouped
                    && grouped[e.destination] == e.counter then 1 else 0
    {
      assert multiset(s)[e] == if e.destination in done && e.destination in grouped
                                  && grouped[e.destination] == e.counter then 1 else 0;
    }
  }

  lemma ListedCounts(grouped: map<nat, nat>, ds: seq<nat>, s: seq<DstInfo>)
    requires GroupsOk(grouped, ds) && Listed(grouped, grouped.Keys, s)
    ensures Counts(multiset(ds), s)
  {
    forall e: DstInfo
      ensures multiset(s)[e] == if e.counter > 0 && e.counter == multiset(ds)[e.destination] then 1 else 0
    {
      assert e.destination in grouped <==> e.destination in ds;
    }
  }

  /** The search object. */
  class TopDstSearchQuery {
    const filter: Filter
    const limit: nat
    var grouped: map<nat, nat>

    constructor (filter: Filter, limit: nat)
      ensures this.filter == filter && this.limit == limit && grouped == map[]
    {
      this.filter, this.limit, grouped := filter, limit, map[];
    }

    method ProcessElement(r: Record, ghost ds: seq<nat>)
      requires GroupsOk(grouped, ds)
      modifies this
      ensures GroupsOk(grouped, ds + if Wanted(filter, r) then [r.destination] else [])
    {
      if filter.locale != r.locale {
        return;
      }
      if filter.departure.on
         && (r.departureDate < filter.departure.from || r.departureDate > filter.departure.to)
      {
        return;
      }
      var d := r.destination;
      grouped := grouped[d := (if d in grouped then grouped[d] else 0) + 1];
      assert forall x :: x in ds + [d] <==> x in ds || x == d;
    }

    method ListDestinations() returns (list: seq<DstInfo>)
      ensures Listed(grouped, grouped.Keys, list)
    {
      list := [];
      var left := grouped.Keys;
      while left != {}
        invariant left <= grouped.Keys
        invariant Listed(grouped, grouped.Keys - left, list)
      {
        var d :| d in left;
        ListOne(grouped, grouped.Keys - left, list, d);
        assert grouped.Keys - left + {d} == grouped.Keys - (left - {d});
        list := list + [DstInfo(d, grouped[d])];
        left := left - {d};
      }
      assert grouped.Keys - left == grouped.Keys;
    }

    /** The cut of a complete ranking of what the scan showed. */
    method Exec(records: seq<Record>) returns (result: seq<DstInfo>, ghost full: seq<DstInfo>)
      modifies this
      ensures IsRanking(Destinations(filter, records), full) && result == Cut(full, limit)
    {
      grouped := map[];
      var i := 0;
      while i < |records|
        invariant 0 <= i <= |records|
        invariant GroupsOk(grouped, Destinations(filter, records[..i]))
      {
        assert records[..i + 1][..i] == records[..i];
        ProcessElement(records[i], Destinations(filter, records[..i]));
        i := i + 1;
      }
      assert records[..i] == records;
      var list := ListDestinations();
      ListedCounts(grouped, Destinations(filter, records), list);
      result := SortByCounter(list);
      full := result;
      if |result| > limit {
        result := result[..limit];
      }
    }
  }

  // ---------------------------------------------------------------- cache

  /** A value and the last second it may be used in. */
  datatype Cache = Cache(value: seq<DstInfo>, until: nat)

  function NewCache(value: seq<DstInfo>, lifetime: nat, now: nat): Cache {
    Cache(value, now + lifetime)
  }

  predicate IsExpired(c: Cache, now: nat) {
    c.until < now
  }

  datatype Ask = Ask(locale: nat, from: Option<Date>, to: Option<Date>, limit: Option<nat>)

  predicate Dated(a: Ask) {
    a.from.Some? || a.to.Some?
  }

  /** The cached answer; empty is a miss. */
  function CachedAnswer(cache: map<nat, Cache>, a: Ask, now: nat): seq<DstInfo> {
    if Dated(a) || a.locale !in cache || IsExpired(cache[a.locale], now) then []
    else
      var value := cache[a.locale].value;
      if a.limit.Some? && |value| < a.limit.value then []
      else if a.limit.Some? then Cut(value, a.limit.value)
      else value
  }

  /** Looking up drops an expired entry. */
  function AfterLookup(cache: map<nat, Cache>, a: Ask, now: nat): map<nat, Cache> {
    if !Dated(a) && a.locale in cache && IsExpired(cache[a.locale], now) then cache - {a.locale} else cache
  }

  function AfterSave(cache: map<nat, Cache>, a: Ask, result: seq<DstInfo>, now: nat): map<nat, Cache> {
    if result == [] || Dated(a) then cache else cache[a.locale := NewCache(result, CACHE_LIFETIME, now)]
  }

  predicate LimitOk(a: Ask) {
    a.limit.Some? ==> 0 < a.limit.value <= 367
  }

  function LimitOf(a: Ask): nat {
    if a.limit.Some? then a.limit.value else 20
  }

  predicate DatesOk(a: Ask) {
    var w := Q.Window(a.from, a.to);
    Dated(a) ==> w.from <= w.to
  }

  function FilterOf(a: Ask): Filter {
    Filter(a.locale, Q.Window(a.from, a.to))
  }

  datatype Answer = Refused | Served(result: seq<DstInfo>)

  /** The answer and the cache afterwards, if a fresh search comes to the ranking `full`; the clock
      reads `now` at the lookup and `later` when the result is saved. */
  function Respond(cache: map<nat, Cache>, a: Ask, full: seq<DstInfo>, now: nat, later: nat)
    : (Answer, map<nat, Cache>)
  {
    var hit, kept := CachedAnswer(cache, a, now), AfterLookup(cache, a, now);
    if hit != [] then (Served(hit), kept)
    else if !DatesOk(a) || !LimitOk(a) then (Refused, kept)
    else
      var result := Cut(full, LimitOf(a));
      (Served(result), AfterSave(kept, a, result, later))
  }

  class TopDstDatabase {
    var cache: map<nat, Cache>

    constructor ()
      ensures cache == map[]
    {
      cache := map[];
    }

    method GetCachedResult(a: Ask, now: nat) returns (result: seq<DstInfo>)
      modifies this
      ensures result == CachedAnswer(old(cache), a, now) && cache == AfterLookup(old(cache), a, now)
      ensures forall l :: l in cache <==>
                l in old(cache) && !(l == a.locale && a.from == None && a.to == None && old(cache)[l].until < now)
      ensures forall l :: l in cache ==> cache[l] == old(cache)[l]
    {
      if a.from.Some? || a.to.Some? {
        return [];
      }
      if a.locale !in cache {
        return [];
      }
      if IsExpired(cache[a.locale], now) {
        cache := cache - {a.locale};
        return [];
      }
      result := cache[a.locale].value;
      if a.limit.Some? {
        if |result| < a.limit.value {
          return [];
        }
        if |result| > a.limit.value {
          result := result[..a.limit.value];
        }
      }
    }

    method SaveResultToCache(a: Ask, result: seq<DstInfo>, now: nat)
      modifies this
      ensures cache == AfterSave(old(cache), a, result, now)
      ensures cache == if result != [] && a.from == None && a.to == None
                       then old(cache)[a.locale := Cache(result, now + 60)] else old(cache)
    {
      if |result| == 0 || a.from.Some? || a.to.Some? {
        return;
      }
      if a.locale in cache {
        cache := cache - {a.locale};
      }
      cache := cache[a.locale := NewCache(result, CACHE_LIFETIME, now)];
    }

    /** `records` is what a scan of the table shows. */
    method GetLocaleTop(a: Ask, records: seq<Record>, now: nat, later: nat)
      returns (r: Answer, ghost full: seq<DstInfo>)
        modifies this
      ensures r.Served? && CachedAnswer(old(cache), a, now) == [] ==>
                IsRanking(Destinations(FilterOf(a), records), full)
      ensures (r, cache) == Respond(old(cache), a, full, now, later)
    {
      full := [];
      var hit := GetCachedResult(a, now);
      if |hit| > 0 {
        return Served(hit), full;
      }
      var settings := new Q.SearchQuery();
      var datesOk := settings.DepartureDates(a.from, a.to);
      if !datesOk {
        return Refused, full;
      }
      var limitOk := settings.ResultLimit(a.limit);
      if !limitOk {
        return Refused, full;
      }
      var query := new TopDstSearchQuery(Filter(a.locale, settings.departure), settings.limit);
      var result;
      result, full := query.Exec(records);
      SaveResultToCache(a, result, later);
      return Served(result), full;
    }
  }

  // ---------------------------------------------------------------- runs

  /** A ranking that was saved: for which locale, when, computed from which records, cut to which
      limit. */
  datatype Save = Save(locale: nat, time: nat, records: seq<Record>, full: seq<DstInfo>, limit: nat)

  datatype Server = Server(now: nat, records: seq<Record>, cache: map<nat, Cache>, saves: seq<Save>)

  /** Time passes; what a scan shows changes, as records are added by any process or expire; a
      request is answered, which may take some seconds. */
  datatype Step =
    | Tick(seconds: nat)
    | Change(records: seq<Record>)
    | Request(ask: Ask, full: seq<DstInfo>, seconds: nat)

  ghost predicate Enabled(s: Server, step: Step) {
    step.Request? ==>
      IsRanking(Destinations(FilterOf(step.ask), s.records), step.full)
  }

  /** The request is answered from the cache. */
  predicate Hit(s: Server, a: Ask) {
    CachedAnswer(s.cache, a, s.now) != []
  }

  /** The request computes a result and puts it into the cache. */
  predicate Stores(s: Server, a: Ask, full: seq<DstInfo>) {
    !Hit(s, a) && !Dated(a) && LimitOk(a) && full != []
  }

  ghost function Apply(s: Server, step: Step): Server
    requires Enabled(s, step)
  {
    match step
    case Tick(seconds) => s.(now := s.now + seconds)
    case Change(records) => s.(records := records)
    case Request(a, full, seconds) =>
      var later := s.now + seconds;
      s.(now := later, cache := Respond(s.cache, a, full, s.now, later).1,
         saves := s.saves + (if Stores(s, a, full) then [Save(a.locale, later, s.records, full, LimitOf(a))] else []))
  }

  ghost predicate Explains(sv: Save, locale: nat, c: Cache, now: nat) {
    && sv.locale == locale && sv.time <= now
    && IsRanking(Destinations(Filter(locale, Q.NO_DATES), sv.records), sv.full)
    && 0 < sv.limit <= 367 && c == Cache(Cut(sv.full, sv.limit), sv.time + CACHE_LIFETIME)
  }

  ghost predicate Explained(saves: seq<Save>, locale: nat, c: Cache, now: nat) {
    exists i :: 0 <= i < |saves| && Explains(saves[i], locale, c, now)
  }

  /** Everything in the cache is the cut of a ranking that was saved. */
  ghost predicate Inv(s: Server) {
    forall l :: l in s.cache ==> Explained(s.saves, l, s.cache[l], s.now)
  }

  lemma ExplainedLater(saves: seq<Save>, more: seq<Save>, locale: nat, c: Cache, now: nat, later: nat)
    requires Explained(saves, locale, c, now) && now <= later
    ensures Explained(saves + more, locale, c, later)
  {
    var i :| 0 <= i < |saves| && Explains(saves[i], locale, c, now);
    assert (saves + more)[i] == saves[i];
  }

  lemma StepKeepsInv(s: Server, step: Step)
    requires Inv(s) && Enabled(s, step)
    ensures Inv(Apply(s, step))
  {
    match step {
      case Tick(_) => NothingNewKeepsInv(s, Apply(s, step));
      case Change(_) => NothingNewKeepsInv(s, Apply(s, step));
      case Request(a, full, seconds) =>
        if Stores(s, a, full) {
          StoreKeepsInv(s, a, full, seconds);
        } else {
          NothingStored(s, a, full, seconds);
          NothingNewKeepsInv(s, Apply(s, step));
        }
    }
  }

  /** Time passing and entries dropped from the cache need no new explanation. */
  lemma NothingNewKeepsInv(s: Server, s': Server)
    requires Inv(s) && s.now <= s'.now && s'.saves == s.saves
    requires forall l :: l in s'.cache ==> l in s.cache && s'.cache[l] == s.cache[l]
    ensures Inv(s')
  {
    forall l | l in s'.cache
      ensures Explained(s'.saves, l, s'.cache[l], s'.now)
    {
      ExplainedLater(s.saves, [], l, s.cache[l], s.now, s'.now);
      assert s.saves + [] == s.saves;
    }
  }

  lemma NothingStored(s: Server, a: Ask, full: seq<DstInfo>, seconds: nat)
    requires Enabled(s, Request(a, full, seconds)) && !Stores(s, a, full)
    ensures var s' := Apply(s, Request(a, full, seconds));
            && s'.saves == s.saves
            && forall l :: l in s'.cache ==> l in s.cache && s'.cache[l] == s.cache[l]
  {
  }

  lemma StoreKeepsInv(s: Server, a: Ask, full: seq<DstInfo>, seconds: nat)
    requires Inv(s) && Enabled(s, Request(a, full, seconds)) && Stores(s, a, full)
    ensures Inv(Apply(s, Request(a, full, seconds)))
  {
    var s' := Apply(s, Request(a, full, seconds));
    var sv := Save(a.locale, s'.now, s.records, full, LimitOf(a));
    assert s'.saves == s.saves + [sv];
    forall l | l in s'.cache
      ensures Explained(s'.saves, l, s'.cache[l], s'.now)
    {
      if l == a.locale {
        assert Explains(s'.saves[|s.saves|], l, s'.cache[l], s'.now);
      } else {
        ExplainedLater(s.saves, [sv], l, s.cache[l], s.now, s'.now);
      }
    }
  }

  ghost predicate Run(states: seq<Server>, steps: seq<Step>) {
    && |states| == |steps| + 1
    && states[0].cache == map[] && states[0].saves == []
    && forall i :: 0 <= i < |steps| ==> Linked(states[i], steps[i], states[i + 1])
  }

  ghost predicate Linked(s: Server, step: Step, s': Server) {
    Enabled(s, step) && s' == Apply(s, step)
  }

  lemma {:induction false} RunKeepsInv(states: seq<Server>, steps: seq<Step>, i: nat)
    requires Run(states, steps) && i < |states|
    ensures Inv(states[i])
  {
    if i == 0 {
    } else {
      RunKeepsInv(states, steps, i - 1);
      assert Linked(states[i - 1], steps[i - 1], states[i]);
      StepKeepsInv(states[i - 1], steps[i - 1]);
    }
  }

  /** The ranking was saved for the locale of `a` no more than a minute before `now`. */
  ghost predicate Recent(sv: Save, a: Ask, now: nat) {
    && sv.locale == a.locale && sv.time <= now <= sv.time + 60
    && IsRanking(Destinations(Filter(a.locale, Q.NO_DATES), sv.records), sv.full)
  }

  /** In every run, an answer from the cache for the limit `k` is exactly the first `k` entries of a
      complete ranking for the same locale, saved at most 60 seconds earlier: what a fresh search
      with that limit would have answered then. Without a limit it is a prefix of such a ranking,
      cut to the limit of the request that saved it. */
  lemma CachedAnswersAreRecent(states: seq<Server>, steps: seq<Step>, i: nat, a: Ask)
    requires Run(states, steps) && i < |states| && Hit(states[i], a)
    ensures exists j :: 0 <= j < |states[i].saves|
              && (var sv := states[i].saves[j];
                  var answer := CachedAnswer(states[i].cache, a, states[i].now);
                  && Recent(sv, a, states[i].now)
                  && (match a.limit
                      case Some(k) => 0 < k == |answer| <= |sv.full| && answer == sv.full[..k]
                      case None => answer == Cut(sv.full, sv.limit)))
  {
    var s := states[i];
    RunKeepsInv(states, steps, i);
    assert Explained(s.saves, a.locale, s.cache[a.locale], s.now);
    var j :| 0 <= j < |s.saves| && Explains(s.saves[j], a.locale, s.cache[a.locale], s.now);
    var sv := s.saves[j];
    CutTwice(sv.full, sv.limit, if a.limit.Some? then a.limit.value else 0);
    assert Recent(sv, a, s.now);
  }

  lemma CutTwice(s: seq<DstInfo>, l: nat, k: nat)
    requires k <= |Cut(s, l)|
    ensures k <= |s| && Cut(Cut(s, l), k) == s[..k]
  {
  }

  /** A result that is computed for a request without dates is in the cache afterwards. */
  lemma StoredResultIsCached(s: Server, a: Ask, full: seq<DstInfo>, seconds: nat)
    requires Enabled(s, Request(a, full, seconds)) && !Hit(s, a) && a.from == None && a.to == None && full != []
    requires a.limit.Some? ==> 1 <= a.limit.value <= 367
    ensures var s' := Apply(s, Request(a, full, seconds));
            && a.locale in s'.cache
            && s'.cache[a.locale] == Cache(Cut(full, if a.limit.Some? then a.limit.value else 20), s.now + seconds + 60)
            && Respond(s.cache, a, full, s.now, s.now + seconds).0
               == Served(Cut(full, if a.limit.Some? then a.limit.value else 20))
  {
  }

  /** When the cache answers: for a minute, to and including its last second, to requests without dates
      that ask for no more entries than were saved, and for at least one. */
  lemma HitIff(states: seq<Server>, steps: seq<Step>, i: nat, a: Ask, j: nat)
    requires Run(states, steps) && i < |states| && a.locale in states[i].cache && j < |states[i].saves|
    requires Explains(states[i].saves[j], a.locale, states[i].cache[a.locale], states[i].now)
    ensures var s, sv := states[i], states[i].saves[j];
            Hit(s, a)
            <==> && a.from == None && a.to == None && s.now <= sv.time + 60 && sv.full != []
                 && (a.limit.Some? ==> 1 <= a.limit.value <= Min(sv.limit, |sv.full|))
  {
    var sv := states[i].saves[j];
    assert |Cut(sv.full, sv.limit)| == Min(sv.limit, |sv.full|);
  }

  /** The cache never lets a wrong limit through: in every run a request with a limit outside 1 to
      367 is refused, whatever is cached. */
  lemma WrongLimitsAreRefused(states: seq<Server>, steps: seq<Step>, i: nat, a: Ask, full: seq<DstInfo>, later: nat)
    requires Run(states, steps) && i < |states| && !LimitOk(a)
    ensures Respond(states[i].cache, a, full, states[i].now, later).0 == Refused
  {
    RunKeepsInv(states, steps, i);
    if a.locale in states[i].cache {
      CachedSize(states[i], a.locale);
    }
  }

  lemma CachedSize(s: Server, locale: nat)
    requires Inv(s) && locale in s.cache
    ensures |s.cache[locale].value| <= 367
  {
    assert Explained(s.saves, locale, s.cache[locale], s.now);
  }

  /** The saving request decides how long an answer without a limit is. In every run, such an answer
      from the cache is what a fresh search would have answered when its ranking was saved exactly
      if the saver's limit was the default of 20 too, or neither limit cuts the ranking. A smaller
      limit of the saver makes the answer too short, a larger one too long. */
  lemma UnlimitedAnswerIsFreshIff(states: seq<Server>, steps: seq<Step>, i: nat, a: Ask, j: nat)
    requires Run(states, steps) && i < |states| && Hit(states[i], a) && a.limit.None?
    requires j < |states[i].saves|
    requires Explains(states[i].saves[j], a.locale, states[i].cache[a.locale], states[i].now)
    ensures var answer, sv := CachedAnswer(states[i].cache, a, states[i].now), states[i].saves[j];
            answer == Cut(sv.full, LimitOf(a)) <==> sv.limit == 20 || |sv.full| <= Min(sv.limit, 20)
  {
    var sv := states[i].saves[j];
    assert |Cut(sv.full, sv.limit)| == Min(sv.limit, |sv.full|) && |Cut(sv.full, 20)| == Min(20, |sv.full|);
  }

  /** Two destinations, each wanted once. */
  function TwoWanted(locale: nat, date: nat): seq<Record> {
    [Record(locale, 1, date), Record(locale, 2, date)]
  }

  const BOTH := [DstInfo(1, 1), DstInfo(2, 1)]

  lemma BothRanked(locale: nat, date: nat)
    ensures IsRanking(Destinations(Filter(locale, Q.NO_DATES), TwoWanted(locale, date)), BOTH)
  {
    var f, records := Filter(locale, Q.NO_DATES), TwoWanted(locale, date);
    assert records[..1] == [records[0]] && [records[0]][..0] == [];
    assert Destinations(f, [records[0]]) == [1];
    assert Destinations(f, records) == [1, 2];
    BothCounted();
  }

  lemma BothCounted()
    ensures IsRanking([1, 2], BOTH)
  {
    forall e: DstInfo
      ensures multiset(BOTH)[e] == if e.counter > 0 && e.counter == multiset([1, 2])[e.destination] then 1 else 0
    {
      assert multiset(BOTH)[e] == (if e == DstInfo(1, 1) then 1 else 0) + (if e == DstInfo(2, 1) then 1 else 0);
      assert multiset([1, 2])[e.destination] == if e.destination == 1 || e.destination == 2 then 1 else 0;
    }
  }

  /** The failing case is real: a request for the single top destination is followed by one without a
      limit, which is answered with one destination although there are two. */
  lemma UnlimitedAnswerCanBeShort(now: nat, locale: nat, date: nat) returns (states: seq<Server>, steps: seq<Step>)
    ensures Run(states, steps) && |states| == 2
    ensures var a := Ask(locale, None, None, None);
            && Hit(states[1], a) && CachedAnswer(states[1].cache, a, states[1].now) == [DstInfo(1, 1)]
            && IsRanking(Destinations(FilterOf(a), states[1].records), BOTH) && Cut(BOTH, LimitOf(a)) == BOTH
  {
    BothRanked(locale, date);
    var s := Server(now, TwoWanted(locale, date), map[], []);
    steps := [Request(Ask(locale, None, None, Some(1)), BOTH, 0)];
    assert Enabled(s, steps[0]);
    states := [s, Apply(s, steps[0])];
    assert Linked(states[0], steps[0], states[0 + 1]);
    assert Cut(BOTH, 1) == [DstInfo(1, 1)];
  }
}
