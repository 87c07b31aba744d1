/** Whole searches: scan, filter, group, pick, sort and cut, and what their answers say about the
    log of deals, whatever happened to the shared tables before. */
module Searches {
  import opened Base
  import opened DealTypes
  import opened DealTable
  import opened DealsSystem
  import opened DealsSafety
  import opened Aggregation
  import opened Sorting
  import opened Offers
  import Q = SearchQuery
  import G = DateGroups
  import L = DateLimits

  function Matching(f: Q.Filters, ds: seq<DealInfo>): seq<DealInfo> {
    Filter(ds, d => Q.Matches(f, d))
  }

  // ---------------------------------------------------------------- the program

  /** The table hands every scanned deal to the filter chain, which hands it to the aggregator. */
  method ProcessAll(f: Q.Filters, scanned: seq<DealInfo>, query: Aggregator)
    requires query.Valid() && query.seen == []
    modifies query
    ensures query.Valid() && query.seen == Matching(f, scanned)
  {
    ghost var matches := d => Q.Matches(f, d);
    for i := 0 to |scanned|
      invariant query.Valid() && query.seen == Filter(scanned[..i], matches)
    {
      FilterNext(scanned, i, matches);
      var accepted := Q.Accepts(f, scanned[i]);
      if accepted {
        query.ProcessDeal(scanned[i]);
      }
    }
    assert scanned[..|scanned|] == scanned;
  }

  lemma FilterNext(s: seq<DealInfo>, i: nat, p: DealInfo -> bool)
    requires i < |s|
    ensures Filter(s[..i + 1], p) == Filter(s[..i], p) + if p(s[i]) then [s[i]] else []
  {
    assert s[..i + 1] == s[..i] + [s[i]];
    FilterAppend(s[..i], [s[i]], p);
    assert [s[i]][1..] == [];
  }

  /** No group is left out in favour of one of higher rank. */
  ghost predicate DropsOnlyTheLast(ds: seq<DealInfo>, key: DealInfo -> nat, rank: DealInfo -> int,
                                   result: seq<DealInfo>)
  {
    forall k, p, i :: 0 <= i < |result| && k in Keys(ds, key) && ResultOf(ds, key, k, p)
                      && !Represented(key, k, result)
                      ==> rank(result[i]) <= rank(p)
  }

  predicate Represented(key: DealInfo -> nat, k: nat, result: seq<DealInfo>) {
    exists i :: 0 <= i < |result| && key(result[i]) == k
  }

  /** A search over what a scan showed: one deal per group, sorted by rank (the price, or the
      dates), cut to the limit from the end. */
  method Execute(f: Q.Filters, key: DealInfo -> nat, rank: DealInfo -> int, limit: nat, scanned: seq<DealInfo>)
    returns (result: seq<DealInfo>)
    ensures OnePerGroup(Matching(f, scanned), key, result)
    ensures |result| == Min(limit, |Keys(Matching(f, scanned), key)|)
    ensures Ascending(result, rank)
    ensures DropsOnlyTheLast(Matching(f, scanned), key, rank, result)
  {
    var all := PickPerGroup(f, key, scanned);
    result := SortAndCut(all, rank, limit, Matching(f, scanned), key);
  }

  method PickPerGroup(f: Q.Filters, key: DealInfo -> nat, scanned: seq<DealInfo>) returns (all: seq<DealInfo>)
    ensures OnePerGroup(Matching(f, scanned), key, all)
    ensures |all| == |Keys(Matching(f, scanned), key)|
  {
    var query := new Aggregator(key);
    ProcessAll(f, scanned, query);
    all := query.PostSearch();
  }

  method SortAndCut(all: seq<DealInfo>, rank: DealInfo -> int, limit: nat,
                    ghost ds: seq<DealInfo>, ghost key: DealInfo -> nat)
    returns (result: seq<DealInfo>)
    requires OnePerGroup(ds, key, all) && |all| == |Keys(ds, key)|
    ensures OnePerGroup(ds, key, result) && |result| == Min(limit, |all|)
    ensures Ascending(result, rank) && DropsOnlyTheLast(ds, key, rank, result)
  {
    result := Sort(all, rank);
    OnePerGroupInAnyOrder(ds, key, all, result);
    CutDropsTheLast(ds, key, rank, result, limit);
    assert result[..|result|] == result;
    if |result| > limit {
      result := result[..limit];
    }
  }

  // ---------------------------------------------------------------- sorting and cutting

  lemma TwiceIn(s: seq<DealInfo>, i: nat, j: nat)
    requires i < j < |s| && s[i] == s[j]
    ensures multiset(s)[s[i]] >= 2
  {
    assert s == s[..j] + [s[j]] + s[j + 1..];
    assert s[..j][i] == s[i];
  }

  lemma OnlyOnce(s: seq<DealInfo>, d: DealInfo)
    requires forall i, j :: 0 <= i < j < |s| ==> s[i] != s[j]
    ensures multiset(s)[d] <= 1
    decreases s
  {
    if s != [] {
      assert s == [s[0]] + s[1..];
      OnlyOnce(s[1..], d);
    }
  }

  lemma OnePerGroupInAnyOrder(ds: seq<DealInfo>, key: DealInfo -> nat, a: seq<DealInfo>, b: seq<DealInfo>)
    requires OnePerGroup(ds, key, a) && multiset(a) == multiset(b)
    ensures OnePerGroup(ds, key, b) && |a| == |b|
  {
    assert |multiset(a)| == |multiset(b)|;
    forall i | 0 <= i < |b|
      ensures ResultOf(ds, key, key(b[i]), b[i])
    {
      var k := SamePlace(a, b, i);
    }
    forall i, j | 0 <= i < j < |b|
      ensures key(b[i]) != key(b[j])
    {
      var k := SamePlace(a, b, i);
      var l := SamePlace(a, b, j);
      if k == l {
        TwiceIn(b, i, j);
        OnlyOnce(a, b[i]);
        assert false;
      }
    }
  }

  lemma SamePlace(a: seq<DealInfo>, b: seq<DealInfo>, i: nat) returns (k: nat)
    requires multiset(a) == multiset(b) && i < |b|
    ensures k < |a| && a[k] == b[i]
  {
    assert b[i] in multiset(b);
    assert b[i] in a;
    k :| 0 <= k < |a| && a[k] == b[i];
  }

  function KeysOf(key: DealInfo -> nat, result: seq<DealInfo>): (r: seq<nat>)
    ensures |r| == |result| && forall i :: 0 <= i < |r| ==> r[i] == key(result[i])
  {
    seq(|result|, i requires 0 <= i < |result| => key(result[i]))
  }

  /** With as many results as groups, every group has its result. */
  lemma AllRepresented(ds: seq<DealInfo>, key: DealInfo -> nat, result: seq<DealInfo>, k: nat)
    requires OnePerGroup(ds, key, result) && |result| == |Keys(ds, key)| && k in Keys(ds, key)
    ensures Represented(key, k, result)
  {
    if !Represented(key, k, result) {
      var keys := KeysOf(key, result);
      forall x | x in keys
        ensures x in Keys(ds, key) - {k}
      {
        var i :| 0 <= i < |keys| && keys[i] == x;
        assert ResultOf(ds, key, key(result[i]), result[i]);
      }
      DistinctFit(keys, Keys(ds, key) - {k});
      assert false;
    }
  }

  lemma CutDropsTheLast(ds: seq<DealInfo>, key: DealInfo -> nat, rank: DealInfo -> int,
                        all: seq<DealInfo>, limit: nat)
    requires OnePerGroup(ds, key, all) && |all| == |Keys(ds, key)| && Ascending(all, rank)
    ensures DropsOnlyTheLast(ds, key, rank, all[..Min(limit, |all|)])
    ensures OnePerGroup(ds, key, all[..Min(limit, |all|)]) && Ascending(all[..Min(limit, |all|)], rank)
  {
    var result := all[..Min(limit, |all|)];
    assert forall x :: 0 <= x < |result| ==> all[x] == result[x];
    forall k, p, i | 0 <= i < |result| && k in Keys(ds, key) && ResultOf(ds, key, k, p)
                     && !Represented(key, k, result)
      ensures rank(result[i]) <= rank(p)
    {
      AllRepresented(ds, key, all, k);
      var j :| 0 <= j < |all| && key(all[j]) == k;
      assert all[j] == p;
    }
  }

  // ---------------------------------------------------------------- answers and the log

  /** The filters of a search started now: their cutoff is that of the clock and the watermark. */
  predicate StartedNow(f: Q.Filters, s: State) {
    f.minTimestamp == Cutoff(s.now, s.watermark)
  }

  function Scanned(s: State): seq<DealInfo> {
    Scan(s.deals, s.now, s.watermark)
  }

  /** In every reachable state a search works on exactly the matching deals of the log. */
  lemma SearchSeesTheMatchingLog(states: seq<State>, steps: seq<Step>, i: nat, f: Q.Filters)
    requires Run(states, steps) && i < |states| && StartedNow(f, states[i])
    ensures multiset(Matching(f, Scanned(states[i]))) == multiset(Matching(f, DealsOf(states[i].log)))
  {
    var s := states[i];
    EverySearchRefinesTheLog(states, steps, i);
    var live, matches := d => Live(d, s.Limit()), d => Q.Matches(f, d);
    forall v
      ensures multiset(Matching(f, Scanned(s)))[v] == multiset(Matching(f, DealsOf(s.log)))[v]
    {
      FilterCount(Scanned(s), matches, v);
      FilterCount(DealsOf(s.log), matches, v);
      FilterCount(DealsOf(s.log), live, v);
    }
  }

  lemma GroupCount(ds: seq<DealInfo>, key: DealInfo -> nat, k: nat, v: DealInfo)
    ensures multiset(GroupOf(ds, key, k))[v] == if key(v) == k then multiset(ds)[v] else 0
  {
    FilterCount(ds, d => key(d) == k, v);
  }

  lemma SameGroups(a: seq<DealInfo>, b: seq<DealInfo>, key: DealInfo -> nat, k: nat)
    requires multiset(a) == multiset(b)
    ensures Keys(a, key) == Keys(b, key)
    ensures multiset(GroupOf(a, key, k)) == multiset(GroupOf(b, key, k))
  {
    assert forall d :: d in a <==> d in multiset(a);
    assert forall d :: d in b <==> d in multiset(b);
    forall v
      ensures multiset(GroupOf(a, key, k))[v] == multiset(GroupOf(b, key, k))[v]
    {
      GroupCount(a, key, k, v);
      GroupCount(b, key, k, v);
    }
  }

  /** In every reachable state a search with no limit in its way answers with exactly one deal for
      each group that has a matching live deal in the log, itself such a deal. */
  lemma AnswersComeFromTheLog(states: seq<State>, steps: seq<Step>, i: nat, f: Q.Filters,
                              key: DealInfo -> nat, result: seq<DealInfo>, k: nat)
    requires Run(states, steps) && i < |states| && StartedNow(f, states[i])
    requires OnePerGroup(Matching(f, Scanned(states[i])), key, result)
    requires |result| == |Keys(Matching(f, Scanned(states[i])), key)|
    ensures k in Keys(Matching(f, DealsOf(states[i].log)), key) <==> Represented(key, k, result)
    ensures forall j :: 0 <= j < |result| ==> result[j] in Matching(f, DealsOf(states[i].log))
  {
    var seen, logged := Matching(f, Scanned(states[i])), Matching(f, DealsOf(states[i].log));
    SearchSeesTheMatchingLog(states, steps, i, f);
    SameGroups(seen, logged, key, k);
    if k in Keys(seen, key) {
      AllRepresented(seen, key, result, k);
    }
    forall j | 0 <= j < |result|
      ensures result[j] in logged && key(result[j]) in Keys(seen, key)
    {
      assert ResultOf(seen, key, key(result[j]), result[j]);
      assert result[j] in multiset(seen);
    }
  }

  /** In every reachable state what is answered was asked for: origin, destination, country, kind of
      flight and dates, and it is recent enough. */
  lemma AnswersWereAskedFor(states: seq<State>, steps: seq<Step>, i: nat, f: Q.Filters,
                            key: DealInfo -> nat, result: seq<DealInfo>, j: nat)
    requires Run(states, steps) && i < |states| && StartedNow(f, states[i])
    requires OnePerGroup(Matching(f, Scanned(states[i])), key, result) && j < |result|
    ensures var d := result[j];
            && d in DealsOf(states[i].log) && d.timestamp + 86400 > Max(states[i].now, states[i].watermark)
            && (f.origin.Some? ==> d.origin == f.origin.value)
            && (f.newerThan.Some? ==> d.timestamp >= f.newerThan.value)
            && (f.destinations.Some? ==> d.destination in f.destinations.value)
            && (f.countries.Some? ==> d.destinationCountry in f.countries.value)
            && (f.direct.Some? ==> d.direct == f.direct.value)
            && (f.departure.on ==> f.departure.from <= d.departureDate && d.departureDate <= f.departure.to)
            && (f.return_.on ==> f.return_.from <= d.returnDate && d.returnDate <= f.return_.to)
  {
    var s, d := states[i], result[j];
    assert ResultOf(Matching(f, Scanned(s)), key, key(d), d);
    SearchSeesTheMatchingLog(states, steps, i, f);
    assert d in multiset(Matching(f, Scanned(s)));
    assert d in Matching(f, DealsOf(s.log));
    MatchingOnes(f, DealsOf(s.log), d);
    AcceptedWasAskedFor(f, d);
  }

  /** In every reachable state a search by date whose limit fits answers every date for which the log
      has a matching live deal, and no other: the cut to the limit is never in the way. */
  lemma DateSearchAnswersEveryDate(states: seq<State>, steps: seq<Step>, i: nat, f: Q.Filters, all: bool, limit: nat,
                                   w: L.Bounds, key: DealInfo -> nat, result: seq<DealInfo>, k: nat)
    requires Run(states, steps) && i < |states| && StartedNow(f, states[i])
    requires L.SetFrom(f, w) && G.PreSearch(f, all, L.MaxDuration(w), limit).Ready?
    requires var r := G.PreSearch(f, all, L.MaxDuration(w), limit);
             && L.Fits(r, f, w)
             && (forall d :: key(d) == G.GroupKey(r.grouping, d))
             && OnePerGroup(Matching(f, Scanned(states[i])), key, result)
             && |result| == Min(r.limit, |Keys(Matching(f, Scanned(states[i])), key)|)
    requires forall d :: d in Matching(f, DealsOf(states[i].log)) ==> L.DatedDeal(d)
    ensures k in Keys(Matching(f, DealsOf(states[i].log)), key) <==> Represented(key, k, result)
  {
    var r := G.PreSearch(f, all, L.MaxDuration(w), limit);
    var seen, logged := Matching(f, Scanned(states[i])), Matching(f, DealsOf(states[i].log));
    SearchSeesTheMatchingLog(states, steps, i, f);
    forall j | 0 <= j < |logged|
      ensures L.Good(f, logged[j])
    {
      MatchingOnes(f, DealsOf(states[i].log), logged[j]);
    }
    L.LimitCoversEveryDate(f, all, limit, w, logged);
    SameGroups(seen, logged, key, k);
    assert Keys(logged, key) == L.GroupKeys(r.grouping, logged);
    AnswersComeFromTheLog(states, steps, i, f, key, result, k);
  }

  /** The limit of a search by country: as many as there are countries asked for. It is kept in 16
      bits, and country codes in 8. The flag for all combinations is refused, as in a search by
      destination. */
  function CountryPreSearch(f: Q.Filters, all: bool, limit: nat): Option<nat> {
    if all then None
    else Some(if f.countries.Some? then |f.countries.value| % 0x1_0000 else limit)
  }

  function DestinationPreSearch(all: bool, limit: nat): Option<nat> {
    if all then None else Some(limit)
  }

  /** In every reachable state a search by country answers every country asked for that has a matching
      live deal in the log. */
  lemma CountrySearchAnswersEveryCountry(states: seq<State>, steps: seq<Step>, i: nat, f: Q.Filters, limit: nat,
                                         key: DealInfo -> nat, result: seq<DealInfo>, k: nat)
    requires Run(states, steps) && i < |states| && StartedNow(f, states[i])
    requires f.countries.Some? && (forall c :: c in f.countries.value ==> c < 256)
    requires forall d :: key(d) == d.destinationCountry
    requires OnePerGroup(Matching(f, Scanned(states[i])), key, result)
    requires |result| == Min(CountryPreSearch(f, false, limit).value, |Keys(Matching(f, Scanned(states[i])), key)|)
    ensures k in Keys(Matching(f, DealsOf(states[i].log)), key) <==> Represented(key, k, result)
    ensures CountryPreSearch(f, false, limit) == Some(|f.countries.value|) && CountryPreSearch(f, true, limit) == None
  {
    CountryLimitIs(f, limit);
    FewGroups(f, Scanned(states[i]), key);
    AnswersComeFromTheLog(states, steps, i, f, key, result, k);
  }

  lemma CountryLimitIs(f: Q.Filters, limit: nat)
    requires f.countries.Some? && (forall c :: c in f.countries.value ==> c < 256)
    ensures CountryPreSearch(f, false, limit) == Some(|f.countries.value|) && CountryPreSearch(f, true, limit) == None
  {
    FewCountries(f.countries.value);
  }

  /** No more groups than countries asked for. */
  lemma FewGroups(f: Q.Filters, ds: seq<DealInfo>, key: DealInfo -> nat)
    requires f.countries.Some? && forall d :: key(d) == d.destinationCountry
    ensures |Keys(Matching(f, ds), key)| <= |f.countries.value|
  {
    forall c | c in Keys(Matching(f, ds), key)
      ensures c in f.countries.value
    {
      var d :| d in Matching(f, ds) && key(d) == c;
      MatchingOnes(f, ds, d);
    }
    L.SubsetSize(Keys(Matching(f, ds), key), f.countries.value);
  }

  lemma FewCountries(countries: set<nat>)
    requires forall c :: c in countries ==> c < 256
    ensures |countries| <= 256
  {
    var codes := seq(256, n => n);
    forall c | c in countries
      ensures c in codes
    {
      assert codes[c] == c;
    }
    L.CountDistinct(countries, codes);
  }

  lemma MatchingOnes(f: Q.Filters, ds: seq<DealInfo>, d: DealInfo)
    requires d in Matching(f, ds)
    ensures d in ds && Q.Matches(f, d)
  {
    FilterCount(ds, e => Q.Matches(f, e), d);
    assert multiset(Matching(f, ds))[d] > 0;
    assert d in multiset(ds);
  }

  /** Whether two deals of a sequence share an itinerary does not depend on their order. */
  lemma DistinctInAnyOrder(a: seq<DealInfo>, b: seq<DealInfo>)
    requires DistinctItineraries(a) && multiset(a) == multiset(b)
    ensures DistinctItineraries(b)
  {
    forall i, j | 0 <= i < j < |b|
      ensures !SameItinerary(b[i], b[j])
    {
      var k := SamePlace(a, b, i);
      var l := SamePlace(a, b, j);
      if k == l {
        TwiceIn(b, i, j);
        assert forall x, y :: 0 <= x < y < |a| ==> !SameItinerary(a[x], a[y]);
        OnlyOnce(a, b[i]);
        assert false;
      }
    }
  }

  /** In every reachable state, if no two matching deals of a group in the log share an itinerary
      and prices are positive, the deal answered for the group is a cheapest of all of them. */
  lemma AnswersAreCheapestOfTheLog(states: seq<State>, steps: seq<Step>, i: nat, f: Q.Filters,
                                   key: DealInfo -> nat, r: DealInfo, d: DealInfo)
    requires Run(states, steps) && i < |states| && StartedNow(f, states[i])
    requires ResultOf(Matching(f, Scanned(states[i])), key, key(r), r)
    requires var group := GroupOf(Matching(f, DealsOf(states[i].log)), key, key(r));
             DistinctItineraries(group) && d in group && forall j :: 0 <= j < |group| ==> group[j].price > 0
    ensures r.price <= d.price
  {
    var seen, logged := Matching(f, Scanned(states[i])), Matching(f, DealsOf(states[i].log));
    SearchSeesTheMatchingLog(states, steps, i, f);
    SameGroups(seen, logged, key, key(r));
    var g, h := GroupOf(seen, key, key(r)), GroupOf(logged, key, key(r));
    DistinctInAnyOrder(h, g);
    assert d in multiset(h);
    assert d in g;
    forall j | 0 <= j < |g|
      ensures g[j].price > 0
    {
      var l := SamePlace(h, g, j);
    }
    DistinctPickIsCheapest(g);
    var j :| 0 <= j < |g| && g[j] == d;
  }

  /** In every reachable state, what is answered for a deal that is whole are its own bytes. */
  lemma AnswersHaveTheirPayload(states: seq<State>, steps: seq<Step>, i: nat, f: Q.Filters,
                                key: DealInfo -> nat, result: seq<DealInfo>, j: nat)
    requires Run(states, steps) && i < |states| && StartedNow(f, states[i])
    requires OnePerGroup(Matching(f, Scanned(states[i])), key, result) && j < |result|
    ensures exists n :: 0 <= n < |states[i].log| && states[i].log[n].deal == result[j]
    ensures forall n :: 0 <= n < |states[i].log| && states[i].log[n].deal == result[j]
                        && Whole(states[i], states[i].log[n])
              ==> Payload(states[i], result[j]) == Some(states[i].log[n].bytes)
  {
    var s := states[i];
    assert ResultOf(Matching(f, Scanned(s)), key, key(result[j]), result[j]);
    MatchingOnes(f, Scanned(s), result[j]);
    EveryFoundDealHasItsPayload(states, steps, i, result[j]);
  }
}
