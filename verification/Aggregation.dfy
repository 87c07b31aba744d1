/** Cheapest deal per group: an online fold over the matching deals keeps, per group, a current deal
    and a history; afterwards one deal is picked from each history. The three query classes are
    this algorithm with destination, country or date key as the group. */
module Aggregation {
  import opened Base
  import opened DealTypes

  // ---------------------------------------------------------------- one group

  datatype Group = Group(current: DealInfo, history: seq<DealInfo>)

  const NO_GROUP := Group(NO_DEAL, [])

  /** What `process_deal` does to the group of the deal. */
  function Update(g: Group, d: DealInfo): Group {
    if g.current.price == 0 || d.price <= g.current.price then
      if SameItinerary(d, g.current) && g.current.timestamp > d.timestamp then g
      else Group(d, g.history + [d])
    else if SameItinerary(d, g.current) && g.current.timestamp < d.timestamp then
      Group(d.(overriden := true), g.history + [d])
    else g
  }

  function Fold(ds: seq<DealInfo>): Group {
    if ds == [] then NO_GROUP else Update(Fold(ds[..|ds| - 1]), ds[|ds| - 1])
  }

  // ---------------------------------------------------------------- the pick

  /** Entry `j` is a newer deal for the same itinerary as entry `r`. */
  predicate Supersedes(h: seq<DealInfo>, j: nat, r: nat)
    requires j < |h| && r < |h|
  {
    SameItinerary(h[j], h[r]) && h[j].timestamp > h[r].timestamp
  }

  /** Some entry from `lo` up to, not including, `hi` supersedes entry `r`. */
  predicate SupersededFrom(h: seq<DealInfo>, lo: nat, hi: int, r: nat)
    requires hi <= |h| && r < |h|
  {
    exists j :: lo <= j < hi && Supersedes(h, j, r)
  }

  /** Some entry from 1 up to two places before entry `m` supersedes it. */
  predicate Rejected(h: seq<DealInfo>, m: nat)
    requires m < |h|
  {
    SupersededFrom(h, 1, m - 1, m)
  }

  /** The last entry at or before `l` that is not rejected. */
  function Back(h: seq<DealInfo>, l: nat): (r: nat)
    requires l < |h|
    ensures r <= l && !Rejected(h, r)
    ensures forall m: nat :: r < m <= l ==> Rejected(h, m)
  {
    if Rejected(h, l) then Back(h, l - 1) else l
  }

  /** Which entry `findCheapestAndLast` returns. */
  function PickIndex(h: seq<DealInfo>): (r: nat)
    requires h != []
    ensures r < |h|
  {
    var last := |h| - 1;
    if SupersededFrom(h, 0, last, last) then Back(h, last) else last
  }

  /** The loop as written: a restart re-reads the entry at `len` and resumes at 1, so the first
      restart keeps the last entry, and entries 0 and `len` are not compared again. (The program's
      test for `len == 0` after a restart cannot succeed, since `i < len` there.) */
  method FindCheapestAndLast(history: seq<DealInfo>) returns (lastDeal: DealInfo)
    ensures lastDeal == if history == [] then NO_DEAL else history[PickIndex(history)]
  {
    var len := |history|;
    if len == 0 {
      return NO_DEAL;
    }
    lastDeal := history[len - 1];
    len := len - 1;
    var i := 0;
    ghost var r: nat, restarted := len, false;
    while i < len
      invariant r < |history| && lastDeal == history[r]
      invariant !restarted ==> r == len == |history| - 1 && 0 <= i <= len && !SupersededFrom(history, 0, i, r)
      invariant restarted ==> PickIndex(history) == Back(history, r) && len == r - 1 && 1 <= i
                              && !SupersededFrom(history, 1, Min(i, len), r)
      decreases len, len - i
    {
      var d := history[i];
      if SameItinerary(d, lastDeal) && d.timestamp > lastDeal.timestamp {
        assert Supersedes(history, i, r);
        r, restarted := len, true;
        lastDeal := history[len];
        len := len - 1;
        i := 0;
      }
      i := i + 1;
    }
  }

  /** The last entry is picked if nothing newer precedes it; and in no case does an entry from 1 up
      to two places before the picked one supersede it. */
  lemma PicksLastUnlessSuperseded(h: seq<DealInfo>)
    requires h != []
    ensures !SupersededFrom(h, 0, |h| - 1, |h| - 1) ==> PickIndex(h) == |h| - 1
    ensures !Rejected(h, PickIndex(h))
  {
  }

  /** The wider claim that the picked deal is the newest of its itinerary fails on this history:
      a newer deal for the same itinerary comes first, another itinerary between. */
  lemma PickCanBeOutdated(a: DealInfo, b: DealInfo, c: DealInfo)
    requires SameItinerary(a, c) && !SameItinerary(b, c) && a.timestamp > c.timestamp
    requires 0 < c.price <= b.price <= a.price
    ensures Fold([a, b, c]).history == [a, b, c]
    ensures PickIndex([a, b, c]) == 2 && Supersedes([a, b, c], 0, 2)
  {
    assert [a][..0] == [] && [a, b][..1] == [a] && [a, b, c][..2] == [a, b];
    assert Fold([a]) == Group(a, [a]);
    assert Fold([a, b]) == Group(b, [a, b]);
    assert Supersedes([a, b, c], 0, 2);
  }

  // ---------------------------------------------------------------- histories made by the fold

  /** No entry is superseded by the one just before it. */
  predicate StepwiseFresh(h: seq<DealInfo>) {
    forall i, j :: 0 <= i < |h| && 0 <= j < |h| && j == i + 1 ==> !Supersedes(h, i, j)
  }

  /** Agree in everything the fold looks at. */
  predicate Alike(a: DealInfo, b: DealInfo) {
    a.price == b.price && a.timestamp == b.timestamp && SameItinerary(a, b)
  }

  /** The current deal is the last of the history, up to the marker for overridden deals. */
  predicate CurrentIsLast(g: Group) {
    if g.history == [] then g.current == NO_DEAL else Alike(g.current, g.history[|g.history| - 1])
  }

  lemma UpdateKeepsHistory(g: Group, d: DealInfo)
    requires CurrentIsLast(g) && StepwiseFresh(g.history)
    ensures CurrentIsLast(Update(g, d)) && StepwiseFresh(Update(g, d).history)
    ensures Update(g, d).history == g.history + [d] || (Update(g, d) == g && g.history != [])
  {
    var h := g.history + [d];
    if h != [d] && !Supersedes(h, |h| - 2, |h| - 1) {
      forall i, j | 0 <= i < |h| && 0 <= j < |h| && j == i + 1
        ensures !Supersedes(h, i, j)
      {
        if j < |h| - 1 {
          assert !Supersedes(g.history, i, j);
        }
      }
    }
  }

  lemma {:induction false} FoldHistory(ds: seq<DealInfo>)
    ensures CurrentIsLast(Fold(ds)) && StepwiseFresh(Fold(ds).history)
    ensures ds != [] ==> Fold(ds).history != []
    ensures forall d :: d in Fold(ds).history ==> d in ds
  {
    if ds == [] {
    } else {
      var front, d := ds[..|ds| - 1], ds[|ds| - 1];
      FoldHistory(front);
      UpdateKeepsHistory(Fold(front), d);
      assert ds == front + [d];
    }
  }

  /** The newest entry from 1 on of the same itinerary as entry `j`. */
  lemma Newest(h: seq<DealInfo>, j: nat) returns (m: nat)
    requires 1 <= j < |h|
    ensures 1 <= m < |h| && SameItinerary(h[m], h[j])
    ensures forall i :: 1 <= i < |h| && SameItinerary(h[i], h[j]) ==> h[i].timestamp <= h[m].timestamp
  {
    m := j;
    var n := 1;
    while n < |h|
      invariant 1 <= n <= |h| && 1 <= m < |h|
      invariant SameItinerary(h[m], h[j])
      invariant forall k :: 1 <= k < n && SameItinerary(h[k], h[j]) ==> h[k].timestamp <= h[m].timestamp
    {
      if SameItinerary(h[n], h[j]) && h[n].timestamp > h[m].timestamp {
        m := n;
      }
      n := n + 1;
    }
  }

  /** An entry that nothing from 1 on supersedes is not rejected. */
  lemma NewestIsNotRejected(h: seq<DealInfo>, m: nat)
    requires 1 <= m < |h|
    requires forall i :: 1 <= i < |h| && SameItinerary(h[i], h[m]) ==> h[i].timestamp <= h[m].timestamp
    ensures !Rejected(h, m)
  {
  }

  /** In a history without fresh-to-stale neighbours the pick is newer than, or as new as, every
      later-than-first entry of its itinerary, before or behind it. */
  lemma OnlyFirstCanSupersede(h: seq<DealInfo>)
    requires h != [] && StepwiseFresh(h)
    ensures forall j :: 1 <= j < |h| ==> !Supersedes(h, j, PickIndex(h))
  {
    var r := PickIndex(h);
    if |h| > 1 {
      assert !Rejected(h, 1);
      var m := Newest(h, r);
      NewestIsNotRejected(h, m);
      assert m <= r;
      if m < r - 1 {
        assert !Supersedes(h, m, r);
      } else if m == r - 1 {
        assert !Supersedes(h, m, r);
      }
    }
  }

  /** The first entry supersedes an entry that no other entry before it supersedes, and every entry
      behind that one is superseded by an earlier entry other than the first. */
  predicate FirstOutdatesThePick(h: seq<DealInfo>) {
    exists m: nat :: m < |h| && OutdatedAt(h, m)
  }

  predicate OutdatedAt(h: seq<DealInfo>, m: nat)
    requires m < |h|
  {
    && Supersedes(h, 0, m)
    && !SupersededFrom(h, 1, m, m)
    && forall l :: m < l < |h| ==> SupersededFrom(h, 1, l, l)
  }

  lemma RejectedIff(h: seq<DealInfo>, m: nat)
    requires StepwiseFresh(h) && m < |h|
    ensures Rejected(h, m) <==> SupersededFrom(h, 1, m, m)
  {
    if SupersededFrom(h, 1, m, m) {
      var j :| 1 <= j < m && Supersedes(h, j, m);
      assert j != m - 1;
    }
  }

  /** The pick is the last entry that is not rejected. */
  lemma PickIs(h: seq<DealInfo>, m: nat)
    requires m < |h| && !Rejected(h, m) && forall l :: m < l < |h| ==> Rejected(h, l)
    ensures PickIndex(h) == m
  {
    var last := |h| - 1;
    assert Rejected(h, last) ==> SupersededFrom(h, 0, last, last);
    var b := Back(h, last);
    assert !(b < m) && !(m < b);
    assert PickIndex(h) == b;
  }

  /** Over histories the fold can produce, the picked deal is outdated, that is, some entry of the
      history is a newer deal for the same itinerary, exactly if the first entry outdates it. */
  lemma PickIsOutdatedIff(ds: seq<DealInfo>)
    requires ds != []
    ensures var h := Fold(ds).history;
            h != [] && (SupersededFrom(h, 0, |h|, PickIndex(h)) <==> FirstOutdatesThePick(h))
  {
    var h := Fold(ds).history;
    FoldHistory(ds);
    OnlyFirstCanSupersede(h);
    forall m | 0 <= m < |h|
      ensures Rejected(h, m) <==> SupersededFrom(h, 1, m, m)
    {
      RejectedIff(h, m);
    }
    if SupersededFrom(h, 0, |h|, PickIndex(h)) {
      assert OutdatedAt(h, PickIndex(h));
    }
    if m: nat :| m < |h| && OutdatedAt(h, m) {
      PickIs(h, m);
    }
  }

  // ---------------------------------------------------------------- the simple meaning

  predicate InTimeOrder(ds: seq<DealInfo>) {
    forall i, j :: 0 <= i < j < |ds| ==> ds[i].timestamp <= ds[j].timestamp
  }

  /** The deal picked for a group of deals. */
  function Picked(ds: seq<DealInfo>): DealInfo
    requires Fold(ds).history != []
  {
    Fold(ds).history[PickIndex(Fold(ds).history)]
  }

  /** No deal of `ds` is a newer one for the itinerary of `c`. */
  predicate NewestOf(ds: seq<DealInfo>, c: DealInfo) {
    forall j :: 0 <= j < |ds| && SameItinerary(ds[j], c) ==> ds[j].timestamp <= c.timestamp
  }

  lemma {:induction false} FoldInTimeOrder(ds: seq<DealInfo>)
    requires InTimeOrder(ds)
    ensures InTimeOrder(Fold(ds).history)
    ensures Fold(ds).history != [] ==> NewestOf(ds, Fold(ds).current)
  {
    if ds == [] {
    } else {
      var front, d := ds[..|ds| - 1], ds[|ds| - 1];
      assert ds == front + [d];
      LastInTime(front, d);
      FoldInTimeOrder(front);
      FoldHistory(front);
      UpdateInTimeOrder(Fold(front), front, d);
    }
  }

  lemma LastInTime(front: seq<DealInfo>, d: DealInfo)
    requires InTimeOrder(front + [d])
    ensures InTimeOrder(front) && forall e :: e in front ==> e.timestamp <= d.timestamp
  {
    var ds := front + [d];
    assert forall i :: 0 <= i < |front| ==> front[i] == ds[i];
    assert ds[|front|] == d;
  }

  lemma UpdateInTimeOrder(g: Group, front: seq<DealInfo>, d: DealInfo)
    requires CurrentIsLast(g) && InTimeOrder(g.history) && (forall e :: e in g.history ==> e in front)
    requires g.history != [] ==> NewestOf(front, g.current)
    requires forall e :: e in front ==> e.timestamp <= d.timestamp
    ensures InTimeOrder(Update(g, d).history)
    ensures Update(g, d).history != [] ==> NewestOf(front + [d], Update(g, d).current)
  {
    assert forall i :: 0 <= i < |g.history| ==> g.history[i] in g.history;
    assert forall i :: 0 <= i < |front| ==> front[i] in front;
    if g.history != [] {
      assert g.history[|g.history| - 1].timestamp <= d.timestamp;
    }
  }

  /** If deals arrive in time order, no processed deal of the same itinerary is strictly newer than
      the one picked. */
  lemma InOrderPickIsNewest(ds: seq<DealInfo>)
    requires ds != [] && InTimeOrder(ds)
    ensures Fold(ds).history != [] && NewestOf(ds, Picked(ds))
  {
    FoldHistory(ds);
    FoldInTimeOrder(ds);
    var h := Fold(ds).history;
    assert PickIndex(h) == |h| - 1;
  }

  predicate DistinctItineraries(ds: seq<DealInfo>) {
    forall i, j :: 0 <= i < j < |ds| ==> !SameItinerary(ds[i], ds[j])
  }

  /** Deal `i` is the cheapest of `ds`, the last one among equally cheap ones. */
  predicate LastCheapest(ds: seq<DealInfo>, i: nat) {
    && i < |ds|
    && (forall j :: 0 <= j < |ds| ==> ds[i].price <= ds[j].price)
    && (forall j :: i < j < |ds| ==> ds[i].price < ds[j].price)
  }

  /** Positions in `ds` of the entries of a history. */
  predicate Selects(ds: seq<DealInfo>, h: seq<DealInfo>, at: seq<nat>) {
    && |at| == |h|
    && (forall k :: 0 <= k < |h| ==> at[k] < |ds| && ds[at[k]] == h[k])
    && (forall k, l :: 0 <= k < l < |h| ==> at[k] < at[l])
  }

  lemma {:induction false} FoldDistinct(ds: seq<DealInfo>) returns (at: seq<nat>)
    requires ds != [] && DistinctItineraries(ds) && forall i :: 0 <= i < |ds| ==> ds[i].price > 0
    ensures var h := Fold(ds).history;
            Selects(ds, h, at) && h != [] && LastCheapest(ds, at[|h| - 1])
  {
    var front, d := ds[..|ds| - 1], ds[|ds| - 1];
    assert ds == front + [d];
    if front == [] {
      assert ds == [d];
      FoldOne(d);
      at := [0];
    } else {
      DistinctFront(front, d);
      at := FoldDistinct(front);
      FoldHistory(front);
      at := UpdateDistinct(Fold(front), front, d, at);
    }
  }

  lemma FoldOne(d: DealInfo)
    ensures Fold([d]).history == [d]
  {
    assert [d][..0] == [];
    assert Fold([]) == NO_GROUP;
  }

  lemma DistinctFront(front: seq<DealInfo>, d: DealInfo)
    requires DistinctItineraries(front + [d]) && forall i :: 0 <= i < |front + [d]| ==> (front + [d])[i].price > 0
    ensures DistinctItineraries(front)
    ensures forall i :: 0 <= i < |front| ==> front[i].price > 0 && !SameItinerary(front[i], d)
  {
    var ds := front + [d];
    assert forall i :: 0 <= i < |front| ==> front[i] == ds[i];
    assert ds[|front|] == d;
  }

  lemma UpdateDistinct(g: Group, front: seq<DealInfo>, d: DealInfo, at: seq<nat>) returns (at': seq<nat>)
    requires CurrentIsLast(g) && g.history != [] && Selects(front, g.history, at)
    requires LastCheapest(front, at[|at| - 1])
    requires forall i :: 0 <= i < |front| ==> front[i].price > 0 && !SameItinerary(front[i], d)
    ensures var h := Update(g, d).history;
            Selects(front + [d], h, at') && h != [] && LastCheapest(front + [d], at'[|h| - 1])
  {
    var last := at[|at| - 1];
    assert Alike(g.current, front[last]);
    assert !SameItinerary(d, g.current);
    CheapestStep(front, d, last);
    SelectsStep(front, g.history, at, d);
    at' := if d.price <= g.current.price then at + [|front|] else at;
  }

  lemma CheapestStep(front: seq<DealInfo>, d: DealInfo, i: nat)
    requires LastCheapest(front, i)
    ensures LastCheapest(front + [d], if d.price <= front[i].price then |front| else i)
  {
  }

  lemma SelectsStep(front: seq<DealInfo>, h: seq<DealInfo>, at: seq<nat>, d: DealInfo)
    requires Selects(front, h, at)
    ensures Selects(front + [d], h, at) && Selects(front + [d], h + [d], at + [|front|])
  {
  }

  /** If no two deals of a group share an itinerary and prices are positive, the pick is the
      cheapest deal of the group, the last one among ties. */
  lemma DistinctPickIsCheapest(ds: seq<DealInfo>)
    requires ds != [] && DistinctItineraries(ds) && forall i :: 0 <= i < |ds| ==> ds[i].price > 0
    ensures Fold(ds).history != []
    ensures exists i: nat :: LastCheapest(ds, i) && ds[i] == Picked(ds)
  {
    var at := FoldDistinct(ds);
    var h := Fold(ds).history;
    var last := |h| - 1;
    forall j | 0 <= j < last
      ensures !Supersedes(h, j, last)
    {
      assert at[j] < at[last];
    }
    assert PickIndex(h) == last;
    assert ds[at[last]] == Picked(ds);
  }

  // ---------------------------------------------------------------- all groups

  /** The deals of one group, in order of arrival. */
  function GroupOf(ds: seq<DealInfo>, key: DealInfo -> nat, k: nat): seq<DealInfo> {
    Filter(ds, d => key(d) == k)
  }

  lemma GroupAppend(ds: seq<DealInfo>, key: DealInfo -> nat, d: DealInfo, k: nat)
    ensures GroupOf(ds + [d], key, k) == GroupOf(ds, key, k) + if key(d) == k then [d] else []
  {
    FilterAppend(ds, [d], e => key(e) == k);
    assert [d][1..] == [];
  }

  lemma {:induction false} GroupMembers(ds: seq<DealInfo>, key: DealInfo -> nat, k: nat)
    ensures forall d :: d in GroupOf(ds, key, k) <==> d in ds && key(d) == k
  {
    if ds == [] {
    } else {
      GroupMembers(ds[1..], key, k);
      assert ds == [ds[0]] + ds[1..];
    }
  }

  /** The maps hold, for every group that has a deal, what the fold makes of that group. */
  ghost predicate GroupsOk(current: map<nat, DealInfo>, history: map<nat, seq<DealInfo>>,
                           seen: seq<DealInfo>, key: DealInfo -> nat)
  {
    && current.Keys == history.Keys == Keys(seen, key)
    && forall k :: k in history ==> Group(current[k], history[k]) == Fold(GroupOf(seen, key, k))
  }

  /** The group of a key before its deal is processed: a missing entry reads as zeros. */
  function GroupAt(current: map<nat, DealInfo>, history: map<nat, seq<DealInfo>>, k: nat): Group {
    Group(if k in current then current[k] else NO_DEAL, if k in history then history[k] else [])
  }

  lemma UpdateKeepsGroups(current: map<nat, DealInfo>, history: map<nat, seq<DealInfo>>,
                          seen: seq<DealInfo>, key: DealInfo -> nat, d: DealInfo)
    requires GroupsOk(current, history, seen, key)
    ensures var g := Update(GroupAt(current, history, key(d)), d);
            GroupsOk(current[key(d) := g.current], history[key(d) := g.history], seen + [d], key)
  {
    var k := key(d);
    AbsentGroup(seen, key, k);
    var g := GroupAt(current, history, k);
    assert g == Fold(GroupOf(seen, key, k));
    FoldAppend(seen, key, d);
    OtherGroups(current, history, seen, key, d, Update(g, d));
  }

  lemma OtherGroups(current: map<nat, DealInfo>, history: map<nat, seq<DealInfo>>,
                    seen: seq<DealInfo>, key: DealInfo -> nat, d: DealInfo, g: Group)
    requires GroupsOk(current, history, seen, key)
    requires g == Fold(GroupOf(seen + [d], key, key(d)))
    ensures GroupsOk(current[key(d) := g.current], history[key(d) := g.history], seen + [d], key)
  {
    var k := key(d);
    KeysAppend(seen, key, d);
    forall l | l in history && l != k
      ensures Group(current[l], history[l]) == Fold(GroupOf(seen + [d], key, l))
    {
      OtherGroupStays(seen, key, d, l);
    }
  }

  lemma KeysAppend(ds: seq<DealInfo>, key: DealInfo -> nat, d: DealInfo)
    ensures Keys(ds + [d], key) == Keys(ds, key) + {key(d)}
  {
  }

  lemma OtherGroupStays(ds: seq<DealInfo>, key: DealInfo -> nat, d: DealInfo, k: nat)
    requires key(d) != k
    ensures GroupOf(ds + [d], key, k) == GroupOf(ds, key, k)
  {
    GroupAppend(ds, key, d, k);
    assert GroupOf(ds, key, k) + [] == GroupOf(ds, key, k);
  }

  lemma AbsentGroup(ds: seq<DealInfo>, key: DealInfo -> nat, k: nat)
    ensures k !in Keys(ds, key) ==> Fold(GroupOf(ds, key, k)) == NO_GROUP
  {
    GroupMembers(ds, key, k);
    if GroupOf(ds, key, k) != [] {
      assert GroupOf(ds, key, k)[0] in GroupOf(ds, key, k);
    }
  }

  lemma FoldAppend(ds: seq<DealInfo>, key: DealInfo -> nat, d: DealInfo)
    ensures Fold(GroupOf(ds + [d], key, key(d))) == Update(Fold(GroupOf(ds, key, key(d))), d)
  {
    var g := GroupOf(ds, key, key(d));
    GroupAppend(ds, key, d, key(d));
    assert (g + [d])[..|g|] == g;
  }

  /** `r` is what the simple meaning asks for group `k`: the deal picked from its history. */
  ghost predicate ResultOf(ds: seq<DealInfo>, key: DealInfo -> nat, k: nat, r: DealInfo) {
    var g := GroupOf(ds, key, k);
    Fold(g).history != [] && r == Picked(g) && key(r) == k && r in ds
  }

  lemma PresentGroup(ds: seq<DealInfo>, key: DealInfo -> nat, k: nat)
    requires k in Keys(ds, key)
    ensures var g := GroupOf(ds, key, k);
            g != [] && Fold(g).history != [] && ResultOf(ds, key, k, Picked(g))
  {
    var g := GroupOf(ds, key, k);
    GroupMembers(ds, key, k);
    var d :| d in ds && key(d) == k;
    assert d in g;
    FoldHistory(g);
    assert Picked(g) in Fold(g).history;
  }

  /** One result for each of the groups. */
  ghost predicate ResultsOf(ds: seq<DealInfo>, key: DealInfo -> nat, groups: seq<nat>, result: seq<DealInfo>) {
    |result| == |groups| && forall i :: 0 <= i < |groups| ==> ResultOf(ds, key, groups[i], result[i])
  }

  lemma ResultsStep(ds: seq<DealInfo>, key: DealInfo -> nat, groups: seq<nat>, result: seq<DealInfo>,
                    k: nat, r: DealInfo)
    requires ResultsOf(ds, key, groups, result) && ResultOf(ds, key, k, r)
    ensures ResultsOf(ds, key, groups + [k], result + [r])
  {
  }

  /** Every key is still left or among the groups done, never both; no group is done twice. */
  ghost predicate Partition(keys: set<nat>, left: set<nat>, groups: seq<nat>) {
    && (forall k :: k in keys <==> k in left || k in groups)
    && (forall k :: k in groups ==> k !in left)
    && NoRepeats(groups)
  }

  lemma PartitionStep(keys: set<nat>, left: set<nat>, groups: seq<nat>, k: nat)
    requires Partition(keys, left, groups) && k in left
    ensures Partition(keys, left - {k}, groups + [k])
  {
  }

  /** Every result is picked from its own group, and no two come from the same group. */
  ghost predicate OnePerGroup(ds: seq<DealInfo>, key: DealInfo -> nat, result: seq<DealInfo>) {
    && (forall i :: 0 <= i < |result| ==> ResultOf(ds, key, key(result[i]), result[i]))
    && (forall i, j :: 0 <= i < j < |result| ==> key(result[i]) != key(result[j]))
  }

  lemma ResultsAreOnePerGroup(ds: seq<DealInfo>, key: DealInfo -> nat, groups: seq<nat>, result: seq<DealInfo>)
    requires ResultsOf(ds, key, groups, result) && NoRepeats(groups)
    ensures OnePerGroup(ds, key, result)
  {
    forall i | 0 <= i < |result|
      ensures key(result[i]) == groups[i]
    {
      assert ResultOf(ds, key, groups[i], result[i]);
    }
  }

  /** The query object: current deals and histories by group. */
  class Aggregator {
    const key: DealInfo -> nat
    var current: map<nat, DealInfo>
    var history: map<nat, seq<DealInfo>>
    ghost var seen: seq<DealInfo>

    ghost predicate Valid()
      reads this
    {
      GroupsOk(current, history, seen, key)
    }

    constructor (key: DealInfo -> nat)
      ensures Valid() && seen == [] && this.key == key
    {
      this.key := key;
      current, history, seen := map[], map[], [];
    }

    method ProcessDeal(deal: DealInfo)
      requires Valid()
      modifies this
      ensures Valid() && seen == old(seen) + [deal]
    {
      UpdateKeepsGroups(current, history, seen, key, deal);
      var k := key(deal);
      var dst := if k in current then current[k] else NO_DEAL;
      var h := if k in history then history[k] else [];
      if dst.price == 0 || deal.price <= dst.price {
        if !(SameItinerary(deal, dst) && dst.timestamp > deal.timestamp) {
          dst, h := deal, h + [deal];
        }
      } else if SameItinerary(deal, dst) && dst.timestamp < deal.timestamp {
        dst, h := deal.(overriden := true), h + [deal];
      }
      current, history := current[k := dst], history[k := h];
      seen := seen + [deal];
    }

    method PickFor(k: nat) returns (picked: DealInfo)
      requires Valid() && k in history
      ensures ResultOf(seen, key, k, picked)
    {
      PresentGroup(seen, key, k);
      assert Group(current[k], history[k]) == Fold(GroupOf(seen, key, k));
      picked := FindCheapestAndLast(history[k]);
    }

    /** One picked deal per group that has a deal, groups in any order. */
    method PostSearch() returns (result: seq<DealInfo>)
      requires Valid()
      ensures OnePerGroup(seen, key, result) && |result| == |Keys(seen, key)|
    {
      result := [];
      ghost var groups: seq<nat> := [];
      var left := history.Keys;
      while left != {}
        invariant |groups| + |left| == |history.Keys|
        invariant Partition(history.Keys, left, groups)
        invariant ResultsOf(seen, key, groups, result)
        decreases left
      {
        var k :| k in left;
        var picked := PickFor(k);
        ResultsStep(seen, key, groups, result, k, picked);
        PartitionStep(history.Keys, left, groups, k);
        left := left - {k};
        result, groups := result + [picked], groups + [k];
      }
      ResultsAreOnePerGroup(seen, key, groups, result);
    }
  }
}
