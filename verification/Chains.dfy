/** What the fold over the deals of a group comes to, said of the deals themselves: each entry of the
    history is the first deal that replaces the one before it. */
module Chains {
  import opened Base
  import opened DealTypes
  import opened Aggregation

  /** Of one itinerary the newer deal takes the place of the older, and of two from the same second the
      one that is no dearer; between itineraries the price alone decides. */
  predicate Takes(c: DealInfo, e: DealInfo) {
    if SameItinerary(c, e) then c.timestamp < e.timestamp || (c.timestamp == e.timestamp && e.price <= c.price)
    else e.price <= c.price
  }

  predicate Replaces(ds: seq<DealInfo>, i: nat, j: nat)
    requires i < |ds| && j < |ds|
  {
    Takes(ds[i], ds[j])
  }

  /** None of the deals behind `i` and before `n` replaces it. */
  predicate Stands(ds: seq<DealInfo>, i: nat, n: nat)
    requires i < |ds| && n <= |ds|
  {
    forall j :: i < j < n ==> !Replaces(ds, i, j)
  }

  /** `j` is the first deal that replaces `i`. */
  predicate NextIs(ds: seq<DealInfo>, i: nat, j: nat)
    requires i < |ds| && j < |ds|
  {
    i < j && Replaces(ds, i, j) && Stands(ds, i, j)
  }

  /** Positions: the first deal, then each time the first that replaces the one before, up to one that
      nothing replaces. */
  predicate Chain(ds: seq<DealInfo>, at: seq<nat>) {
    && at != [] && at[0] == 0
    && (forall k :: 0 <= k < |at| ==> at[k] < |ds|)
    && (forall k :: 0 <= k < |at| - 1 ==> Linked(ds, at, k))
    && Stands(ds, at[|at| - 1], |ds|)
  }

  predicate Linked(ds: seq<DealInfo>, at: seq<nat>, k: nat)
    requires k + 1 < |at| && at[k] < |ds| && at[k + 1] < |ds|
  {
    NextIs(ds, at[k], at[k + 1])
  }

  predicate Priced(ds: seq<DealInfo>) {
    forall i :: 0 <= i < |ds| ==> ds[i].price > 0
  }

  // ---------------------------------------------------------------- the history is the chain

  lemma ReplacesInPrefix(front: seq<DealInfo>, d: DealInfo, i: nat, j: nat)
    requires i < |front| && j < |front|
    ensures Replaces(front + [d], i, j) <==> Replaces(front, i, j)
  {
  }

  /** The chain stays a chain if the new deal does not replace its end, and grows if it does. */
  lemma ChainStep(front: seq<DealInfo>, d: DealInfo, at: seq<nat>)
    requires Chain(front, at)
    ensures var ds, last := front + [d], at[|at| - 1];
            Chain(ds, if Replaces(ds, last, |front|) then at + [|front|] else at)
  {
    var ds, last := front + [d], at[|at| - 1];
    forall i, j | 0 <= i < |front| && 0 <= j < |front|
      ensures Replaces(ds, i, j) <==> Replaces(front, i, j)
    {
      ReplacesInPrefix(front, d, i, j);
    }
    var at' := if Replaces(ds, last, |front|) then at + [|front|] else at;
    assert forall k :: 0 <= k < |at'| ==> at'[k] < |ds|;
    forall k | 0 <= k < |at'| - 1
      ensures Linked(ds, at', k)
    {
      if k < |at| - 1 {
        assert Linked(front, at, k);
      }
    }
  }

  /** The current deal of the fold is the end of the chain, and its history the deals on it. */
  ghost predicate Follows(ds: seq<DealInfo>, g: Group, at: seq<nat>) {
    && Chain(ds, at) && Selects(ds, g.history, at)
    && g.current == (if EndsInRise(ds, at) then ds[at[|at| - 1]].(overriden := true) else ds[at[|at| - 1]])
  }

  /** The last entry replaced a cheaper one; such a current deal is marked. */
  predicate EndsInRise(ds: seq<DealInfo>, at: seq<nat>)
    requires forall k :: 0 <= k < |at| ==> at[k] < |ds|
  {
    |at| > 1 && ds[at[|at| - 2]].price < ds[at[|at| - 1]].price
  }

  lemma UpdateFollows(front: seq<DealInfo>, g: Group, d: DealInfo, at: seq<nat>)
    requires Follows(front, g, at) && Priced(front + [d])
    ensures var ds, last := front + [d], at[|at| - 1];
            Follows(ds, Update(g, d), if Replaces(ds, last, |front|) then at + [|front|] else at)
  {
    var ds, last := front + [d], at[|at| - 1];
    assert ds[last] == front[last] && ds[|front|] == d;
    assert Takes(g.current, d) <==> Takes(ds[last], d);
    UpdateTakes(g, d);
    ChainStep(front, d, at);
    SelectsStep(front, g.history, at, d);
    MarkStep(front, d, at);
  }

  /** The mark of the end of the chain, before and after one more deal. */
  lemma MarkStep(front: seq<DealInfo>, d: DealInfo, at: seq<nat>)
    requires at != [] && forall k :: 0 <= k < |at| ==> at[k] < |front|
    ensures EndsInRise(front + [d], at) <==> EndsInRise(front, at)
    ensures EndsInRise(front + [d], at + [|front|]) <==> front[at[|at| - 1]].price < d.price
  {
    assert forall k :: 0 <= k < |at| ==> (front + [d])[at[k]] == front[at[k]];
  }

  lemma UpdateTakes(g: Group, d: DealInfo)
    requires g.current.price > 0
    ensures Takes(g.current, d) ==>
              && Update(g, d).history == g.history + [d]
              && Update(g, d).current == (if g.current.price < d.price then d.(overriden := true) else d)
    ensures !Takes(g.current, d) ==> Update(g, d) == g
  {
  }

  lemma OneDealChain(d: DealInfo)
    ensures Follows([d], Fold([d]), [0])
  {
    FoldOne(d);
    assert [d][..0] == [];
  }

  lemma FoldLast(front: seq<DealInfo>, d: DealInfo)
    ensures Fold(front + [d]) == Update(Fold(front), d)
  {
    assert (front + [d])[..|front|] == front;
  }

  /** The chain of one more deal. */
  lemma FollowsOn(front: seq<DealInfo>, d: DealInfo, at: seq<nat>) returns (at': seq<nat>)
    requires Follows(front, Fold(front), at) && Priced(front + [d])
    ensures Follows(front + [d], Fold(front + [d]), at')
  {
    FoldLast(front, d);
    UpdateFollows(front, Fold(front), d, at);
    at' := if Replaces(front + [d], at[|at| - 1], |front|) then at + [|front|] else at;
  }

  /** For positive prices, in whatever order the deals come: the history is made of the chain. */
  lemma HistoryIsTheChain(ds: seq<DealInfo>) returns (at: seq<nat>)
    requires ds != [] && Priced(ds)
    ensures Chain(ds, at) && Selects(ds, Fold(ds).history, at)
    ensures Follows(ds, Fold(ds), at)
  {
    at := ChainUpTo(ds, |ds|);
    assert ds[..|ds|] == ds;
  }

  lemma {:induction false} ChainUpTo(ds: seq<DealInfo>, n: nat) returns (at: seq<nat>)
    requires 0 < n <= |ds| && Priced(ds)
    ensures Follows(ds[..n], Fold(ds[..n]), at)
  {
    if n == 1 {
      assert ds[..1] == [ds[0]];
      OneDealChain(ds[0]);
      at := [0];
    } else {
      at := ChainUpTo(ds, n - 1);
      assert ds[..n] == ds[..n - 1] + [ds[n - 1]];
      at := FollowsOn(ds[..n - 1], ds[n - 1], at);
    }
  }

  /** There is only one chain. */
  lemma {:induction false} ChainIsUnique(ds: seq<DealInfo>, a: seq<nat>, b: seq<nat>)
    requires Chain(ds, a) && Chain(ds, b)
    ensures a == b
  {
    SameUpTo(ds, a, b, Min(|a|, |b|) - 1);
    EndsFirst(ds, a, b);
    EndsFirst(ds, b, a);
  }

  /** A chain that agrees with another up to its end goes on no longer. */
  lemma EndsFirst(ds: seq<DealInfo>, a: seq<nat>, b: seq<nat>)
    requires Chain(ds, a) && Chain(ds, b) && forall k :: 0 <= k < |a| && k < |b| ==> a[k] == b[k]
    ensures |b| <= |a|
  {
    var last := a[|a| - 1];
    assert forall j :: last < j < |ds| ==> !Replaces(ds, last, j);
    assert |a| < |b| ==> Linked(ds, b, |a| - 1);
  }

  lemma {:induction false} SameUpTo(ds: seq<DealInfo>, a: seq<nat>, b: seq<nat>, n: nat)
    requires Chain(ds, a) && Chain(ds, b) && n < |a| && n < |b|
    ensures forall k :: 0 <= k <= n ==> a[k] == b[k]
  {
    if n == 0 {
    } else {
      SameUpTo(ds, a, b, n - 1);
      assert Linked(ds, a, n - 1) && Linked(ds, b, n - 1);
    }
  }

  // ---------------------------------------------------------------- what it means for the answer

  /** If deals come in time order, the answer is the end of the chain. */
  lemma InOrderPickEndsTheChain(ds: seq<DealInfo>, at: seq<nat>)
    requires ds != [] && Priced(ds) && InTimeOrder(ds) && Chain(ds, at)
    ensures Fold(ds).history != [] && Picked(ds) == ds[at[|at| - 1]]
  {
    var at' := HistoryIsTheChain(ds);
    ChainIsUnique(ds, at, at');
    FoldHistory(ds);
    FoldInTimeOrder(ds);
    var h := Fold(ds).history;
    assert PickIndex(h) == |h| - 1;
  }

  /** A step of the chain at which the price goes up. */
  predicate Rise(ds: seq<DealInfo>, at: seq<nat>, k: nat)
    requires k + 1 < |at| && at[k] < |ds| && at[k + 1] < |ds|
  {
    ds[at[k]].price < ds[at[k + 1]].price
  }

  /** Chain entry `k` is the one in force when deal `j` comes. */
  predicate InForce(at: seq<nat>, k: nat, j: nat) {
    k < |at| && at[k] <= j && (k + 1 < |at| ==> j < at[k + 1])
  }

  lemma {:induction false} SomeoneInForce(ds: seq<DealInfo>, at: seq<nat>, j: nat, n: nat) returns (k: nat)
    requires Chain(ds, at) && n < |at| && j < |ds| && (n + 1 < |at| ==> j < at[n + 1])
    ensures k <= n && InForce(at, k, j)
  {
    if at[n] <= j {
      k := n;
    } else {
      assert n > 0;
      k := SomeoneInForce(ds, at, j, n - 1);
    }
  }

  /** In time order, the deal in force costs no more than the deal that comes. */
  lemma InForceIsNoDearer(ds: seq<DealInfo>, at: seq<nat>, k: nat, j: nat)
    requires Chain(ds, at) && InTimeOrder(ds) && j < |ds| && InForce(at, k, j)
    ensures ds[at[k]].price <= ds[j].price
  {
    if at[k] < j {
      if k + 1 < |at| {
        assert Linked(ds, at, k);
      }
      assert !Replaces(ds, at[k], j);
      assert ds[at[k]].timestamp <= ds[j].timestamp;
    }
  }

  /** Where there is no rise from entry `k` on, the end costs no more than entry `k`. */
  lemma {:induction false} NoRiseNoDearer(ds: seq<DealInfo>, at: seq<nat>, k: nat)
    requires Chain(ds, at) && k < |at| && forall l :: k <= l < |at| - 1 ==> !Rise(ds, at, l)
    ensures ds[at[|at| - 1]].price <= ds[at[k]].price
    decreases |at| - k
  {
    if k == |at| - 1 {
    } else {
      NoRiseNoDearer(ds, at, k + 1);
      assert !Rise(ds, at, k);
    }
  }

  lemma {:induction false} Increasing(ds: seq<DealInfo>, at: seq<nat>, k: nat, l: nat)
    requires Chain(ds, at) && k <= l < |at|
    ensures at[k] <= at[l] && (k < l ==> at[k] < at[l])
    decreases l - k
  {
    if k == l {
    } else {
      Increasing(ds, at, k, l - 1);
      assert Linked(ds, at, l - 1);
    }
  }

  /** A deal cheaper than the answer came before a rise: a newer, dearer deal for the itinerary that
      was in force. */
  lemma CheaperNeedsARise(ds: seq<DealInfo>, at: seq<nat>, j: nat) returns (l: nat)
    requires Chain(ds, at) && InTimeOrder(ds) && j < |ds| && ds[j].price < ds[at[|at| - 1]].price
    ensures l + 1 < |at| && Rise(ds, at, l) && j < at[l + 1] && at[l] < at[l + 1]
    ensures SameItinerary(ds[at[l]], ds[at[l + 1]]) && ds[at[l]].timestamp < ds[at[l + 1]].timestamp
  {
    var k := SomeoneInForce(ds, at, j, |at| - 1);
    InForceIsNoDearer(ds, at, k, j);
    if forall l :: k <= l < |at| - 1 ==> !Rise(ds, at, l) {
      NoRiseNoDearer(ds, at, k);
      assert false;
    }
    l :| k <= l < |at| - 1 && Rise(ds, at, l);
    assert Linked(ds, at, l);
    Increasing(ds, at, k + 1, l + 1);
  }

  /** If no itinerary gets dearer with time, the answer is the cheapest deal of the group, the last one
      among equally cheap ones. */
  lemma WithoutRisesTheCheapest(ds: seq<DealInfo>)
    requires ds != [] && Priced(ds) && InTimeOrder(ds)
    requires forall i, j :: 0 <= i < j < |ds| && SameItinerary(ds[i], ds[j]) ==> ds[j].price <= ds[i].price
    ensures Fold(ds).history != []
    ensures exists m: nat :: LastCheapest(ds, m) && ds[m] == Picked(ds)
  {
    var at := HistoryIsTheChain(ds);
    InOrderPickEndsTheChain(ds, at);
    var m := at[|at| - 1];
    forall j | 0 <= j < |ds|
      ensures ds[m].price <= ds[j].price
    {
      if ds[j].price < ds[m].price {
        var l := CheaperNeedsARise(ds, at, j);
      }
    }
    forall j | m < j < |ds|
      ensures ds[m].price < ds[j].price
    {
      assert !Replaces(ds, m, j) && ds[m].timestamp <= ds[j].timestamp;
    }
  }

  /** Same itinerary, same second. */
  predicate Twins(ds: seq<DealInfo>, i: nat, j: nat)
    requires i < |ds| && j < |ds|
  {
    SameItinerary(ds[i], ds[j]) && ds[i].timestamp == ds[j].timestamp
  }

  /** Deal `j` was passed over while entry `l` was in force, and then entry `l` got dearer in the very
      second of `j`. */
  predicate PassedBeforeARise(ds: seq<DealInfo>, at: seq<nat>, l: nat, j: nat)
    requires l + 1 < |at| && at[l] < |ds| && at[l + 1] < |ds| && j < |ds|
  {
    at[l] < j < at[l + 1] && Rise(ds, at, l) && ds[at[l + 1]].timestamp == ds[j].timestamp
  }

  /** In time order, the answer is no dearer than the deals of its own itinerary and second, except for
      those that were passed over just before another itinerary got dearer in that second. */
  lemma TwinsOfTheAnswer(ds: seq<DealInfo>, at: seq<nat>, j: nat)
    requires Priced(ds) && InTimeOrder(ds) && Chain(ds, at) && j < |ds| && Twins(ds, j, at[|at| - 1])
    ensures ds[j].price < ds[at[|at| - 1]].price ==> exists l :: 0 <= l < |at| - 1 && PassedBeforeARise(ds, at, l, j)
  {
    var m := at[|at| - 1];
    if ds[j].price < ds[m].price {
      var l := CheaperNeedsARise(ds, at, j);
      Increasing(ds, at, l + 1, |at| - 1);
      assert ds[at[l + 1]].timestamp <= ds[m].timestamp;
      assert ds[j].timestamp <= ds[at[l + 1]].timestamp;
      assert Linked(ds, at, l);
      assert at[l] < j;
      assert PassedBeforeARise(ds, at, l, j);
    }
  }

  /** Hence the answer is the cheapest of its twins exactly if no cheaper twin was passed over so. */
  lemma CheapestTwinIff(ds: seq<DealInfo>, at: seq<nat>)
    requires Priced(ds) && InTimeOrder(ds) && Chain(ds, at)
    ensures (forall j :: 0 <= j < |ds| && Twins(ds, j, at[|at| - 1]) ==> ds[at[|at| - 1]].price <= ds[j].price)
            <==> forall l, j ::
                   (0 <= l < |at| - 1 && 0 <= j < |ds| && PassedBeforeARise(ds, at, l, j) && Twins(ds, j, at[|at| - 1]))
                   ==> ds[at[|at| - 1]].price <= ds[j].price
  {
    var m := at[|at| - 1];
    if forall l, j :: 0 <= l < |at| - 1 && 0 <= j < |ds| && PassedBeforeARise(ds, at, l, j) && Twins(ds, j, m)
         ==> ds[m].price <= ds[j].price
    {
      forall j | 0 <= j < |ds| && Twins(ds, j, m)
        ensures ds[m].price <= ds[j].price
      {
        TwinsOfTheAnswer(ds, at, j);
      }
    }
  }

  /** No two deals for different itineraries share a second. */
  predicate SecondsApart(ds: seq<DealInfo>) {
    forall i, j :: 0 <= i < |ds| && 0 <= j < |ds| && ds[i].timestamp == ds[j].timestamp ==> SameItinerary(ds[i], ds[j])
  }

  /** If no two deals of a group for different itineraries share a second, the answer is the cheapest of
      its twins. */
  lemma CheapestTwin(ds: seq<DealInfo>)
    requires ds != [] && Priced(ds) && InTimeOrder(ds) && SecondsApart(ds)
    ensures Fold(ds).history != []
    ensures forall j :: 0 <= j < |ds| && SameItinerary(ds[j], Picked(ds)) && ds[j].timestamp == Picked(ds).timestamp
              ==> Picked(ds).price <= ds[j].price
  {
    var at := HistoryIsTheChain(ds);
    InOrderPickEndsTheChain(ds, at);
    forall j | 0 <= j < |ds| && Twins(ds, j, at[|at| - 1])
      ensures ds[at[|at| - 1]].price <= ds[j].price
    {
      TwinIsNoCheaper(ds, at, j);
    }
  }

  lemma TwinIsNoCheaper(ds: seq<DealInfo>, at: seq<nat>, j: nat)
    requires Priced(ds) && InTimeOrder(ds) && Chain(ds, at) && j < |ds| && Twins(ds, j, at[|at| - 1])
    requires SecondsApart(ds)
    ensures ds[at[|at| - 1]].price <= ds[j].price
  {
    TwinsOfTheAnswer(ds, at, j);
    forall l | 0 <= l < |at| - 1
      ensures !PassedBeforeARise(ds, at, l, j)
    {
      NotPassed(ds, at, l, j);
    }
  }

  lemma NotPassed(ds: seq<DealInfo>, at: seq<nat>, l: nat, j: nat)
    requires InTimeOrder(ds) && Chain(ds, at) && l + 1 < |at| && j < |ds|
    requires ds[j].timestamp == ds[at[l + 1]].timestamp ==> SameItinerary(ds[j], ds[at[l + 1]])
    ensures !PassedBeforeARise(ds, at, l, j)
  {
    assert Linked(ds, at, l);
    assert at[l] < j < at[l + 1] ==> !Replaces(ds, at[l], j);
  }

  /** The exception is real. Itinerary B at 50; a second later A at 60, passed over; B at 100, which is
      newer; A at 80. The answer is 80, although there is the same flight from the same second at 60. */
  lemma CheaperTwinCanBeMissed(b1: DealInfo, a1: DealInfo, b2: DealInfo, a2: DealInfo)
    requires SameItinerary(a1, a2) && SameItinerary(b1, b2) && !SameItinerary(a1, b1)
    requires b1.timestamp < a1.timestamp == b2.timestamp == a2.timestamp
    requires b1.price == 50 && a1.price == 60 && b2.price == 100 && a2.price == 80
    ensures var ds := [b1, a1, b2, a2];
            Chain(ds, [0, 2, 3]) && InTimeOrder(ds) && Fold(ds).history != [] && Picked(ds) == a2
  {
    var ds := [b1, a1, b2, a2];
    assert NextIs(ds, 0, 2) && NextIs(ds, 2, 3);
    assert Linked(ds, [0, 2, 3], 0) && Linked(ds, [0, 2, 3], 1);
    InOrderPickEndsTheChain(ds, [0, 2, 3]);
  }

  /** Nor is the answer always the cheapest of the newest deals: 14 for one itinerary, 15 for another,
      then 16 for the first again. The answer is 16, although 15 stands for its itinerary. */
  lemma CheaperNewestCanBeMissed(a1: DealInfo, b: DealInfo, a2: DealInfo)
    requires SameItinerary(a1, a2) && !SameItinerary(a1, b)
    requires a1.timestamp < b.timestamp < a2.timestamp
    requires a1.price == 14 && b.price == 15 && a2.price == 16
    ensures var ds := [a1, b, a2];
            Fold(ds).history != [] && Picked(ds) == a2 && NewestOf(ds, b) && b.price < a2.price
  {
    var ds := [a1, b, a2];
    assert NextIs(ds, 0, 2);
    assert Linked(ds, [0, 2], 0);
    InOrderPickEndsTheChain(ds, [0, 2]);
  }

  /** Exactly: the answer is a cheapest among the newest deals of each itinerary if and only if no
      cheaper one of these came before a rise. */
  lemma CheapestOfNewestIff(ds: seq<DealInfo>, at: seq<nat>)
    requires Priced(ds) && InTimeOrder(ds) && Chain(ds, at)
    ensures (forall j :: 0 <= j < |ds| && NewestOf(ds, ds[j]) ==> ds[at[|at| - 1]].price <= ds[j].price)
            <==> forall l, j ::
                   (0 <= l < |at| - 1 && 0 <= j < at[l + 1] && Rise(ds, at, l) && NewestOf(ds, ds[j]))
                   ==> ds[at[|at| - 1]].price <= ds[j].price
  {
    var m := at[|at| - 1];
    if forall l, j :: 0 <= l < |at| - 1 && 0 <= j < at[l + 1] && Rise(ds, at, l) && NewestOf(ds, ds[j])
         ==> ds[m].price <= ds[j].price
    {
      forall j | 0 <= j < |ds| && NewestOf(ds, ds[j])
        ensures ds[m].price <= ds[j].price
      {
        if ds[j].price < ds[m].price {
          var l := CheaperNeedsARise(ds, at, j);
        }
      }
    }
  }
}
