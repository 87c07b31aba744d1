/** Runs in which the code loses a deal or a payload, or shows a search too much. Each starts with an
    empty database whose two tables have two pages of one slot, and each shows that a condition of a
    theorem about runs is needed. */
module Witnesses {
  import opened Base
  import opened PageIndex
  import opened Tables
  import opened DealTypes
  import opened DealTable
  import opened DealsSystem
  import opened DealsSafety

  // ---------------------------------------------------------------- tables of two one-slot pages

  /** The first page full until `expireAt`, the second one unused. */
  function OneFull(expireAt: nat): seq<Entry> {
    [Entry(expireAt, 0, Some(0)), Entry(0, 0, None)]
  }

  predicate Small<E>(T: Table<E>) {
    && T.max == 1 && T.life == EXPIRES
    && |T.index| == 2 && T.index[1] == Entry(0, 0, None)
    && |T.gens| == 2 && |T.pages| == 2 && |T.pages[0]| == 1
  }

  /** The first page handed out anew at `t`, for `e`. */
  function Regranted<E>(T: Table<E>, t: nat, e: E): Table<E>
    requires |T.gens| == 2
  {
    T.(index := OneFull(t + EXPIRES), gens := [T.gens[0] + 1, T.gens[1]],
       tickets := T.tickets + [Ticket(0, T.gens[0] + 1, 0, [e], t, false)])
  }

  /** How the first page is handed out: new, recycled after it expired, or evicted. */
  lemma VacantGrant<E(!new)>(T: Table<E>, t: nat, e: E)
    requires Small(T) && !Used(T.index[0])
    ensures var g := GrantFor(T, t, 1, false);
            g == Grant(New, 0, 0, OneFull(t + EXPIRES), 0) && Granted(T, g, t, [e]) == Regranted(T, t, e)
  {
    PickIs(T.index, t, 1, 0);
    assert GrantFor(T, t, 1, false).index == OneFull(t + EXPIRES);
    assert T.gens[0 := T.gens[0] + 1] == [T.gens[0] + 1, T.gens[1]];
  }

  lemma ExpiredGrant<E(!new)>(T: Table<E>, expireAt: nat, t: nat, e: E)
    requires Small(T) && T.index == OneFull(expireAt) && 0 < expireAt < t
    ensures var g := GrantFor(T, t, 1, false);
            g == Grant(Expired, 0, 0, OneFull(t + EXPIRES), 0) && Granted(T, g, t, [e]) == Regranted(T, t, e)
  {
    PickIs(T.index, t, 1, 0);
    assert GrantFor(T, t, 1, false).index == OneFull(t + EXPIRES);
    assert T.gens[0 := T.gens[0] + 1] == [T.gens[0] + 1, T.gens[1]];
  }

  lemma EvictGrant<E(!new)>(T: Table<E>, expireAt: nat, t: nat, e: E)
    requires Small(T) && T.index == OneFull(expireAt) && 0 < t <= expireAt
    ensures var g := GrantFor(T, t, 1, true);
            && g == Grant(EvictOldest, 0, 0, OneFull(t + EXPIRES), expireAt)
            && Granted(T, g, t, [e]) == Regranted(T, t, e)
  {
    var index := OneFull(expireAt);
    PickIs(index, t, 1, 1);
    assert index[..1] == [index[0]] && Used(index[..1][0]);
    assert IsOldest(index[..1], ChosenPage(index, t, 1, true));
    assert GrantFor(T, t, 1, true).index == OneFull(t + EXPIRES);
    assert T.gens[0 := T.gens[0] + 1] == [T.gens[0] + 1, T.gens[1]];
  }

  /** A copy into the first page. */
  lemma CopyIntoFirst<E(!new)>(T: Table<E>, k: nat, e: E)
    requires Small(T) && k < |T.tickets|
    requires T.tickets[k].page == 0 && T.tickets[k].start == 0 && T.tickets[k].data == [e]
    ensures Copied(T, k).pages == [[e], T.pages[1]] && Small(Copied(T, k))
  {
    assert Copied(T, k).pages[0] == [e];
  }

  // ---------------------------------------------------------------- parts of runs

  function Start(t: nat): State {
    Initial(t, 2, 2, 1, 2, 1)
  }

  lemma StartIs(t: nat)
    requires EXPIRES <= t
    ensures Reachable(Start(t)) && Start(t).procs == [Idle, Idle] && Small(Start(t).data) && Small(Start(t).deals)
    ensures Start(t).data.pages == [[0], [0]] && Start(t).deals.pages == [[NO_DEAL], [NO_DEAL]]
  {
    assert IsInitial(Start(t));
    StartIsReachable(Start(t));
    assert ZeroPage<bv8>(1, 0) == [0] && ZeroPage(1, NO_DEAL) == [NO_DEAL];
  }

  lemma InvIfReachable(s: State)
    requires Reachable(s)
    ensures Inv(s)
  {
    var states, steps :| Run(states, steps) && states[|states| - 1] == s;
    RunKeepsInv(states, steps, |steps|);
  }

  /** Process `p` reserves and fills the first payload page; `raised` is what an eviction raises the
      watermark to. */
  function WithPayload(s: State, p: nat, info: DealInfo, b: bv8, raised: nat): State
    requires p < |s.procs| && Small(s.data)
  {
    s.(watermark := Max(s.watermark, raised),
       procs := s.procs[p := Unstamped(info, [b], |s.data.tickets|)],
       data := Copied(Regranted(s.data, s.now, b), |s.data.tickets|))
  }

  /** The same before the copy. */
  function WithRoom(s: State, p: nat, info: DealInfo, b: bv8, raised: nat): State
    requires p < |s.procs| && Small(s.data)
  {
    s.(watermark := Max(s.watermark, raised),
       procs := s.procs[p := HoldData(info, [b], |s.data.tickets|)],
       data := Regranted(s.data, s.now, b))
  }

  /** A reservation of one slot gets the first page anew. */
  predicate GetsFirst<E(==)>(T: Table<E>, t: nat, e: E, memLow: bool, raised: nat)
    requires Small(T) && (Used(T.index[0]) ==> T.index[0].available <= 1)
  {
    var g := GrantFor(T, t, 1, memLow);
    && (memLow ==> Used(T.index[0]))
    && g.Grant? && g.watermark == raised && g.page == 0 && Granted(T, g, t, [e]) == Regranted(T, t, e)
  }

  lemma ReservePayload(s: State, p: nat, info: DealInfo, b: bv8, memLow: bool, raised: nat)
    requires Reachable(s) && p < |s.procs| && s.procs[p].Idle? && Small(s.data)
    requires (Used(s.data.index[0]) ==> s.data.index[0].available <= 1) && GetsFirst(s.data, s.now, b, memLow, raised)
    ensures Reachable(WithRoom(s, p, info, b, raised))
  {
    NextIsReachable(s, Begin(p, info, [b]));
    var s1 := Apply(s, Begin(p, info, [b]));
    NextIsReachable(s1, ReserveData(p, memLow));
    assert s1.procs[p := HoldData(info, [b], |s.data.tickets|)] == s.procs[p := HoldData(info, [b], |s.data.tickets|)];
  }

  lemma TakePayload(s: State, p: nat, info: DealInfo, b: bv8, memLow: bool, raised: nat)
    requires Reachable(s) && p < |s.procs| && s.procs[p].Idle? && Small(s.data)
    requires (Used(s.data.index[0]) ==> s.data.index[0].available <= 1) && GetsFirst(s.data, s.now, b, memLow, raised)
    ensures Reachable(WithPayload(s, p, info, b, raised))
    ensures WithPayload(s, p, info, b, raised).data.pages == [[b], s.data.pages[1]]
    ensures Small(WithPayload(s, p, info, b, raised).data)
  {
    ReservePayload(s, p, info, b, memLow, raised);
    var s1 := WithRoom(s, p, info, b, raised);
    InvIfReachable(s1);
    CopiesInTimePass(s1, p);
    NextIsReachable(s1, CopyData(p));
    CopyIntoFirst(s1.data, |s.data.tickets|, b);
    assert s1.procs[p := Unstamped(info, [b], |s.data.tickets|)] == s.procs[p := Unstamped(info, [b], |s.data.tickets|)];
  }

  /** The deal that process `p` is about to index. */
  function Pending(s: State, p: nat): Added
    requires p < |s.procs| && s.procs[p].Unstamped? && s.procs[p].ticket < |s.data.tickets|
  {
    var Unstamped(info, bytes, k) := s.procs[p];
    Added(StampedDeal(info, s.now, s.data.tickets[k]), bytes, k)
  }

  /** Process `p` has stamped its deal and reserved the first index page for it. */
  function WithSlot(s: State, p: nat, raised: nat): State
    requires p < |s.procs| && s.procs[p].Unstamped? && s.procs[p].ticket < |s.data.tickets| && Small(s.deals)
  {
    s.(watermark := Max(s.watermark, raised),
       procs := s.procs[p := HoldIndex(Pending(s, p), |s.deals.tickets|)],
       deals := Regranted(s.deals, s.now, Pending(s, p).deal))
  }

  lemma StampDeal(s: State, p: nat)
    requires Reachable(s) && p < |s.procs| && s.procs[p].Unstamped? && s.procs[p].ticket < |s.data.tickets|
    ensures Reachable(s.(procs := s.procs[p := WantIndex(Pending(s, p), s.now)]))
  {
    NextIsReachable(s, Stamp(p));
    var s1 := Apply(s, Stamp(p));
    NextIsReachable(s1, BeginIndex(p));
    assert s1.procs[p := WantIndex(Pending(s, p), s.now)] == s.procs[p := WantIndex(Pending(s, p), s.now)];
  }

  lemma TakeSlot(s: State, p: nat, memLow: bool, raised: nat)
    requires Reachable(s) && p < |s.procs| && s.procs[p].Unstamped? && s.procs[p].ticket < |s.data.tickets|
    requires Small(s.deals) && (Used(s.deals.index[0]) ==> s.deals.index[0].available <= 1)
    requires GetsFirst(s.deals, s.now, Pending(s, p).deal, memLow, raised)
    ensures Reachable(WithSlot(s, p, raised))
  {
    StampDeal(s, p);
    var q := HoldIndex(Pending(s, p), |s.deals.tickets|);
    var s1 := s.(procs := s.procs[p := WantIndex(Pending(s, p), s.now)]);
    NextIsReachable(s1, ReserveIndex(p, memLow));
    assert s1.procs[p := q] == s.procs[p := q];
  }

  /** Process `p` has copied its deal. */
  function Indexed(s: State, p: nat): State
    requires p < |s.procs| && s.procs[p].HoldIndex? && InRange(s.deals, s.procs[p].slot)
  {
    var HoldIndex(a, k) := s.procs[p];
    s.(procs := s.procs[p := Idle], deals := Copied(s.deals, k), log := s.log + [a])
  }

  lemma FillSlot(s: State, p: nat)
    requires Reachable(s) && p < |s.procs| && s.procs[p].HoldIndex? && InRange(s.deals, s.procs[p].slot)
    requires IsCurrent(s.deals, s.deals.tickets[s.procs[p].slot])
    ensures Reachable(Indexed(s, p))
  {
    InvIfReachable(s);
    CopiesInTimePass(s, p);
    NextIsReachable(s, CopyIndex(p));
  }

  /** A reachable state whose log is one live deal: a search finds it. */
  lemma OnlyDealIsFound(s: State)
    requires Reachable(s) && |s.log| == 1 && Live(s.log[0].deal, s.Limit())
    ensures s.log[0].deal in Scan(s.deals, s.now, s.watermark)
  {
    var states, steps :| Run(states, steps) && states[|states| - 1] == s;
    EverySearchRefinesTheLog(states, steps, |steps|);
    var d, live := s.log[0].deal, e => Live(e, s.Limit());
    FilterCount(DealsOf(s.log), live, d);
    assert DealsOf(s.log)[0] == d;
    assert d in multiset(Scan(s.deals, s.now, s.watermark));
  }

  lemma OneByte(s: State, d: DealInfo, c: bv8)
    requires d.pageName == Some(0) && d.index == 0 && d.size == 1 && |s.data.pages| > 0 && s.data.pages[0] == [c]
    ensures Payload(s, d) == Some([c])
  {
    assert s.data.pages[0][0..1] == [c];
  }

  // ---------------------------------------------------------------- beginnings

  /** Process 0 has copied the byte `b` at `t`, and nothing else has happened. */
  lemma FirstPayload(t: nat, info: DealInfo, b: bv8) returns (s: State)
    requires EXPIRES <= t
    ensures Reachable(s) && s == Start(t).(procs := [Unstamped(info, [b], 0), Idle], data := s.data)
    ensures Small(s.data) && s.data.index == OneFull(t + EXPIRES) && s.data.gens == [1, 0] && s.data.pages == [[b], [0]]
    ensures s.data.tickets == [Ticket(0, 1, 0, [b], t, true)]
    ensures Small(s.deals) && s.deals.pages == [[NO_DEAL], [NO_DEAL]] && !Used(s.deals.index[0])
  {
    StartIs(t);
    VacantGrant(Start(t).data, t, b);
    TakePayload(Start(t), 0, info, b, false, 0);
    s := WithPayload(Start(t), 0, info, b, 0);
    assert s.procs == [Unstamped(info, [b], 0), Idle];
  }

  /** What the first deal indexed looks like, if `later` seconds pass after the copy. */
  lemma FirstDeal(t: nat, info: DealInfo, b: bv8, later: nat) returns (s: State)
    requires EXPIRES <= t
    ensures Reachable(s) && s.now == t + later && s.watermark == 0 && s.procs == [Idle, Idle]
    ensures s.dataCleared == 0 && |s.log| == 1 && s.log[0].ticket == 0 && s.log[0].bytes == [b]
    ensures s.log[0].deal == StampedDeal(info, t + later, Ticket(0, 1, 0, [b], t, true))
    ensures Small(s.data) && s.data.index == OneFull(t + EXPIRES) && s.data.gens == [1, 0] && s.data.pages == [[b], [0]]
    ensures s.data.tickets == [Ticket(0, 1, 0, [b], t, true)]
  {
    var s1 := FirstPayload(t, info, b);
    NextIsReachable(s1, Tick(later));
    var s2 := Apply(s1, Tick(later));
    VacantGrant(s2.deals, s2.now, Pending(s2, 0).deal);
    TakeSlot(s2, 0, false, 0);
    var s3 := WithSlot(s2, 0, 0);
    FillSlot(s3, 0);
    s := Indexed(s3, 0);
    assert s.procs == [Idle, Idle];
  }

  // ---------------------------------------------------------------- lost payloads

  /** A truncation between the two halves of an insertion. The deal is stamped in the second of its
      reservation and a search finds it, but its payload is gone: where its byte was, there is a
      zero. */
  lemma TruncationLosesAPayload(t: nat, info: DealInfo, b: bv8) returns (s: State)
    requires EXPIRES <= t && b != 0
    ensures Reachable(s) && |s.log| == 1
    ensures var a := s.log[0];
            && a.deal in Scan(s.deals, s.now, s.watermark)
            && a.ticket < |s.data.tickets| && a.deal.timestamp == s.data.tickets[a.ticket].time
            && a.bytes == [b] && Payload(s, a.deal) == Some([0])
  {
    var s2 := PayloadTruncated(t, info, b);
    VacantGrant(s2.deals, s2.now, Pending(s2, 0).deal);
    TakeSlot(s2, 0, false, 0);
    var s3 := WithSlot(s2, 0, 0);
    FillSlot(s3, 0);
    s := Indexed(s3, 0);
    OnlyDealIsFound(s);
    OneByte(s, s.log[0].deal, 0);
  }

  lemma PayloadTruncated(t: nat, info: DealInfo, b: bv8) returns (s: State)
    requires EXPIRES <= t
    ensures Reachable(s) && s.now == t && s.watermark == 0 && s.log == []
    ensures s.procs == [Unstamped(info, [b], 0), Idle]
    ensures s.data.tickets == [Ticket(0, 1, 0, [b], t, true)] && Small(s.data) && s.data.pages[0] == [0]
    ensures Small(s.deals) && !Used(s.deals.index[0])
  {
    var s1 := FirstPayload(t, info, b);
    NextIsReachable(s1, Truncate);
    s := Apply(s1, Truncate);
    TruncatedPayload(s1.data);
    TruncatedEmpty(s1.deals);
  }

  lemma TruncatedPayload(T: Table<bv8>)
    requires Small(T) && Used(T.index[0]) && !Used(T.index[1])
    ensures var U := CleanedUp(T, 0);
            Small(U) && !Used(U.index[0]) && U.pages[0] == [0] && U.gens == [T.gens[0] + 1, T.gens[1]]
  {
    assert ZeroPage<bv8>(1, 0) == [0];
  }

  lemma TruncatedEmpty(T: Table<DealInfo>)
    requires Small(T) && !Used(T.index[0])
    ensures CleanedUp(T, NO_DEAL) == T
  {
    var U := CleanedUp(T, NO_DEAL);
    assert U.index == T.index && U.pages == T.pages && U.gens == T.gens;
  }

  /** A stamp one second late. The payload page is then evicted for another deal's byte. The first
      deal stays in view, since it expires one second after its payload, and reads the other byte. */
  lemma LateStampReadsForeignBytes(t: nat, info: DealInfo, b: bv8, c: bv8) returns (s: State)
    requires EXPIRES <= t && b != c
    ensures Reachable(s) && |s.log| == 1
    ensures var a := s.log[0];
            && a.deal in Scan(s.deals, s.now, s.watermark)
            && s.dataCleared <= a.ticket < |s.data.tickets|
            && a.deal.timestamp == s.data.tickets[a.ticket].time + 1
            && a.bytes == [b] && Payload(s, a.deal) == Some([c])
  {
    var s1 := FirstDeal(t, info, b, 1);
    EvictGrant(s1.data, t + EXPIRES, t + 1, c);
    TakePayload(s1, 1, info, c, true, t + EXPIRES);
    s := WithPayload(s1, 1, info, c, t + EXPIRES);
    OnlyDealIsFound(s);
    OneByte(s, s.log[0].deal, c);
  }

  /** A stamp two seconds late, and nothing wrong with memory. A second after the payload page has
      expired it is recycled for another deal's byte, while the first deal has a second to live. */
  lemma LateStampOutlivesItsPage(t: nat, info: DealInfo, b: bv8, c: bv8) returns (s: State)
    requires EXPIRES <= t && b != c
    ensures Reachable(s) && |s.log| == 1 && s.watermark == 0
    ensures var a := s.log[0];
            && a.deal in Scan(s.deals, s.now, s.watermark)
            && s.dataCleared <= a.ticket < |s.data.tickets|
            && a.deal.timestamp == s.data.tickets[a.ticket].time + 2
            && a.bytes == [b] && Payload(s, a.deal) == Some([c])
  {
    var s1 := FirstDeal(t, info, b, 2);
    NextIsReachable(s1, Tick(EXPIRES - 1));
    var s2 := Apply(s1, Tick(EXPIRES - 1));
    ExpiredGrant(s2.data, t + EXPIRES, s2.now, c);
    TakePayload(s2, 1, info, c, false, 0);
    s := WithPayload(s2, 1, info, c, 0);
    OnlyDealIsFound(s);
    OneByte(s, s.log[0].deal, c);
  }

  /** A late copy into the payload table. Process 0 reserves a slot and stalls; memory runs low, and
      process 1 evicts the page, fills it and indexes its deal, whole and in view. The late copy of
      process 0 is then enabled, but not in order, and overwrites the byte of that deal. */
  lemma LateCopySpoilsAPayload(t: nat, info: DealInfo, b: bv8, c: bv8) returns (s: State)
    requires EXPIRES <= t && b != c
    ensures Reachable(s) && Inv(s) && |s.log| == 1
    ensures Enabled(s, CopyData(0)) && !Orderly(s, CopyData(0))
    ensures var a, s' := s.log[0], Apply(s, CopyData(0));
            && Whole(s, a) && Payload(s, a.deal) == Some(a.bytes) == Some([c])
            && s'.log == s.log && a.deal in Scan(s'.deals, s'.now, s'.watermark)
            && Payload(s', a.deal) == Some([b])
  {
    var s3 := Stalled(t, info, b, c);
    VacantGrant(s3.deals, s3.now, Pending(s3, 1).deal);
    TakeSlot(s3, 1, false, 0);
    var s4 := WithSlot(s3, 1, 0);
    FillSlot(s4, 1);
    s := Indexed(s4, 1);
    OnlyDealIsFound(s);
    InvIfReachable(s);
    assert CoveredBy(s, s.log[0], 1);
    LateCopyOverwrites(s, b, c);
    OneByte(s, s.log[0].deal, c);
    OneByte(Apply(s, CopyData(0)), s.log[0].deal, b);
  }

  /** Process 0 holds a payload slot that process 1 has evicted a second later and filled. */
  lemma Stalled(t: nat, info: DealInfo, b: bv8, c: bv8) returns (s: State)
    requires EXPIRES <= t
    ensures Reachable(s) && s.now == t + 1 && s.watermark == t + EXPIRES && s.log == [] && s.dataCleared == 0
    ensures s.procs == [HoldData(info, [b], 0), Unstamped(info, [c], 1)]
    ensures s.data.pages == [[c], [0]] && s.data.gens == [2, 0]
    ensures s.data.tickets == [Ticket(0, 1, 0, [b], t, false), Ticket(0, 2, 0, [c], t + 1, true)]
    ensures Small(s.deals) && !Used(s.deals.index[0])
  {
    var s2 := RoomTaken(t, info, b);
    EvictGrant(s2.data, t + EXPIRES, t + 1, c);
    TakePayload(s2, 1, info, c, true, t + EXPIRES);
    s := WithPayload(s2, 1, info, c, t + EXPIRES);
    assert s.procs == [HoldData(info, [b], 0), Unstamped(info, [c], 1)];
  }

  lemma RoomTaken(t: nat, info: DealInfo, b: bv8) returns (s: State)
    requires EXPIRES <= t
    ensures Reachable(s) && s.now == t + 1 && s.watermark == 0 && s.log == [] && s.dataCleared == 0
    ensures s.procs == [HoldData(info, [b], 0), Idle]
    ensures Small(s.data) && s.data.index == OneFull(t + EXPIRES) && s.data.gens == [1, 0] && s.data.pages == [[0], [0]]
    ensures s.data.tickets == [Ticket(0, 1, 0, [b], t, false)]
    ensures Small(s.deals) && !Used(s.deals.index[0])
  {
    StartIs(t);
    VacantGrant(Start(t).data, t, b);
    ReservePayload(Start(t), 0, info, b, false, 0);
    var s1 := WithRoom(Start(t), 0, info, b, 0);
    NextIsReachable(s1, Tick(1));
    s := Apply(s1, Tick(1));
    assert s.procs == [HoldData(info, [b], 0), Idle];
  }

  lemma LateCopyOverwrites(s: State, b: bv8, c: bv8)
    requires Inv(s) && s.data.pages == [[c], [0]] && s.data.gens == [2, 0] && b != c
    requires |s.data.tickets| == 2 && |s.procs| == 2 && s.procs[0].HoldData? && s.procs[0].ticket == 0
    requires var k := s.data.tickets[0]; k.page == 0 && k.start == 0 && k.data == [b]
    requires var k := s.data.tickets[1]; k.page == 0 && k.gen == 2 && k.start == 0 && k.data == [c] && k.written
    ensures Enabled(s, CopyData(0)) && !Orderly(s, CopyData(0))
    ensures Apply(s, CopyData(0)).data.pages[0] == [b]
  {
    var k, j := s.data.tickets[0], s.data.tickets[1];
    assert Puts(k, 0) == b && Puts(j, 0) == c;
    assert !Agree(k, j);
  }

  // ---------------------------------------------------------------- lost and stray deals

  /** Process 0 holds the first index slot for its deal, stamped at `t`, and does not copy. */
  lemma SlotHeld(t: nat, info: DealInfo, b: bv8) returns (s: State)
    requires EXPIRES <= t
    ensures Reachable(s) && s.now == t && s.watermark == 0 && s.log == [] && |s.procs| == 2 && s.procs[1] == Idle
    ensures s.procs[0] == HoldIndex(Added(StampedDeal(info, t, Ticket(0, 1, 0, [b], t, true)), [b], 0), 0)
    ensures Small(s.data) && s.data.index == OneFull(t + EXPIRES) && s.data.gens == [1, 0] && |s.data.tickets| == 1
    ensures s.data.tickets[0] == Ticket(0, 1, 0, [b], t, true)
    ensures Small(s.deals) && s.deals.index == OneFull(t + EXPIRES) && s.deals.gens == [1, 0]
    ensures s.deals.pages == [[NO_DEAL], [NO_DEAL]]
    ensures s.deals.tickets == [Ticket(0, 1, 0, [s.procs[0].added.deal], t, false)]
  {
    var s1 := FirstPayload(t, info, b);
    VacantGrant(s1.deals, t, Pending(s1, 0).deal);
    TakeSlot(s1, 0, false, 0);
    s := WithSlot(s1, 0, 0);
  }

  /** A late copy into the deals table. Process 0 reserves an index slot and stalls; a second later memory
      is low in both tables, and process 1 evicts both pages and indexes its deal there, in view. The
      late copy of process 0 is then enabled, but not in order; after it the deal of process 1, live
      and in the log, is in no search. */
  lemma LateCopyLosesADeal(t: nat, info: DealInfo, b: bv8, c: bv8) returns (s: State)
    requires EXPIRES <= t
    ensures Reachable(s) && Inv(s) && |s.log| == 1
    ensures Enabled(s, CopyIndex(0)) && !Orderly(s, CopyIndex(0))
    ensures var e, s' := s.log[0].deal, Apply(s, CopyIndex(0));
            && e in Scan(s.deals, s.now, s.watermark)
            && |s'.log| == 2 && s'.log[0].deal == e && Live(e, s'.Limit())
            && e !in Scan(s'.deals, s'.now, s'.watermark)
            && !Refines(s'.deals, s'.now, s'.watermark, DealsOf(s'.log))
  {
    s := SlotOvertaken(t, info, b, c);
    OnlyDealIsFound(s);
    InvIfReachable(s);
    LateCopyErases(s);
  }

  /** Process 1 has evicted the slot of process 0 and filled it. */
  lemma SlotOvertaken(t: nat, info: DealInfo, b: bv8, c: bv8) returns (s: State)
    requires EXPIRES <= t
    ensures Reachable(s) && s.now == t + 1 && s.watermark == t + EXPIRES && |s.procs| == 2
    ensures |s.log| == 1 && s.log[0].deal.timestamp == t + 1
    ensures s.procs[0].HoldIndex? && s.procs[0].slot == 0 && s.procs[0].added.deal.timestamp == t
    ensures Small(s.deals) && s.deals.index == OneFull(t + 1 + EXPIRES) && s.deals.gens == [2, 0]
    ensures s.deals.pages == [[s.log[0].deal], [NO_DEAL]]
    ensures s.deals.tickets == [Ticket(0, 1, 0, [s.procs[0].added.deal], t, false),
                                Ticket(0, 2, 0, [s.log[0].deal], t + 1, true)]
  {
    var s2 := PayloadOvertaken(t, info, b, c);
    var e := Pending(s2, 1).deal;
    EvictGrant(s2.deals, t + EXPIRES, t + 1, e);
    TakeSlot(s2, 1, true, t + EXPIRES);
    var s3 := WithSlot(s2, 1, t + EXPIRES);
    CopyIntoFirst(s3.deals, 1, e);
    FillSlot(s3, 1);
    s := Indexed(s3, 1);
  }

  /** Process 1 has evicted the payload of process 0, a second after it reserved its index slot. */
  lemma PayloadOvertaken(t: nat, info: DealInfo, b: bv8, c: bv8) returns (s: State)
    requires EXPIRES <= t
    ensures Reachable(s) && s.now == t + 1 && s.watermark == t + EXPIRES && |s.procs| == 2 && s.log == []
    ensures s.procs[0].HoldIndex? && s.procs[0].slot == 0 && s.procs[0].added.deal.timestamp == t
    ensures s.procs[1].Unstamped? && s.procs[1].ticket < |s.data.tickets|
    ensures Small(s.deals) && s.deals.index == OneFull(t + EXPIRES) && s.deals.gens == [1, 0]
    ensures s.deals.pages == [[NO_DEAL], [NO_DEAL]]
    ensures s.deals.tickets == [Ticket(0, 1, 0, [s.procs[0].added.deal], t, false)]
  {
    var s0 := SlotHeld(t, info, b);
    NextIsReachable(s0, Tick(1));
    var s1 := Apply(s0, Tick(1));
    EvictGrant(s1.data, t + EXPIRES, t + 1, c);
    TakePayload(s1, 1, info, c, true, t + EXPIRES);
    s := WithPayload(s1, 1, info, c, t + EXPIRES);
  }

  lemma LateCopyErases(s: State)
    requires Inv(s) && |s.log| == 1 && |s.procs| == 2 && s.procs[0].HoldIndex? && s.procs[0].slot == 0
    requires var d, e := s.procs[0].added.deal, s.log[0].deal;
             && Live(e, s.Limit()) && !Live(d, s.Limit()) && Small(s.deals)
             && |s.deals.tickets| == 2 && s.deals.pages == [[e], [NO_DEAL]]
             && s.deals.tickets[0].page == 0 && s.deals.tickets[0].start == 0 && s.deals.tickets[0].data == [d]
    ensures Enabled(s, CopyIndex(0)) && !Orderly(s, CopyIndex(0))
    ensures var e, s' := s.log[0].deal, Apply(s, CopyIndex(0));
            && s'.log == s.log + [s.procs[0].added]
            && e !in Scan(s'.deals, s'.now, s'.watermark)
            && !Refines(s'.deals, s'.now, s'.watermark, DealsOf(s'.log))
  {
    var d, e, s' := s.procs[0].added.deal, s.log[0].deal, Apply(s, CopyIndex(0));
    assert SlotContent(s.deals, 0) == e;
    CopyIntoFirst(s.deals, 0, d);
    assert TicketOk(s.deals, s.deals.tickets[0]);
    CopyKeepsLayout(s.deals, 0);
    NothingLiveShown(s', e);
    var live := x => Live(x, s'.Limit());
    FilterCount(DealsOf(s'.log), live, e);
    assert DealsOf(s'.log)[0] == e;
  }

  lemma SliceLacks(T: Table<DealInfo>, p: nat, now: nat, watermark: nat, e: DealInfo)
    requires Shape(T) && p < |T.pages| && forall x :: 0 <= x < |T.pages[p]| ==> T.pages[p][x] != e
    ensures multiset(AliveSlices(T, now, watermark)[p])[e] == 0
  {
    NotIn(Slice(T, p), e);
  }

  /** A deal that no page holds is in no search. */
  lemma NothingLiveShown(s: State, e: DealInfo)
    requires Shape(s.deals) && forall p, x :: 0 <= p < |s.deals.pages| && 0 <= x < |s.deals.pages[p]| ==> s.deals.pages[p][x] != e
    ensures e !in Scan(s.deals, s.now, s.watermark)
  {
    var slices, none := AliveSlices(s.deals, s.now, s.watermark), seq(|s.deals.index|, i => []);
    ScanCounts(s.deals, s.now, s.watermark, e);
    forall p | 0 <= p < |slices|
      ensures multiset(slices[p])[e] == multiset(none[p])[e]
    {
      SliceLacks(s.deals, p, s.now, s.watermark, e);
    }
    OccurrencesAgree(slices, none, e);
    NoOccurrences(none, e);
    assert multiset(Scan(s.deals, s.now, s.watermark))[e] == 0;
  }

  /** A copy overtaken by a truncation reaches a search. Process 0 holds an index slot; the tables are
      truncated, and process 1 reserves the same slot. A search fixes its cutoff in that state. A day
      later, with the page not recycled, process 0 copies its deal, which by then is out of view, so that
      the copy is in order. The deal passes the cutoff, but nobody put it there in the page's present
      generation. */
  lemma OvertakenCopyReachesASearch(t: nat, info: DealInfo, b: bv8, c: bv8)
    returns (states: seq<State>, steps: seq<Step>, i: nat)
    requires EXPIRES <= t
    ensures Run(states, steps) && |states| == i + 3
    ensures var r, s := states[i], states[i + 2];
            && |r.deals.index| == |r.deals.gens| == |s.deals.gens| == |s.deals.pages| == 2 && r.deals.gens[0] == s.deals.gens[0]
            && Alive(r.deals.index[0], r.now, r.watermark) && |s.deals.pages[0]| == 1
            && PassesCutoff(s.deals.pages[0][0], Cutoff(r.now, r.watermark)) && !Backed(s.deals, 0, 0)
  {
    var r := SlotReservedAgain(t, info, b, c);
    InvIfReachable(r);
    var s1 := r.(now := t + EXPIRES);
    StrayCopy(s1, t);
    states, steps, i := TwoStepsMore(r, Tick(EXPIRES), CopyIndex(0));
  }

  /** A run through `s` that goes on with two more steps. */
  lemma TwoStepsMore(s: State, first: Step, second: Step) returns (states: seq<State>, steps: seq<Step>, i: nat)
    requires Reachable(s) && Inv(s) && Enabled(s, first) && Orderly(s, first)
    requires Shape(Apply(s, first).data) && Shape(Apply(s, first).deals)
    requires Enabled(Apply(s, first), second) && Orderly(Apply(s, first), second)
    ensures Run(states, steps) && |states| == i + 3 && states[i] == s
    ensures states[i + 2] == Apply(Apply(s, first), second)
  {
    states, steps :| Run(states, steps) && states[|states| - 1] == s;
    i := |steps|;
    RunGoesOn(states, steps, first);
    states, steps := states + [Apply(s, first)], steps + [first];
    RunGoesOn(states, steps, second);
    states, steps := states + [Apply(Apply(s, first), second)], steps + [second];
  }

  /** A day after it was stamped the stray deal may be copied in order. */
  lemma StrayCopy(s: State, t: nat)
    requires EXPIRES <= t && s.now == t + EXPIRES && s.watermark == 0 && |s.procs| == 2 && Shape(s.data) && Shape(s.deals)
    requires s.procs[0].HoldIndex? && s.procs[0].slot == 0 && s.procs[0].added.deal.timestamp == t
    requires Small(s.deals) && s.deals.gens == [3, 0] && s.deals.pages[0] == [NO_DEAL] && |s.deals.tickets| == 2
    requires s.deals.tickets[0] == Ticket(0, 1, 0, [s.procs[0].added.deal], t, false) && !s.deals.tickets[1].written
    ensures Enabled(s, CopyIndex(0)) && Orderly(s, CopyIndex(0))
    ensures var U := Apply(s, CopyIndex(0)).deals;
            && U.gens == [3, 0] && |U.pages| == 2 && |U.pages[0]| == 1 && U.pages[0][0].timestamp == t && !Backed(U, 0, 0)
  {
    assert SlotContent(s.deals, 0) == NO_DEAL;
    CopyIntoFirst(s.deals, 0, s.procs[0].added.deal);
    NotBackedByEither(Apply(s, CopyIndex(0)).deals);
  }

  lemma NotBackedByEither(T: Table<DealInfo>)
    requires |T.pages| == 2 && |T.pages[0]| == 1 && |T.tickets| == 2
    requires !IsCurrent(T, T.tickets[0]) && !T.tickets[1].written
    ensures !Backed(T, 0, 0)
  {
  }

  lemma SlotReservedAgain(t: nat, info: DealInfo, b: bv8, c: bv8) returns (s: State)
    requires EXPIRES <= t
    ensures Reachable(s) && s.now == t && s.watermark == 0 && |s.procs| == 2
    ensures s.procs[0].HoldIndex? && s.procs[0].slot == 0 && s.procs[0].added.deal.timestamp == t
    ensures Small(s.deals) && s.deals.index == OneFull(t + EXPIRES) && s.deals.gens == [3, 0]
    ensures s.deals.pages[0] == [NO_DEAL] && |s.deals.tickets| == 2
    ensures s.deals.tickets[0] == Ticket(0, 1, 0, [s.procs[0].added.deal], t, false)
    ensures !s.deals.tickets[1].written
  {
    var s1 := SlotTruncated(t, info, b);
    VacantGrant(s1.data, t, c);
    TakePayload(s1, 1, info, c, false, 0);
    var s2 := WithPayload(s1, 1, info, c, 0);
    VacantGrant(s2.deals, t, Pending(s2, 1).deal);
    TakeSlot(s2, 1, false, 0);
    s := WithSlot(s2, 1, 0);
  }

  lemma SlotTruncated(t: nat, info: DealInfo, b: bv8) returns (s: State)
    requires EXPIRES <= t
    ensures Reachable(s) && s.now == t && s.watermark == 0 && |s.procs| == 2 && s.procs[1] == Idle
    ensures s.procs[0].HoldIndex? && s.procs[0].slot == 0 && s.procs[0].added.deal.timestamp == t
    ensures Small(s.data) && !Used(s.data.index[0])
    ensures Small(s.deals) && !Used(s.deals.index[0]) && s.deals.gens == [2, 0] && s.deals.pages[0] == [NO_DEAL]
    ensures s.deals.tickets == [Ticket(0, 1, 0, [s.procs[0].added.deal], t, false)]
  {
    var s0 := SlotHeld(t, info, b);
    NextIsReachable(s0, Truncate);
    s := Apply(s0, Truncate);
    TruncatedPayload(s0.data);
    TruncatedSlot(s0.deals);
  }

  lemma TruncatedSlot(T: Table<DealInfo>)
    requires Small(T) && Used(T.index[0]) && !Used(T.index[1])
    ensures var U := CleanedUp(T, NO_DEAL);
            Small(U) && !Used(U.index[0]) && U.pages[0] == [NO_DEAL] && U.gens == [T.gens[0] + 1, T.gens[1]]
  {
    assert ZeroPage(1, NO_DEAL) == [NO_DEAL];
  }
}
