/** The index table of deals refines an append-only log.

    `m` stands for the larger of the clock and the shared watermark. A deal is live while its
    timestamp plus one day lies ahead of `m`. */
module DealTable {
  import opened Base
  import opened PageIndex
  import opened Tables
  import opened DealTypes

  predicate Live(d: DealInfo, m: nat) {
    d.timestamp + EXPIRES > m
  }

  /** The record-level test of a search, on the cutoff computed when the search starts. */
  predicate PassesCutoff(d: DealInfo, cutoff: int) {
    d.timestamp > cutoff
  }

  function Cutoff(now: nat, watermark: nat): int {
    Max(now, watermark) - EXPIRES
  }

  /** The page an index entry names, as the scan looks it up; None if the name is empty. */
  function PageOf<E>(T: Table<E>, i: nat): Option<nat>
    requires i < |T.index|
  {
    match T.index[i].name
    case None => None
    case Some(p) => if p < |T.pages| then Some(p) else None
  }

  /** The elements that one visited entry hands to the search and that pass the cutoff. */
  function Visit(T: Table<DealInfo>, i: nat, cutoff: int): seq<DealInfo>
    requires i < |T.index|
  {
    match PageOf(T, i)
    case None => []
    case Some(p) =>
      Filter(T.pages[p][..Min(Size(T, i), |T.pages[p]|)], d => PassesCutoff(d, cutoff))
  }

  function VisitAll(T: Table<DealInfo>, list: seq<nat>, cutoff: int): seq<DealInfo>
    requires forall a :: 0 <= a < |list| ==> list[a] < |T.index|
  {
    if list == [] then []
    else VisitAll(T, list[..|list| - 1], cutoff) + Visit(T, list[|list| - 1], cutoff)
  }

  /** Everything one search hands to `process_deal`'s filters, in order, with a cutoff fixed before
      the pages are collected. */
  function ScanWith(T: Table<DealInfo>, now: nat, watermark: nat, cutoff: int): seq<DealInfo> {
    VisitAll(T, ScanList(T.index, now, watermark), cutoff)
  }

  /** The search whose cutoff is fixed in the same second. */
  function Scan(T: Table<DealInfo>, now: nat, watermark: nat): seq<DealInfo> {
    ScanWith(T, now, watermark, Cutoff(now, watermark))
  }

  // ---------------------------------------------------------------- invariant

  /** Each reservation is for one deal, stamped no later than the reservation was requested. */
  ghost predicate DealTickets(T: Table<DealInfo>) {
    forall k :: 0 <= k < |T.tickets| ==>
      |T.tickets[k].data| == 1 && T.tickets[k].data[0].timestamp <= T.tickets[k].time
  }

  /** Ticket `k` put there, in the present generation of page `p`, what slot `x` holds. */
  predicate PutBy(T: Table<DealInfo>, k: nat, p: nat, x: nat)
    requires k < |T.tickets| && p < |T.pages| && x < |T.pages[p]|
  {
    T.tickets[k].written && Covers(T, T.tickets[k], p, x) && T.tickets[k].data == [T.pages[p][x]]
  }

  ghost predicate Backed(T: Table<DealInfo>, p: nat, x: nat)
    requires p < |T.pages| && x < |T.pages[p]|
  {
    exists k :: 0 <= k < |T.tickets| && PutBy(T, k, p, x)
  }

  /** A slot whose content was not put there in the present generation holds nothing live. */
  ghost predicate DeadSlots(T: Table<DealInfo>, m: nat) {
    forall p, x :: 0 <= p < |T.pages| && 0 <= x < |T.pages[p]| ==>
      !Live(T.pages[p][x], m) || Backed(T, p, x)
  }

  /** Every live deal occurs in the pages exactly as often as in the log. */
  ghost predicate Counted(T: Table<DealInfo>, m: nat, log: seq<DealInfo>)
    requires |T.pages| == |T.index|
  {
    forall d :: Live(d, m) ==> Occurrences(Slices(T), d) == multiset(log)[d]
  }

  ghost predicate DealInv(T: Table<DealInfo>, m: nat, log: seq<DealInfo>) {
    && Layout(T)
    && T.life == EXPIRES
    && EXPIRES <= m
    && DealTickets(T)
    && DeadSlots(T, m)
    && Counted(T, m, log)
  }

  // ---------------------------------------------------------------- bounds

  /** Page-level expiry bounds record-level expiry. */
  lemma SlotBounded(T: Table<DealInfo>, m: nat, p: nat, x: nat)
    requires Layout(T) && T.life == EXPIRES && DealTickets(T) && DeadSlots(T, m)
    requires p < |T.pages| && x < T.max
    ensures !Live(T.pages[p][x], m)
            || (Used(T.index[p]) && T.pages[p][x].timestamp + EXPIRES <= T.index[p].expireAt && x < Size(T, p))
  {
    if Live(T.pages[p][x], m) {
      assert Backed(T, p, x);
      var k :| 0 <= k < |T.tickets| && PutBy(T, k, p, x);
      assert TicketOk(T, T.tickets[k]);
    }
  }

  lemma NotIn<T>(s: seq<T>, v: T)
    requires forall i :: 0 <= i < |s| ==> s[i] != v
    ensures multiset(s)[v] == 0
  {
    assert v !in s;
  }

  /** A page whose expiry has passed holds no live deal. */
  lemma ExpiredSlice(T: Table<DealInfo>, m: nat, p: nat, d: DealInfo)
    requires Layout(T) && T.life == EXPIRES && DealTickets(T) && DeadSlots(T, m)
    requires p < |T.pages| && T.index[p].expireAt <= m && Live(d, m)
    ensures multiset(Slice(T, p))[d] == 0
  {
    forall x | 0 <= x < |Slice(T, p)|
      ensures Slice(T, p)[x] != d
    {
      SlotBounded(T, m, p, x);
    }
    NotIn(Slice(T, p), d);
  }

  // ---------------------------------------------------------------- steps

  /** Time passing, or the watermark rising, only takes deals out of view. */
  lemma LaterKeeps(T: Table<DealInfo>, m: nat, n: nat, log: seq<DealInfo>)
    requires DealInv(T, m, log) && m <= n
    ensures DealInv(T, n, log)
  {
  }

  lemma EmptyKeeps(pages: nat, max: nat, m: nat)
    requires EXPIRES <= m
    ensures DealInv(Empty(pages, max, EXPIRES, NO_DEAL), m, [])
  {
    var T := Empty(pages, max, EXPIRES, NO_DEAL);
    EmptyIsValid(pages, max, EXPIRES, NO_DEAL);
    forall d | Live(d, m)
      ensures Occurrences(Slices(T), d) == 0
    {
      NothingUsed(T, d);
    }
  }

  lemma NothingUsed(T: Table<DealInfo>, d: DealInfo)
    requires |T.pages| == |T.index|
    requires forall p :: 0 <= p < |T.index| ==> !Used(T.index[p])
    ensures Occurrences(Slices(T), d) == 0
  {
    var none := seq(|T.index|, i => []);
    OccurrencesAgree(Slices(T), none, d);
    NoOccurrences(none, d);
  }

  /** A reservation, at a time `t` read no later than now: `m` becomes the raised watermark. */
  lemma ReserveKeeps(T: Table<DealInfo>, m: nat, log: seq<DealInfo>, t: nat, d: DealInfo, memLow: bool)
    requires DealInv(T, m, log) && t <= m && d.timestamp <= t && 1 <= T.max
    requires memLow ==> T.index != [] && Used(T.index[0])
    requires GrantFor(T, t, 1, memLow).Grant?
    ensures var g := GrantFor(T, t, 1, memLow);
            DealInv(Granted(T, g, t, [d]), Max(m, g.watermark), log)
  {
    var g := GrantFor(T, t, 1, memLow);
    var n := Max(m, g.watermark);
    var U := Granted(T, g, t, [d]);
    LaterKeeps(T, m, n, log);
    ReserveKeepsLayout(T, t, [d], memLow);
    GrantFacts(T, t, [d], memLow);
    ReserveDeadSlots(T, n, g, t, d, memLow);
    forall v | Live(v, n)
      ensures Occurrences(Slices(U), v) == multiset(log)[v]
    {
      forall p | 0 <= p < |T.index|
        ensures multiset(Slices(U)[p])[v] == multiset(Slices(T)[p])[v]
      {
        ReserveCounts(T, n, g, t, d, memLow, p, v);
      }
      OccurrencesAgree(Slices(U), Slices(T), v);
    }
  }

  lemma ReserveDeadSlots(T: Table<DealInfo>, n: nat, g: Grant, t: nat, d: DealInfo, memLow: bool)
    requires Layout(T) && T.life == EXPIRES && DealTickets(T) && DeadSlots(T, n)
    requires t <= n && 1 <= T.max && (memLow ==> T.index != [] && Used(T.index[0]))
    requires g == GrantFor(T, t, 1, memLow) && g.Grant? && g.watermark <= n
    ensures DeadSlots(Granted(T, g, t, [d]), n)
  {
    var U := Granted(T, g, t, [d]);
    GrantFacts(T, t, [d], memLow);
    forall p, x | 0 <= p < |U.pages| && 0 <= x < |U.pages[p]|
      ensures !Live(U.pages[p][x], n) || Backed(U, p, x)
    {
      SlotBounded(T, n, p, x);
      if Live(T.pages[p][x], n) {
        var k :| 0 <= k < |T.tickets| && PutBy(T, k, p, x);
        assert PutBy(U, k, p, x);
      }
    }
  }

  lemma OneMoreSlot<E>(page: seq<E>, n: nat)
    requires n < |page|
    ensures page[..n + 1] == page[..n] + [page[n]]
  {
  }

  lemma ReserveCounts(T: Table<DealInfo>, n: nat, g: Grant, t: nat, d: DealInfo, memLow: bool, p: nat, v: DealInfo)
    requires Layout(T) && T.life == EXPIRES && DealTickets(T) && DeadSlots(T, n)
    requires t <= n && 1 <= T.max && (memLow ==> T.index != [] && Used(T.index[0]))
    requires g == GrantFor(T, t, 1, memLow) && g.Grant? && g.watermark <= n
    requires p < |T.index| && Live(v, n)
    ensures multiset(Slice(Granted(T, g, t, [d]), p))[v] == multiset(Slice(T, p))[v]
  {
    var U := Granted(T, g, t, [d]);
    GrantFacts(T, t, [d], memLow);
    if p != g.page {
      assert Slice(U, p) == Slice(T, p);
    } else if g.kind == Current {
      SlotBounded(T, n, p, g.start);
      OneMoreSlot(T.pages[p], g.start);
      assert Slice(U, p) == Slice(T, p) + [T.pages[p][g.start]];
    } else {
      ExpiredSlice(T, n, p, v);
      SlotBounded(T, n, p, 0);
      assert Slice(U, p) == [T.pages[p][0]];
    }
  }

  /** The copy of a current, unwritten ticket appends its deal to the log. */
  lemma CopyKeeps(T: Table<DealInfo>, m: nat, log: seq<DealInfo>, k: nat)
    requires DealInv(T, m, log)
    requires k < |T.tickets| && IsCurrent(T, T.tickets[k]) && !T.tickets[k].written
    requires TicketOk(T, T.tickets[k])
    ensures DealInv(Copied(T, k), m, log + T.tickets[k].data)
  {
    UnwrittenSlotIsDead(T, m, k);
    assert Covers(T, T.tickets[k], T.tickets[k].page, T.tickets[k].start);
    CopyKeepsDealInv(T, m, log, k);
  }

  /** A reservation that holds the slot of ticket `k`, `k` itself or one already filled, is for the
      same deal. */
  ghost predicate Claimed(T: Table<DealInfo>, k: nat)
    requires k < |T.tickets|
  {
    exists j :: 0 <= j < |T.tickets| && (j == k || T.tickets[j].written) && T.tickets[j].data == T.tickets[k].data
                && Covers(T, T.tickets[j], T.tickets[k].page, T.tickets[k].start)
  }

  lemma CopyKeepsDeadSlots(T: Table<DealInfo>, m: nat, k: nat)
    requires Layout(T) && DealTickets(T) && DeadSlots(T, m) && k < |T.tickets| && TicketOk(T, T.tickets[k])
    requires Live(T.tickets[k].data[0], m) ==> Claimed(T, k)
    ensures DeadSlots(Copied(T, k), m)
  {
    var c, U := T.tickets[k], Copied(T, k);
    CopyChangesOneSlot(T, k);
    forall p, x | 0 <= p < |U.pages| && 0 <= x < |U.pages[p]|
      ensures !Live(U.pages[p][x], m) || Backed(U, p, x)
    {
      if !Live(U.pages[p][x], m) {
      } else if p == c.page && x == c.start {
        assert U.pages[p][x] == c.data[0];
        var j :| 0 <= j < |T.tickets| && (j == k || T.tickets[j].written) && T.tickets[j].data == c.data
                 && Covers(T, T.tickets[j], p, x);
        assert PutBy(U, j, p, x);
      } else {
        assert Backed(T, p, x);
        var j :| 0 <= j < |T.tickets| && PutBy(T, j, p, x);
        assert PutBy(U, j, p, x);
      }
    }
  }

  lemma CopyKeepsDealInv(T: Table<DealInfo>, m: nat, log: seq<DealInfo>, k: nat)
    requires DealInv(T, m, log) && k < |T.tickets| && TicketOk(T, T.tickets[k])
    requires !Live(SlotContent(T, k), m) && (Live(T.tickets[k].data[0], m) ==> Claimed(T, k))
    ensures DealInv(Copied(T, k), m, log + T.tickets[k].data)
  {
    CopyKeepsLayout(T, k);
    CopyKeepsDeadSlots(T, m, k);
    forall v | Live(v, m)
      ensures Occurrences(Slices(Copied(T, k)), v) == multiset(log + T.tickets[k].data)[v]
    {
      CopyCounts(T, k, v);
      assert T.tickets[k].data == [T.tickets[k].data[0]];
      if v == T.tickets[k].data[0] {
        ClaimedSlotInUse(T, k);
      }
    }
  }

  lemma ClaimedSlotInUse(T: Table<DealInfo>, k: nat)
    requires Layout(T) && k < |T.tickets| && Claimed(T, k)
    ensures T.tickets[k].page < |T.index| && T.tickets[k].start < Size(T, T.tickets[k].page)
  {
    var j :| 0 <= j < |T.tickets| && Covers(T, T.tickets[j], T.tickets[k].page, T.tickets[k].start);
    assert TicketOk(T, T.tickets[j]);
  }

  /** The code copies outside the lock and never checks that the page is still in the generation it
      reserved in. A copy, late or not, keeps the invariant exactly if the slot holds nothing live and
      the deal is not live either, unless the slot was reserved for that very deal. */
  lemma CopyKeepsDealInvIff(T: Table<DealInfo>, m: nat, log: seq<DealInfo>, k: nat)
    requires DealInv(T, m, log) && k < |T.tickets| && TicketOk(T, T.tickets[k])
    ensures DealInv(Copied(T, k), m, log + T.tickets[k].data)
            <==> !Live(SlotContent(T, k), m) && (Live(T.tickets[k].data[0], m) ==> Claimed(T, k))
  {
    if DealInv(Copied(T, k), m, log + T.tickets[k].data) {
      KeptCopyIsHarmless(T, m, log, k);
    } else if !Live(SlotContent(T, k), m) && (Live(T.tickets[k].data[0], m) ==> Claimed(T, k)) {
      CopyKeepsDealInv(T, m, log, k);
    }
  }

  lemma KeptCopyIsHarmless(T: Table<DealInfo>, m: nat, log: seq<DealInfo>, k: nat)
    requires DealInv(T, m, log) && k < |T.tickets| && TicketOk(T, T.tickets[k])
    requires DealInv(Copied(T, k), m, log + T.tickets[k].data)
    ensures !Live(SlotContent(T, k), m)
    ensures Live(T.tickets[k].data[0], m) ==> Claimed(T, k)
  {
    var c, U, was := T.tickets[k], Copied(T, k), SlotContent(T, k);
    assert c.data == [c.data[0]];
    SlotBounded(T, m, c.page, c.start);
    CopyCounts(T, k, was);
    if Live(c.data[0], m) {
      CopyChangesOneSlot(T, k);
      assert U.pages[c.page][c.start] == c.data[0];
      assert Backed(U, c.page, c.start);
      var j :| 0 <= j < |U.tickets| && PutBy(U, j, c.page, c.start);
      assert Covers(T, T.tickets[j], c.page, c.start) && T.tickets[j].data == c.data;
    }
  }

  lemma CopyChangesOneSlot(T: Table<DealInfo>, k: nat)
    requires Layout(T) && DealTickets(T) && k < |T.tickets| && TicketOk(T, T.tickets[k])
    ensures var c, U := T.tickets[k], Copied(T, k);
            U.pages == T.pages[c.page := T.pages[c.page][c.start := c.data[0]]]
  {
    var c, U := T.tickets[k], Copied(T, k);
    assert U.pages[c.page] == T.pages[c.page][c.start := c.data[0]];
  }

  /** The slot of a ticket not yet filled holds nothing live. */
  lemma UnwrittenSlotIsDead(T: Table<DealInfo>, m: nat, k: nat)
    requires Layout(T) && DealTickets(T) && DeadSlots(T, m)
    requires k < |T.tickets| && IsCurrent(T, T.tickets[k]) && !T.tickets[k].written
    requires TicketOk(T, T.tickets[k])
    ensures !Live(T.pages[T.tickets[k].page][T.tickets[k].start], m)
  {
    var c := T.tickets[k];
    forall j | 0 <= j < |T.tickets|
      ensures !PutBy(T, j, c.page, c.start)
    {
      assert j < k || j == k || k < j;
    }
  }

  /** Writing a deal over a slot in use exchanges the slot's old content for the deal. */
  lemma SliceAfterCopy(T: Table<DealInfo>, k: nat)
    requires Layout(T) && DealTickets(T) && k < |T.tickets| && TicketOk(T, T.tickets[k])
    ensures var c := T.tickets[k];
            var before, after := Slice(T, c.page), Slice(Copied(T, k), c.page);
            if c.start < Size(T, c.page)
            then multiset(after) == multiset(before) - multiset{T.pages[c.page][c.start]} + multiset{c.data[0]}
                 && T.pages[c.page][c.start] in before
            else after == before
  {
    var c, U := T.tickets[k], Copied(T, k);
    CopyChangesOneSlot(T, k);
    var before, after := Slice(T, c.page), Slice(U, c.page);
    if c.start < Size(T, c.page) {
      assert before[c.start] == T.pages[c.page][c.start];
      assert before == before[..c.start] + [before[c.start]] + before[c.start + 1..];
      assert after == before[..c.start] + [c.data[0]] + before[c.start + 1..];
    } else {
      assert after == before;
    }
  }

  /** A copy into the part of a page that is handed out exchanges what the slot held for the deal;
      elsewhere it changes nothing that counts. */
  lemma CopyCounts(T: Table<DealInfo>, k: nat, v: DealInfo)
    requires Layout(T) && DealTickets(T) && k < |T.tickets| && TicketOk(T, T.tickets[k])
    ensures var c := T.tickets[k];
            Occurrences(Slices(Copied(T, k)), v)
            == Occurrences(Slices(T), v)
               + (if c.start < Size(T, c.page)
                  then (if v == c.data[0] then 1 else 0) - (if v == SlotContent(T, k) then 1 else 0)
                  else 0)
  {
    var c, U := T.tickets[k], Copied(T, k);
    CopyChangesOneSlot(T, k);
    SliceAfterCopy(T, k);
    assert Slices(U) == Slices(T)[c.page := Slice(U, c.page)];
    OccurrencesUpdate(Slices(T), c.page, Slice(U, c.page), v);
  }

  /** Unlinking pages whose expiry has passed. */
  lemma UnlinkKeeps(T: Table<DealInfo>, m: nat, log: seq<DealInfo>, lo: nat)
    requires DealInv(T, m, log) && lo <= FirstUnused(T.index)
    requires forall p :: lo <= p < FirstUnused(T.index) ==> T.index[p].expireAt <= m
    ensures DealInv(Unlinked(T, NO_DEAL, lo, FirstUnused(T.index)), m, log)
  {
    var hi := FirstUnused(T.index);
    var U := Unlinked(T, NO_DEAL, lo, hi);
    UnlinkKeepsLayout(T, NO_DEAL, lo, hi);
    UnlinkDeadSlots(T, m, lo);
    forall v | Live(v, m)
      ensures Occurrences(Slices(U), v) == multiset(log)[v]
    {
      forall p | 0 <= p < |T.index|
        ensures multiset(Slices(U)[p])[v] == multiset(Slices(T)[p])[v]
      {
        UnlinkCounts(T, m, lo, p, v);
      }
      OccurrencesAgree(Slices(U), Slices(T), v);
    }
  }

  lemma UnlinkCounts(T: Table<DealInfo>, m: nat, lo: nat, p: nat, v: DealInfo)
    requires Layout(T) && T.life == EXPIRES && DealTickets(T) && DeadSlots(T, m) && lo <= FirstUnused(T.index)
    requires forall q :: lo <= q < FirstUnused(T.index) ==> T.index[q].expireAt <= m
    requires p < |T.index| && Live(v, m)
    ensures multiset(Slice(Unlinked(T, NO_DEAL, lo, FirstUnused(T.index)), p))[v] == multiset(Slice(T, p))[v]
  {
    if lo <= p < FirstUnused(T.index) {
      ExpiredSlice(T, m, p, v);
    }
  }

  lemma UnlinkDeadSlots(T: Table<DealInfo>, m: nat, lo: nat)
    requires Layout(T) && EXPIRES <= m && DeadSlots(T, m) && lo <= FirstUnused(T.index)
    ensures DeadSlots(Unlinked(T, NO_DEAL, lo, FirstUnused(T.index)), m)
  {
    var hi := FirstUnused(T.index);
    var U := Unlinked(T, NO_DEAL, lo, hi);
    forall p, x | 0 <= p < |U.pages| && 0 <= x < |U.pages[p]|
      ensures !Live(U.pages[p][x], m) || Backed(U, p, x)
    {
      if !(lo <= p < hi) && Backed(T, p, x) {
        var k :| 0 <= k < |T.tickets| && PutBy(T, k, p, x);
        assert PutBy(U, k, p, x);
      }
    }
  }

  lemma MaintainKeeps(T: Table<DealInfo>, m: nat, log: seq<DealInfo>, t: nat, watermark: nat)
    requires DealInv(T, m, log) && t <= m && watermark <= m
    ensures DealInv(Maintained(T, NO_DEAL, t, watermark), m, log)
  {
    MaintenanceIsCautious(T.index, T.max, t, watermark);
    UnlinkKeeps(T, m, log, Kept(T.index, t, watermark));
  }

  lemma CleanupKeeps(T: Table<DealInfo>, m: nat, log: seq<DealInfo>)
    requires DealInv(T, m, log)
    ensures DealInv(CleanedUp(T, NO_DEAL), m, [])
  {
    var hi := FirstUnused(T.index);
    var U := CleanedUp(T, NO_DEAL);
    UnlinkKeepsLayout(T, NO_DEAL, 0, hi);
    UnlinkKeepsShape(T, NO_DEAL, 0, hi);
    UnlinkDeadSlots(T, m, 0);
    forall v | Live(v, m)
      ensures Occurrences(Slices(U), v) == 0
    {
      NothingUsed(U, v);
    }
  }

  // ---------------------------------------------------------------- refinement

  lemma VisitAppend(T: Table<DealInfo>, list: seq<nat>, i: nat, cutoff: int)
    requires i < |T.index| && forall a :: 0 <= a < |list| ==> list[a] < |T.index|
    ensures VisitAll(T, list + [i], cutoff) == VisitAll(T, list, cutoff) + Visit(T, i, cutoff)
  {
    assert (list + [i])[..|list|] == list;
  }

  /** The elements a scan may read: those of the alive pages. */
  function AliveSlices(T: Table<DealInfo>, now: nat, watermark: nat): (r: seq<seq<DealInfo>>)
    requires |T.pages| == |T.index|
    ensures |r| == |T.index|
    ensures forall p :: 0 <= p < |T.index| ==>
              r[p] == if Alive(T.index[p], now, watermark) then Slice(T, p) else []
  {
    seq(|T.index|, p requires 0 <= p < |T.index| =>
      if Alive(T.index[p], now, watermark) then Slice(T, p) else [])
  }

  /** What each entry shows to a search. */
  function Shown(T: Table<DealInfo>, now: nat, watermark: nat): (r: seq<seq<DealInfo>>)
    ensures |r| == |T.index|
    ensures forall p :: 0 <= p < |T.index| ==>
              r[p] == if Alive(T.index[p], now, watermark) then Visit(T, p, Cutoff(now, watermark)) else []
  {
    seq(|T.index|, p requires 0 <= p < |T.index| =>
      if Alive(T.index[p], now, watermark) then Visit(T, p, Cutoff(now, watermark)) else [])
  }

  lemma PageContributes(T: Table<DealInfo>, i: nat, now: nat, watermark: nat, v: DealInfo)
    requires Shape(T) && i < |T.index|
    ensures multiset(Shown(T, now, watermark)[i])[v]
            == if Live(v, Max(now, watermark)) then multiset(AliveSlices(T, now, watermark)[i])[v] else 0
  {
    if Alive(T.index[i], now, watermark) {
      FilterCount(Slice(T, i), d => PassesCutoff(d, Cutoff(now, watermark)), v);
      assert PageOf(T, i) == Some(i);
      assert Visit(T, i, Cutoff(now, watermark))
          == Filter(Slice(T, i), d => PassesCutoff(d, Cutoff(now, watermark)));
    }
  }

  /** What a search has found after the first `u` entries. */
  function FoundUpTo(T: Table<DealInfo>, u: nat, now: nat, watermark: nat): seq<DealInfo>
    requires u <= |T.index|
  {
    VisitAll(T, AliveUpTo(T.index, u, now, watermark), Cutoff(now, watermark))
  }

  function Prefixes(T: Table<DealInfo>, now: nat, watermark: nat): (r: seq<seq<DealInfo>>)
    ensures |r| == |T.index| + 1
    ensures forall u :: 0 <= u <= |T.index| ==> r[u] == FoundUpTo(T, u, now, watermark)
  {
    seq(|T.index| + 1, u requires 0 <= u <= |T.index| => FoundUpTo(T, u, now, watermark))
  }

  lemma PrefixesGrow(T: Table<DealInfo>, now: nat, watermark: nat)
    ensures Grow(Prefixes(T, now, watermark), Shown(T, now, watermark))
  {
    forall i | 0 <= i < |T.index|
      ensures Extends(Prefixes(T, now, watermark), Shown(T, now, watermark), i)
    {
      NextVisit(T, i, now, watermark);
    }
  }

  lemma NextVisit(T: Table<DealInfo>, i: nat, now: nat, watermark: nat)
    requires i < |T.index|
    ensures FoundUpTo(T, i + 1, now, watermark) == FoundUpTo(T, i, now, watermark) + Shown(T, now, watermark)[i]
  {
    var front := AliveUpTo(T.index, i, now, watermark);
    if Alive(T.index[i], now, watermark) {
      VisitAppend(T, front, i, Cutoff(now, watermark));
    } else {
      assert AliveUpTo(T.index, i + 1, now, watermark) == front;
    }
  }

  /** Where the scan stops early it misses nothing. */
  lemma ScanIsEverythingShown(T: Table<DealInfo>, now: nat, watermark: nat, v: DealInfo)
    requires Shape(T)
    ensures multiset(Scan(T, now, watermark))[v] == Occurrences(Shown(T, now, watermark), v)
  {
    var u, shown := FirstUnused(T.index), Shown(T, now, watermark);
    PrefixesGrow(T, now, watermark);
    GrownPrefix(Prefixes(T, now, watermark), shown, u);
    OccurrencesConcat(shown[..u], v);
    assert forall p :: u < p < |T.index| ==> !Used(T.index[p]);
    OccurrencesTail(shown, u, v);
  }

  lemma ScanCounts(T: Table<DealInfo>, now: nat, watermark: nat, v: DealInfo)
    requires Shape(T)
    ensures multiset(Scan(T, now, watermark))[v]
            == if Live(v, Max(now, watermark)) then Occurrences(AliveSlices(T, now, watermark), v) else 0
  {
    ScanIsEverythingShown(T, now, watermark, v);
    var shown, none := Shown(T, now, watermark), seq(|T.index|, p => []);
    forall p | 0 <= p < |T.index|
      ensures multiset(shown[p])[v]
              == if Live(v, Max(now, watermark)) then multiset(AliveSlices(T, now, watermark)[p])[v] else 0
    {
      PageContributes(T, p, now, watermark, v);
    }
    if Live(v, Max(now, watermark)) {
      OccurrencesAgree(shown, AliveSlices(T, now, watermark), v);
    } else {
      OccurrencesAgree(shown, none, v);
      NoOccurrences(none, v);
    }
  }

  lemma AliveCounts(T: Table<DealInfo>, now: nat, watermark: nat, log: seq<DealInfo>, v: DealInfo)
    requires DealInv(T, Max(now, watermark), log) && Live(v, Max(now, watermark))
    ensures Occurrences(AliveSlices(T, now, watermark), v) == multiset(log)[v]
  {
    forall p | 0 <= p < |T.index|
      ensures multiset(AliveSlices(T, now, watermark)[p])[v] == multiset(Slices(T)[p])[v]
    {
      if !Alive(T.index[p], now, watermark) {
        ExpiredSlice(T, Max(now, watermark), p, v);
      }
    }
    OccurrencesAgree(AliveSlices(T, now, watermark), Slices(T), v);
  }

  /** The search result is the live part of the log, each deal as often as it was added. */
  ghost predicate Refines(T: Table<DealInfo>, now: nat, watermark: nat, log: seq<DealInfo>) {
    multiset(Scan(T, now, watermark)) == multiset(Filter(log, d => Live(d, Max(now, watermark))))
  }

  /** A search sees exactly the live part of the log, whatever mix of reservations, evictions,
      unlinks and clock ticks led here. */
  lemma ScanRefinesLog(T: Table<DealInfo>, now: nat, watermark: nat, log: seq<DealInfo>)
    requires DealInv(T, Max(now, watermark), log)
    ensures Refines(T, now, watermark, log)
  {
    var live := d => Live(d, Max(now, watermark));
    forall v
      ensures multiset(Scan(T, now, watermark))[v] == multiset(Filter(log, live))[v]
    {
      ScanCounts(T, now, watermark, v);
      FilterCount(log, live, v);
      if Live(v, Max(now, watermark)) {
        AliveCounts(T, now, watermark, log, v);
      }
    }
  }

  /** What the slot of ticket `k` holds before the copy. */
  function SlotContent(T: Table<DealInfo>, k: nat): DealInfo
    requires k < |T.tickets| && T.tickets[k].page < |T.pages|
    requires T.tickets[k].start < |T.pages[T.tickets[k].page]|
  {
    T.pages[T.tickets[k].page][T.tickets[k].start]
  }

  /** The copy replaces something a search can see. */
  predicate InView(T: Table<DealInfo>, k: nat, now: nat, watermark: nat)
    requires k < |T.tickets| && T.tickets[k].page < |T.index|
  {
    var c := T.tickets[k];
    c.start < Size(T, c.page) && Alive(T.index[c.page], now, watermark)
  }

  lemma CopyTouchesOnePage(T: Table<DealInfo>, now: nat, watermark: nat, k: nat)
    requires Layout(T) && DealTickets(T) && k < |T.tickets| && TicketOk(T, T.tickets[k])
    ensures var c, U := T.tickets[k], Copied(T, k);
            var before, after := AliveSlices(T, now, watermark), AliveSlices(U, now, watermark);
            after == before[c.page := after[c.page]]
  {
    var c, U := T.tickets[k], Copied(T, k);
    CopyChangesOneSlot(T, k);
    var before, after := AliveSlices(T, now, watermark), AliveSlices(U, now, watermark);
    forall p | 0 <= p < |T.index| && p != c.page
      ensures after[p] == before[p]
    {
      assert Slice(U, p) == Slice(T, p);
    }
  }

  lemma StaleCopyCounts(T: Table<DealInfo>, now: nat, watermark: nat, k: nat, v: DealInfo)
    requires Layout(T) && DealTickets(T) && k < |T.tickets| && TicketOk(T, T.tickets[k])
    ensures var d, was := T.tickets[k].data[0], SlotContent(T, k);
            Occurrences(AliveSlices(Copied(T, k), now, watermark), v)
            == Occurrences(AliveSlices(T, now, watermark), v)
               + (if InView(T, k, now, watermark)
                  then (if v == d then 1 else 0) - (if v == was then 1 else 0)
                  else 0)
  {
    var p, U := T.tickets[k].page, Copied(T, k);
    CopyTouchesOnePage(T, now, watermark, k);
    SliceAfterCopy(T, k);
    OccurrencesUpdate(AliveSlices(T, now, watermark), p, AliveSlices(U, now, watermark)[p], v);
  }

  /** How the copy of ticket `k` upsets the balance between search and log, deal by deal. */
  lemma CopyBalance(T: Table<DealInfo>, now: nat, watermark: nat, log: seq<DealInfo>, k: nat, v: DealInfo)
    requires DealInv(T, Max(now, watermark), log)
    requires k < |T.tickets| && TicketOk(T, T.tickets[k])
    ensures var m := Max(now, watermark);
            var spoiled := if InView(T, k, now, watermark) then SlotContent(T, k) else T.tickets[k].data[0];
            multiset(Scan(Copied(T, k), now, watermark))[v] + (if v == spoiled && Live(spoiled, m) then 1 else 0)
            == multiset(Filter(log + T.tickets[k].data, d => Live(d, m)))[v]
  {
    var m := Max(now, watermark);
    var c, U := T.tickets[k], Copied(T, k);
    assert c.data == [c.data[0]];
    CopyChangesOneSlot(T, k);
    assert Shape(U);
    ScanCounts(U, now, watermark, v);
    FilterCount(log + c.data, d => Live(d, m), v);
    if Live(v, m) {
      StaleCopyCounts(T, now, watermark, k, v);
      AliveCounts(T, now, watermark, log, v);
    }
  }

  /** For the moment after a copy, late or not, less is needed: the search agrees with the log exactly
      when the slot it hits shows a search nothing live, or, out of a search's sight, when the deal
      itself is no longer live. */
  lemma CopyKeepsRefinementIff(T: Table<DealInfo>, now: nat, watermark: nat, log: seq<DealInfo>, k: nat)
    requires DealInv(T, Max(now, watermark), log)
    requires k < |T.tickets| && TicketOk(T, T.tickets[k])
    ensures Refines(Copied(T, k), now, watermark, log + T.tickets[k].data)
            <==> !Live(if InView(T, k, now, watermark) then SlotContent(T, k) else T.tickets[k].data[0],
                       Max(now, watermark))
  {
    var m := Max(now, watermark);
    var spoiled := if InView(T, k, now, watermark) then SlotContent(T, k) else T.tickets[k].data[0];
    var seen := multiset(Scan(Copied(T, k), now, watermark));
    var logged := multiset(Filter(log + T.tickets[k].data, d => Live(d, m)));
    forall v
      ensures seen[v] + (if v == spoiled && Live(spoiled, m) then 1 else 0) == logged[v]
    {
      CopyBalance(T, now, watermark, log, k, v);
    }
    OffByOne(seen, logged, spoiled, Live(spoiled, m));
  }

  lemma OffByOne<E(!new)>(a: multiset<E>, b: multiset<E>, x: E, off: bool)
    requires forall v :: a[v] + (if v == x && off then 1 else 0) == b[v]
    ensures a == b <==> !off
  {
    assert a[x] + (if off then 1 else 0) == b[x];
  }

  /** Where the slot's owner has not filled it yet, a copy that breaks the invariant shows: the search
      disagrees with the log at once, or as soon as the owner's own copy is made. */
  lemma HarmfulCopyShows(T: Table<DealInfo>, now: nat, watermark: nat, log: seq<DealInfo>, k: nat, j: nat)
    requires DealInv(T, Max(now, watermark), log) && k < |T.tickets| && TicketOk(T, T.tickets[k])
    requires !DealInv(Copied(T, k), Max(now, watermark), log + T.tickets[k].data)
    requires j < |T.tickets| && j != k && !T.tickets[j].written && TicketOk(T, T.tickets[j])
    requires Covers(T, T.tickets[j], T.tickets[k].page, T.tickets[k].start)
    ensures var U := Copied(T, k);
            || !Refines(U, now, watermark, log + T.tickets[k].data)
            || !Refines(Copied(U, j), now, watermark, log + T.tickets[k].data + T.tickets[j].data)
  {
    var m := Max(now, watermark);
    CopyKeepsDealInvIff(T, m, log, k);
    CopyKeepsRefinementIff(T, now, watermark, log, k);
    if Live(SlotContent(T, k), m) {
      SlotBounded(T, m, T.tickets[k].page, T.tickets[k].start);
    } else if InView(T, k, now, watermark) {
      OwnerErasesTheDeal(T, now, watermark, log, k, j);
    }
  }

  lemma OwnerErasesTheDeal(T: Table<DealInfo>, now: nat, watermark: nat, log: seq<DealInfo>, k: nat, j: nat)
    requires DealInv(T, Max(now, watermark), log) && k < |T.tickets| && TicketOk(T, T.tickets[k])
    requires j < |T.tickets| && j != k && TicketOk(T, T.tickets[j])
    requires Covers(T, T.tickets[j], T.tickets[k].page, T.tickets[k].start) && InView(T, k, now, watermark)
    requires Live(T.tickets[k].data[0], Max(now, watermark)) && !Live(SlotContent(T, k), Max(now, watermark))
    ensures !Refines(Copied(Copied(T, k), j), now, watermark, log + T.tickets[k].data + T.tickets[j].data)
  {
    var m, d := Max(now, watermark), T.tickets[k].data[0];
    var all := log + T.tickets[k].data + T.tickets[j].data;
    assert T.tickets[k].data == [d] && T.tickets[j].data == [T.tickets[j].data[0]];
    CopyKeepsLayout(T, k);
    CopyKeepsLayout(Copied(T, k), j);
    TwoCopiesCount(T, now, watermark, k, j);
    AliveCounts(T, now, watermark, log, d);
    ScanCounts(Copied(Copied(T, k), j), now, watermark, d);
    FilterCount(all, x => Live(x, m), d);
    assert multiset(all)[d] == multiset(log)[d] + 1 + (if T.tickets[j].data[0] == d then 1 else 0);
  }

  /** A deal put into a slot in view and overwritten there is counted no more than before. */
  lemma TwoCopiesCount(T: Table<DealInfo>, now: nat, watermark: nat, k: nat, j: nat)
    requires Layout(T) && DealTickets(T) && k < |T.tickets| && TicketOk(T, T.tickets[k])
    requires j < |T.tickets| && j != k && TicketOk(T, T.tickets[j]) && InView(T, k, now, watermark)
    requires Covers(T, T.tickets[j], T.tickets[k].page, T.tickets[k].start)
    requires SlotContent(T, k) != T.tickets[k].data[0]
    ensures var d := T.tickets[k].data[0];
            Occurrences(AliveSlices(Copied(Copied(T, k), j), now, watermark), d)
            == Occurrences(AliveSlices(T, now, watermark), d) + if T.tickets[j].data[0] == d then 1 else 0
  {
    var U, d := Copied(T, k), T.tickets[k].data[0];
    CopyKeepsLayout(T, k);
    CopyChangesOneSlot(T, k);
    assert T.tickets[j].start == T.tickets[k].start && SlotContent(U, j) == d && InView(U, j, now, watermark);
    StaleCopyCounts(T, now, watermark, k, d);
    StaleCopyCounts(U, now, watermark, j, d);
  }
}
