/** One shared-memory table as a value: the page index, the pages themselves, and, for reasoning
    only, a generation number per page and the list of every reservation ever granted.

    A reservation (`Ticket`) is granted under the table lock and filled later, outside the lock. */
module Tables {
  import opened Base
  import opened PageIndex

  datatype Ticket<E> = Ticket(page: nat, gen: nat, start: nat, data: seq<E>, time: nat, written: bool) {
    function End(): nat { start + |data| }
  }

  datatype Table<E> = Table(
    max: nat,
    life: nat,
    index: seq<Entry>,
    pages: seq<seq<E>>,
    gens: seq<nat>,
    tickets: seq<Ticket<E>>)

  /** Number of slots of page `p` handed out in its present generation. */
  function Size<E>(T: Table<E>, p: nat): nat
    requires p < |T.index|
  {
    if Used(T.index[p]) && T.index[p].available <= T.max then T.max - T.index[p].available else 0
  }

  /** The elements a scan would read from page `p`. */
  function Slice<E>(T: Table<E>, p: nat): seq<E>
    requires p < |T.index| && p < |T.pages|
  {
    T.pages[p][..Min(Size(T, p), |T.pages[p]|)]
  }

  function Slices<E>(T: Table<E>): (r: seq<seq<E>>)
    requires |T.pages| == |T.index|
    ensures |r| == |T.index|
    ensures forall p :: 0 <= p < |T.index| ==> r[p] == Slice(T, p)
  {
    seq(|T.index|, p requires 0 <= p < |T.index| => Slice(T, p))
  }

  /** What an extractor for `n` elements at slot `start` of page `p` reads. */
  function ReadBack<E>(T: Table<E>, p: nat, start: nat, n: nat): Option<seq<E>> {
    if p < |T.pages| && start + n <= |T.pages[p]| then Some(T.pages[p][start..start + n]) else None
  }

  // ---------------------------------------------------------------- invariant

  ghost predicate Shape<E>(T: Table<E>) {
    && |T.index| == |T.pages| == |T.gens|
    && (forall p :: 0 <= p < |T.pages| ==> |T.pages[p]| == T.max)
    && (forall p :: 0 <= p < |T.index| && Used(T.index[p]) ==> T.index[p].available <= T.max)
    && PrefixUsed(T.index)
    && Named(T.index)
  }

  predicate IsCurrent<E>(T: Table<E>, c: Ticket<E>) {
    c.page < |T.gens| && c.gen == T.gens[c.page]
  }

  /** A ticket lies inside its page; while its generation lasts, the page is in use, the ticket
      lies inside the part handed out, and the page outlives the ticket's record. */
  ghost predicate TicketOk<E>(T: Table<E>, c: Ticket<E>)
    requires |T.index| == |T.gens|
  {
    && c.page < |T.index|
    && c.gen <= T.gens[c.page]
    && c.End() <= T.max
    && (c.gen == T.gens[c.page] ==>
          && Used(T.index[c.page])
          && c.End() <= Size(T, c.page)
          && c.time + T.life <= T.index[c.page].expireAt)
  }

  ghost predicate TicketsOk<E>(T: Table<E>)
    requires |T.index| == |T.gens|
  {
    forall k :: 0 <= k < |T.tickets| ==> TicketOk(T, T.tickets[k])
  }

  /** Later tickets of a generation lie behind earlier ones; so ranges never overlap. */
  ghost predicate Ordered<E>(T: Table<E>) {
    forall i, j :: 0 <= i < j < |T.tickets|
                   && T.tickets[i].page == T.tickets[j].page && T.tickets[i].gen == T.tickets[j].gen
                   ==> T.tickets[i].End() <= T.tickets[j].start
  }

  predicate Covers<E>(T: Table<E>, c: Ticket<E>, p: nat, x: nat) {
    IsCurrent(T, c) && c.page == p && c.start <= x < c.End()
  }

  ghost predicate Covered<E>(T: Table<E>, p: nat, x: nat) {
    exists k :: 0 <= k < |T.tickets| && Covers(T, T.tickets[k], p, x)
  }

  /** Every slot handed out belongs to a ticket of the present generation. */
  ghost predicate Tiled<E>(T: Table<E>) {
    forall p, x :: 0 <= p < |T.index| && 0 <= x < Size(T, p) ==> Covered(T, p, x)
  }

  /** What a ticket wrote can be read back while its generation lasts. */
  ghost predicate Stored<E(!new)>(T: Table<E>) {
    forall k :: 0 <= k < |T.tickets| && T.tickets[k].written && IsCurrent(T, T.tickets[k]) ==>
      ReadBack(T, T.tickets[k].page, T.tickets[k].start, |T.tickets[k].data|) == Some(T.tickets[k].data)
  }

  /** How the slots are shared out, whatever the pages hold. */
  ghost predicate Layout<E>(T: Table<E>) {
    Shape(T) && TicketsOk(T) && Ordered(T) && Tiled(T)
  }

  ghost predicate TableInv<E(!new)>(T: Table<E>) {
    Layout(T) && Stored(T)
  }

  /** The element that a ticket puts into slot `x`. */
  function Puts<E>(c: Ticket<E>, x: nat): E
    requires c.start <= x < c.End()
  {
    c.data[x - c.start]
  }

  /** Where two tickets share a slot they put the same element there. */
  ghost predicate Agree<E>(c: Ticket<E>, d: Ticket<E>) {
    c.page == d.page ==>
      forall x :: c.start <= x < c.End() && d.start <= x < d.End() ==> Puts(c, x) == Puts(d, x)
  }

  /** The copy of ticket `k` spoils nothing that was written in the present generation of its page. */
  ghost predicate SparesWritten<E(!new)>(T: Table<E>, k: nat)
    requires k < |T.tickets|
  {
    forall j :: 0 <= j < |T.tickets| && T.tickets[j].written && IsCurrent(T, T.tickets[j]) ==>
      Agree(T.tickets[k], T.tickets[j])
  }

  /** The first `from` tickets have lost their slots; of the others only those whose record has
      expired by `m` have. */
  ghost predicate Lasts<E>(T: Table<E>, from: nat, m: nat) {
    && from <= |T.tickets|
    && (forall k :: 0 <= k < from ==> !IsCurrent(T, T.tickets[k]))
    && (forall k :: from <= k < |T.tickets| ==>
          IsCurrent(T, T.tickets[k]) || T.tickets[k].time + T.life <= m)
  }

  // ---------------------------------------------------------------- operations

  function Empty<E>(pages: nat, max: nat, life: nat, zero: E): Table<E> {
    Table(max, life,
          seq(pages, i => Entry(0, 0, None)),
          seq(pages, i => ZeroPage(max, zero)),
          seq(pages, i => 0),
          [])
  }

  /** The grant for `n` elements at captured time `t`. */
  function GrantFor<E>(T: Table<E>, t: nat, n: nat, memLow: bool): (g: Grant)
    requires n <= T.max
    requires forall i :: 0 <= i < |T.index| && Used(T.index[i]) ==> T.index[i].available <= T.max
    ensures g.Grant? ==> |g.index| == |T.index| && g.page < |T.index|
  {
    Reserve(T.index, T.max, t, T.life, n, memLow)
  }

  /** The table after the locked part of an insertion: a new generation unless the page is current. */
  function Granted<E>(T: Table<E>, g: Grant, t: nat, data: seq<E>): Table<E>
    requires g.Grant? && g.page < |T.gens|
  {
    var gens := if g.kind == Current then T.gens else T.gens[g.page := T.gens[g.page] + 1];
    T.(index := g.index, gens := gens,
       tickets := T.tickets + [Ticket(g.page, gens[g.page], g.start, data, t, false)])
  }

  /** The copy into the reserved range, wherever the page has got to meanwhile. */
  function Copied<E>(T: Table<E>, k: nat): Table<E>
    requires k < |T.tickets|
    requires T.tickets[k].page < |T.pages| && T.tickets[k].End() <= |T.pages[T.tickets[k].page]|
  {
    var c := T.tickets[k];
    var page := T.pages[c.page];
    T.(pages := T.pages[c.page := page[..c.start] + c.data + page[c.End()..]],
       tickets := T.tickets[k := c.(written := true)])
  }

  /** Entries `lo` to `hi` are cleared and their pages unlinked; a page opened again is zeroed. */
  function Unlinked<E>(T: Table<E>, zero: E, lo: nat, hi: nat): (U: Table<E>)
    requires lo <= hi <= |T.index| == |T.pages| == |T.gens|
    ensures |U.index| == |U.pages| == |U.gens| == |T.index|
  {
    T.(index := ClearRange(T.index, T.max, lo, hi),
       pages := Overwrite(T.pages, ZeroPage(T.max, zero), lo, hi),
       gens := NextGeneration(T.gens, lo, hi))
  }

  function ZeroPage<E>(max: nat, zero: E): (r: seq<E>)
    ensures |r| == max && forall x :: 0 <= x < max ==> r[x] == zero
  {
    seq(max, j => zero)
  }

  function NextGeneration(gens: seq<nat>, lo: nat, hi: nat): (r: seq<nat>)
    requires lo <= hi <= |gens|
    ensures |r| == |gens|
    ensures forall p :: 0 <= p < |gens| ==> r[p] == if lo <= p < hi then gens[p] + 1 else gens[p]
  {
    seq(|gens|, p requires 0 <= p < |gens| => if lo <= p < hi then gens[p] + 1 else gens[p])
  }

  function Maintained<E>(T: Table<E>, zero: E, t: nat, watermark: nat): Table<E>
    requires |T.index| == |T.pages| == |T.gens|
  {
    Unlinked(T, zero, Kept(T.index, t, watermark), FirstUnused(T.index))
  }

  function CleanedUp<E>(T: Table<E>, zero: E): Table<E>
    requires |T.index| == |T.pages| == |T.gens|
  {
    Unlinked(T, zero, 0, FirstUnused(T.index))
  }

  // ---------------------------------------------------------------- every operation keeps it

  lemma EmptyIsValid<E(!new)>(pages: nat, max: nat, life: nat, zero: E)
    ensures TableInv(Empty(pages, max, life, zero))
  {
  }

  /** What a reservation does to its page, in terms of sizes and expiry. */
  lemma GrantFacts<E(!new)>(T: Table<E>, t: nat, data: seq<E>, memLow: bool)
    requires Shape(T) && t + T.life > 0 && |data| <= T.max
    requires memLow ==> T.index != [] && Used(T.index[0])
    requires GrantFor(T, t, |data|, memLow).Grant?
    ensures var g := GrantFor(T, t, |data|, memLow);
            var U := Granted(T, g, t, data);
            && Shape(U)
            && (forall q :: 0 <= q < |T.index| && q != g.page ==> U.index[q] == T.index[q])
            && Used(U.index[g.page])
            && Size(U, g.page) == g.start + |data|
            && t + T.life <= U.index[g.page].expireAt
            && (g.kind == Current ==> Used(T.index[g.page]) && g.start == Size(T, g.page)
                                      && T.index[g.page].expireAt <= U.index[g.page].expireAt)
            && (g.kind != Current ==> g.start == 0)
            && (g.kind == Expired ==> T.index[g.page].expireAt < t)
            && (g.kind == EvictOldest ==> IsOldest(T.index, g.page) && g.watermark == T.index[g.page].expireAt)
            && (g.kind != EvictOldest ==> g.watermark == 0)
            && (g.kind == New ==> !Used(T.index[g.page]))
  {
    var g := GrantFor(T, t, |data|, memLow);
    assert T.index != [];
    ReservationKeepsPrefix(T.index, T.max, t, T.life, |data|, memLow);
    if g.kind != EvictOldest {
      assert g.page == Pick(T.index, t, |data|);
    }
    assert forall i :: 0 <= i < |T.index| && i != g.page ==> g.index[i] == T.index[i];
  }

  lemma ReserveKeepsTickets<E(!new)>(T: Table<E>, t: nat, data: seq<E>, memLow: bool)
    requires Layout(T) && t + T.life > 0 && |data| <= T.max
    requires memLow ==> T.index != [] && Used(T.index[0])
    requires GrantFor(T, t, |data|, memLow).Grant?
    ensures var U := Granted(T, GrantFor(T, t, |data|, memLow), t, data);
            |U.index| == |U.gens| && TicketsOk(U) && Ordered(U)
  {
    var g := GrantFor(T, t, |data|, memLow);
    var U := Granted(T, g, t, data);
    var n := |T.tickets|;
    GrantFacts(T, t, data, memLow);
    forall k | 0 <= k < |U.tickets|
      ensures TicketOk(U, U.tickets[k])
    {
      if k < n {
        assert TicketOk(T, T.tickets[k]);
      }
    }
    forall i | 0 <= i < n && U.tickets[i].page == g.page && U.tickets[i].gen == U.tickets[n].gen
      ensures U.tickets[i].End() <= g.start
    {
      assert TicketOk(T, T.tickets[i]);
    }
  }

  lemma ReserveKeepsTiling<E(!new)>(T: Table<E>, t: nat, data: seq<E>, memLow: bool)
    requires Layout(T) && t + T.life > 0 && |data| <= T.max
    requires memLow ==> T.index != [] && Used(T.index[0])
    requires GrantFor(T, t, |data|, memLow).Grant?
    ensures Tiled(Granted(T, GrantFor(T, t, |data|, memLow), t, data))
  {
    var g := GrantFor(T, t, |data|, memLow);
    var U := Granted(T, g, t, data);
    var n := |T.tickets|;
    GrantFacts(T, t, data, memLow);
    forall p, x | 0 <= p < |U.index| && 0 <= x < Size(U, p)
      ensures Covered(U, p, x)
    {
      if p == g.page && g.start <= x {
        assert Covers(U, U.tickets[n], p, x);
      } else {
        assert Covered(T, p, x);
        var k :| 0 <= k < n && Covers(T, T.tickets[k], p, x);
        assert Covers(U, U.tickets[k], p, x);
      }
    }
  }

  lemma ReserveKeepsLayout<E(!new)>(T: Table<E>, t: nat, data: seq<E>, memLow: bool)
    requires Layout(T) && t + T.life > 0 && |data| <= T.max
    requires memLow ==> T.index != [] && Used(T.index[0])
    requires GrantFor(T, t, |data|, memLow).Grant?
    ensures Layout(Granted(T, GrantFor(T, t, |data|, memLow), t, data))
  {
    GrantFacts(T, t, data, memLow);
    ReserveKeepsTickets(T, t, data, memLow);
    ReserveKeepsTiling(T, t, data, memLow);
  }

  lemma ReserveKeepsInvariant<E(!new)>(T: Table<E>, t: nat, data: seq<E>, memLow: bool)
    requires TableInv(T) && t + T.life > 0 && |data| <= T.max
    requires memLow ==> T.index != [] && Used(T.index[0])
    requires GrantFor(T, t, |data|, memLow).Grant?
    ensures TableInv(Granted(T, GrantFor(T, t, |data|, memLow), t, data))
  {
    var g := GrantFor(T, t, |data|, memLow);
    var U := Granted(T, g, t, data);
    GrantFacts(T, t, data, memLow);
    ReserveKeepsLayout(T, t, data, memLow);
    forall k | 0 <= k < |U.tickets| && U.tickets[k].written && IsCurrent(U, U.tickets[k])
      ensures ReadBack(U, U.tickets[k].page, U.tickets[k].start, |U.tickets[k].data|) == Some(U.tickets[k].data)
    {
      assert TicketOk(T, T.tickets[k]);
      assert IsCurrent(T, T.tickets[k]);
    }
  }

  /** A copy, late or not, changes no slot's owner. */
  lemma CopyKeepsLayout<E(!new)>(T: Table<E>, k: nat)
    requires Layout(T) && k < |T.tickets| && TicketOk(T, T.tickets[k])
    ensures Layout(Copied(T, k))
  {
    var U := Copied(T, k);
    forall j | 0 <= j < |U.tickets|
      ensures TicketOk(U, U.tickets[j])
    {
      assert TicketOk(T, T.tickets[j]);
    }
    forall p, x | 0 <= p < |U.index| && 0 <= x < Size(U, p)
      ensures Covered(U, p, x)
    {
      assert Covered(T, p, x);
      var i :| 0 <= i < |T.tickets| && Covers(T, T.tickets[i], p, x);
      assert Covers(U, U.tickets[i], p, x);
    }
  }

  /** What the page of ticket `k` holds after its copy. */
  lemma CopiedPage<E(!new)>(T: Table<E>, k: nat, x: nat)
    requires Layout(T) && k < |T.tickets| && TicketOk(T, T.tickets[k]) && x < T.max
    ensures var c := T.tickets[k];
            Copied(T, k).pages[c.page][x] == if c.start <= x < c.End() then Puts(c, x) else T.pages[c.page][x]
  {
  }

  /** A copy that comes after its page was recycled may hit the slots of another ticket. What that
      ticket wrote can still be read back exactly if the two agree wherever they overlap. */
  lemma CopyKeepsReadBackIff<E(!new)>(T: Table<E>, k: nat, j: nat)
    requires TableInv(T) && k < |T.tickets| && j < |T.tickets| && TicketOk(T, T.tickets[k])
    requires T.tickets[j].written && IsCurrent(T, T.tickets[j])
    ensures var d := T.tickets[j];
            ReadBack(Copied(T, k), d.page, d.start, |d.data|) == Some(d.data) <==> Agree(T.tickets[k], d)
  {
    var c, d := T.tickets[k], T.tickets[j];
    assert TicketOk(T, d);
    var before, after := T.pages[d.page], Copied(T, k).pages[d.page];
    assert before[d.start..d.End()] == d.data;
    forall x | d.start <= x < d.End()
      ensures before[x] == Puts(d, x)
      ensures after[x] == if c.page == d.page && c.start <= x < c.End() then Puts(c, x) else Puts(d, x)
    {
      assert before[x] == before[d.start..d.End()][x - d.start];
      if c.page == d.page {
        CopiedPage(T, k, x);
      }
    }
    if after[d.start..d.End()] == d.data {
      forall x | d.start <= x < d.End()
        ensures after[x] == Puts(d, x)
      {
        assert after[x] == after[d.start..d.End()][x - d.start];
      }
    }
  }

  /** Tickets of one generation never overlap. */
  lemma CurrentSpares<E(!new)>(T: Table<E>, k: nat)
    requires Layout(T) && k < |T.tickets| && IsCurrent(T, T.tickets[k])
    ensures SparesWritten(T, k)
  {
  }

  /** Exactly the copies that spoil nothing keep the invariant; all those that come in time do. */
  lemma CopyKeepsInvariantIff<E(!new)>(T: Table<E>, k: nat)
    requires TableInv(T) && k < |T.tickets| && TicketOk(T, T.tickets[k])
    ensures TableInv(Copied(T, k)) <==> SparesWritten(T, k)
    ensures IsCurrent(T, T.tickets[k]) ==> SparesWritten(T, k)
  {
    var c, U := T.tickets[k], Copied(T, k);
    CopyKeepsLayout(T, k);
    if IsCurrent(T, c) {
      CurrentSpares(T, k);
    }
    forall j | 0 <= j < |T.tickets| && T.tickets[j].written && IsCurrent(T, T.tickets[j])
      ensures var d := U.tickets[j];
              ReadBack(U, d.page, d.start, |d.data|) == Some(d.data) <==> Agree(c, T.tickets[j])
    {
      CopyKeepsReadBackIff(T, k, j);
    }
    assert U.pages[c.page][c.start..c.End()] == c.data;
    forall j | 0 <= j < |T.tickets|
      ensures U.tickets[j].written && IsCurrent(U, U.tickets[j])
              <==> (T.tickets[j].written || j == k) && IsCurrent(T, T.tickets[j])
    {
    }
  }

  lemma UnlinkKeepsShape<E(!new)>(T: Table<E>, zero: E, lo: nat, hi: nat)
    requires Shape(T) && lo <= hi == FirstUnused(T.index)
    ensures Shape(Unlinked(T, zero, lo, hi))
    ensures forall p :: lo <= p < |T.index| ==> !Used(Unlinked(T, zero, lo, hi).index[p])
  {
    var U := Unlinked(T, zero, lo, hi);
    forall p | lo <= p < |T.index|
      ensures !Used(U.index[p])
    {
      assert hi < p ==> !Used(T.index[p]);
    }
  }

  /** A ticket that is current after the unlinking was so before, on a page that was left alone. */
  lemma UnlinkKeepsCurrent<E(!new)>(T: Table<E>, zero: E, lo: nat, hi: nat, c: Ticket<E>)
    requires lo <= hi <= |T.index| == |T.pages| == |T.gens| && TicketOk(T, c)
    ensures TicketOk(Unlinked(T, zero, lo, hi), c)
    ensures IsCurrent(Unlinked(T, zero, lo, hi), c) ==> IsCurrent(T, c) && !(lo <= c.page < hi)
  {
  }

  lemma UnlinkKeepsLayout<E(!new)>(T: Table<E>, zero: E, lo: nat, hi: nat)
    requires Layout(T) && lo <= hi == FirstUnused(T.index)
    ensures Layout(Unlinked(T, zero, lo, hi))
  {
    var U := Unlinked(T, zero, lo, hi);
    UnlinkKeepsShape(T, zero, lo, hi);
    assert TicketsOk(U) by {
      forall k | 0 <= k < |U.tickets|
        ensures TicketOk(U, U.tickets[k])
      {
        UnlinkKeepsCurrent(T, zero, lo, hi, T.tickets[k]);
      }
    }
    assert Ordered(U);
    assert Tiled(U) by {
      forall p, x | 0 <= p < |U.index| && 0 <= x < Size(U, p)
        ensures Covered(U, p, x)
      {
        assert Covered(T, p, x);
        var i :| 0 <= i < |T.tickets| && Covers(T, T.tickets[i], p, x);
        assert Covers(U, U.tickets[i], p, x);
      }
    }
  }

  lemma UnlinkKeepsInvariant<E(!new)>(T: Table<E>, zero: E, lo: nat, hi: nat)
    requires TableInv(T) && lo <= hi == FirstUnused(T.index)
    ensures TableInv(Unlinked(T, zero, lo, hi))
  {
    var U := Unlinked(T, zero, lo, hi);
    UnlinkKeepsLayout(T, zero, lo, hi);
    forall k | 0 <= k < |U.tickets| && U.tickets[k].written && IsCurrent(U, U.tickets[k])
      ensures ReadBack(U, U.tickets[k].page, U.tickets[k].start, |U.tickets[k].data|) == Some(U.tickets[k].data)
    {
      UnlinkKeepsCurrent(T, zero, lo, hi, T.tickets[k]);
    }
  }

  // ---------------------------------------------------------------- what the invariant means

  /** Allocator conservation: within the present generation of a page the ranges handed out are
      pairwise disjoint, lie inside the page and make up exactly its first `max - available`
      slots: each of those belongs to exactly one ticket and no other slot belongs to any. */
  lemma TicketsTileThePage<E(!new)>(T: Table<E>, p: nat, x: nat)
    requires Layout(T) && p < |T.index| && Used(T.index[p])
    ensures T.index[p].available <= T.max
    ensures x < T.max - T.index[p].available <==> Covered(T, p, x)
    ensures forall i, j ::
              (0 <= i < |T.tickets| && 0 <= j < |T.tickets|
               && Covers(T, T.tickets[i], p, x) && Covers(T, T.tickets[j], p, x)) ==> i == j
  {
    if Covered(T, p, x) {
      var k :| 0 <= k < |T.tickets| && Covers(T, T.tickets[k], p, x);
      assert TicketOk(T, T.tickets[k]);
    }
    if x < T.max - T.index[p].available {
      assert x < Size(T, p);
    }
  }

  /** A ticket stops being current only when its page has expired for good: by the time the
      reservation was requested, or by the watermark the eviction raises. */
  lemma ReserveRetiresOnlyExpired<E(!new)>(T: Table<E>, t: nat, data: seq<E>, memLow: bool, c: Ticket<E>)
    requires Layout(T) && t + T.life > 0 && |data| <= T.max
    requires memLow ==> T.index != [] && Used(T.index[0])
    requires GrantFor(T, t, |data|, memLow).Grant?
    requires c in T.tickets && IsCurrent(T, c)
    ensures var g := GrantFor(T, t, |data|, memLow);
            IsCurrent(Granted(T, g, t, data), c) || c.time + T.life <= Max(t, g.watermark)
  {
    var k :| 0 <= k < |T.tickets| && T.tickets[k] == c;
    assert TicketOk(T, T.tickets[k]);
    GrantFacts(T, t, data, memLow);
  }

  lemma MaintenanceRetiresOnlyExpired<E(!new)>(T: Table<E>, zero: E, t: nat, watermark: nat, c: Ticket<E>)
    requires Layout(T)
    requires c in T.tickets && IsCurrent(T, c)
    ensures IsCurrent(Maintained(T, zero, t, watermark), c)
            || c.time + T.life + REMOVE_DELAY <= Max(t, watermark)
  {
    var k :| 0 <= k < |T.tickets| && T.tickets[k] == c;
    assert TicketOk(T, T.tickets[k]);
    MaintenanceIsCautious(T.index, T.max, t, watermark);
  }

  // ---------------------------------------------------------------- how long reservations last

  lemma ReserveKeepsLasts<E(!new)>(T: Table<E>, from: nat, m: nat, t: nat, data: seq<E>, memLow: bool)
    requires Layout(T) && t + T.life > 0 && |data| <= T.max && t <= m && Lasts(T, from, m)
    requires memLow ==> T.index != [] && Used(T.index[0])
    requires GrantFor(T, t, |data|, memLow).Grant?
    ensures var g := GrantFor(T, t, |data|, memLow);
            Lasts(Granted(T, g, t, data), from, Max(m, g.watermark))
  {
    var g := GrantFor(T, t, |data|, memLow);
    var U := Granted(T, g, t, data);
    forall k | 0 <= k < |T.tickets|
      ensures U.tickets[k] == T.tickets[k]
      ensures IsCurrent(U, T.tickets[k]) ==> IsCurrent(T, T.tickets[k])
      ensures IsCurrent(T, T.tickets[k]) ==>
                IsCurrent(U, T.tickets[k]) || T.tickets[k].time + T.life <= Max(t, g.watermark)
    {
      assert TicketOk(T, T.tickets[k]);
      if IsCurrent(T, T.tickets[k]) {
        ReserveRetiresOnlyExpired(T, t, data, memLow, T.tickets[k]);
      }
    }
  }

  lemma MaintainKeepsLasts<E(!new)>(T: Table<E>, zero: E, from: nat, m: nat, t: nat, watermark: nat)
    requires Layout(T) && t <= m && watermark <= m && Lasts(T, from, m)
    ensures Lasts(Maintained(T, zero, t, watermark), from, m)
  {
    var U := Maintained(T, zero, t, watermark);
    forall k | 0 <= k < |T.tickets|
      ensures IsCurrent(U, T.tickets[k]) ==> IsCurrent(T, T.tickets[k])
      ensures IsCurrent(T, T.tickets[k]) ==> IsCurrent(U, T.tickets[k]) || T.tickets[k].time + T.life <= m
    {
      assert TicketOk(T, T.tickets[k]);
      if IsCurrent(T, T.tickets[k]) {
        MaintenanceRetiresOnlyExpired(T, zero, t, watermark, T.tickets[k]);
      }
    }
  }

  /** A cleanup takes every reservation away. */
  lemma CleanupEndsAll<E(!new)>(T: Table<E>, zero: E, m: nat)
    requires Layout(T)
    ensures Lasts(CleanedUp(T, zero), |T.tickets|, m)
  {
    forall k | 0 <= k < |T.tickets|
      ensures !IsCurrent(CleanedUp(T, zero), T.tickets[k])
    {
      assert TicketOk(T, T.tickets[k]);
    }
  }
}
