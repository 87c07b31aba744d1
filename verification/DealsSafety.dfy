/** Two properties of whole runs of the deals system that no single table shows: a deal found by a
    search still has its payload, and a half-finished insertion is never seen. */
module DealsSafety {
  import opened Base
  import opened PageIndex
  import opened Tables
  import opened DealTypes
  import opened DealTable
  import opened DealsSystem

  // ---------------------------------------------------------------- payload

  /** The bytes `fill_deals_with_data` reads for a deal. */
  function Payload(s: State, d: DealInfo): Option<seq<bv8>> {
    match d.pageName
    case None => None
    case Some(p) => ReadBack(s.data, p, d.index, d.size)
  }

  /** The deal carries the place of the reservation that its bytes were copied to. */
  ghost predicate PlaceOk(s: State, a: Added) {
    && a.ticket < |s.data.tickets|
    && s.data.tickets[a.ticket].written
    && s.data.tickets[a.ticket].data == a.bytes
    && a.deal.pageName == Some(s.data.tickets[a.ticket].page)
    && a.deal.index == s.data.tickets[a.ticket].start
    && a.deal.size == |a.bytes|
  }

  ghost predicate ProcessPlaceOk(s: State, q: Process) {
    match q
    case Stamped(a) => PlaceOk(s, a)
    case WantIndex(a, _) => PlaceOk(s, a)
    case HoldIndex(a, _) => PlaceOk(s, a)
    case _ => true
  }

  ghost predicate PlacesOk(s: State) {
    && (forall p :: 0 <= p < |s.procs| ==> ProcessPlaceOk(s, s.procs[p]))
    && (forall i :: 0 <= i < |s.log| ==> PlaceOk(s, s.log[i]))
  }

  /** Payload reservations are never forgotten, and what was copied stays marked as copied. */
  lemma StepKeepsTickets(s: State, step: Step, k: nat)
    requires Inv(s) && Enabled(s, step) && Orderly(s, step) && k < |s.data.tickets|
    ensures var s' := Apply(s, step);
            && k < |s'.data.tickets|
            && s'.data.tickets[k] == s.data.tickets[k].(written := s'.data.tickets[k].written)
            && (s.data.tickets[k].written ==> s'.data.tickets[k].written)
  {
  }

  lemma StepKeepsPlace(s: State, step: Step, a: Added)
    requires Inv(s) && Enabled(s, step) && Orderly(s, step) && PlaceOk(s, a)
    ensures PlaceOk(Apply(s, step), a)
  {
    StepKeepsTickets(s, step, a.ticket);
  }

  lemma StepKeepsPlaces(s: State, step: Step)
    requires Inv(s) && PlacesOk(s) && Enabled(s, step) && Orderly(s, step)
    ensures PlacesOk(Apply(s, step))
  {
    var s' := Apply(s, step);
    forall p | 0 <= p < |s.procs|
      ensures ProcessPlaceOk(s', s'.procs[p])
    {
      ProcessKeepsPlace(s, step, p);
    }
    forall i | 0 <= i < |s'.log|
      ensures PlaceOk(s', s'.log[i])
    {
      if i < |s.log| {
        StepKeepsPlace(s, step, s.log[i]);
      } else {
        assert ProcessPlaceOk(s, s.procs[step.p]);
        StepKeepsPlace(s, step, s.procs[step.p].added);
      }
    }
  }

  lemma ProcessKeepsPlace(s: State, step: Step, p: nat)
    requires Inv(s) && PlacesOk(s) && Enabled(s, step) && Orderly(s, step) && p < |s.procs|
    ensures |Apply(s, step).procs| == |s.procs| && ProcessPlaceOk(Apply(s, step), Apply(s, step).procs[p])
  {
    assert ProcessPlaceOk(s, s.procs[p]);
    ProcessMoves(s, step, p);
    var hand := InHand(Apply(s, step).procs[p]);
    if step == Stamp(p) {
      FreshStamp(s, p);
    } else if hand.Some? {
      StepKeepsPlace(s, step, hand.value);
    }
  }

  /** The deal a process is about to index, once it is stamped. */
  function InHand(q: Process): Option<Added> {
    match q
    case Stamped(a) => Some(a)
    case WantIndex(a, _) => Some(a)
    case HoldIndex(a, _) => Some(a)
    case _ => None
  }

  /** Only stamping puts a deal into a process's hand. */
  lemma ProcessMoves(s: State, step: Step, p: nat)
    requires Inv(s) && Enabled(s, step) && Orderly(s, step) && p < |s.procs|
    ensures var s' := Apply(s, step);
            && |s'.procs| == |s.procs|
            && (step != Stamp(p) && InHand(s'.procs[p]).Some? ==> InHand(s'.procs[p]) == InHand(s.procs[p]))
  {
  }

  lemma FreshStamp(s: State, p: nat)
    requires Inv(s) && Enabled(s, Stamp(p))
    ensures ProcessPlaceOk(Apply(s, Stamp(p)), Apply(s, Stamp(p)).procs[p])
  {
    assert ProcessOk(s, s.procs[p]);
  }

  lemma {:induction false} RunKeepsPlaces(states: seq<State>, steps: seq<Step>, i: nat)
    requires Run(states, steps) && i < |states|
    ensures PlacesOk(states[i])
  {
    if i == 0 {
    } else {
      RunKeepsPlaces(states, steps, i - 1);
      RunKeepsInv(states, steps, i - 1);
      assert Linked(states[i - 1], steps[i - 1], states[i]);
      StepKeepsPlaces(states[i - 1], steps[i - 1]);
    }
  }

  /** Two reservations of one page and generation: they lose their slots together. */
  predicate Together(s: State, k: nat, j: nat) {
    && k < |s.data.tickets| && j < |s.data.tickets|
    && s.data.tickets[k].page == s.data.tickets[j].page && s.data.tickets[k].gen == s.data.tickets[j].gen
  }

  /** Reservation `k` of the page that holds the deal's payload was requested no earlier than the deal
      was stamped, and no truncation came after it. */
  predicate CoveredBy(s: State, a: Added, k: nat) {
    Together(s, a.ticket, k) && s.dataCleared <= k && a.deal.timestamp <= s.data.tickets[k].time
  }

  /** What payload safety asks of one deal. A deal stamped in the second in which its payload was
      reserved, with no truncation since, is covered by its own reservation. Since the log starts
      anew with each truncation, for a deal in the log this speaks of the time between its two
      reservations. */
  ghost predicate Whole(s: State, a: Added) {
    exists k :: 0 <= k < |s.data.tickets| && CoveredBy(s, a, k)
  }

  /** As long as a deal stamped with the time of a payload reservation could be in view, the
      reservation is still in force exactly if no truncation came after it. */
  lemma ReservationLastsIff(s: State, k: nat)
    requires Inv(s) && k < |s.data.tickets| && s.data.tickets[k].time + EXPIRES > s.Limit()
    ensures IsCurrent(s.data, s.data.tickets[k]) <==> s.dataCleared <= k
  {
  }

  lemma CurrentReadsBack(s: State, a: Added)
    requires Inv(s) && PlaceOk(s, a) && IsCurrent(s.data, s.data.tickets[a.ticket])
    ensures Payload(s, a.deal) == Some(a.bytes)
  {
  }

  /** Every search of every run: a deal it finds was added by someone since the last truncation, and
      reading its payload gives exactly the bytes it was added with if it is whole. Whatever
      recycles, evicts or unlinks its payload page also takes the deal out of view. */
  lemma EveryFoundDealHasItsPayload(states: seq<State>, steps: seq<Step>, i: nat, d: DealInfo)
    requires Run(states, steps) && i < |states|
    requires d in Scan(states[i].deals, states[i].now, states[i].watermark)
    ensures exists j :: 0 <= j < |states[i].log| && states[i].log[j].deal == d
    ensures forall j :: 0 <= j < |states[i].log| && states[i].log[j].deal == d && Whole(states[i], states[i].log[j])
              ==> Payload(states[i], d) == Some(states[i].log[j].bytes)
  {
    var s := states[i];
    RunKeepsInv(states, steps, i);
    RunKeepsPlaces(states, steps, i);
    FoundIsLogged(states, steps, i, d);
    forall j | 0 <= j < |s.log| && s.log[j].deal == d && Whole(s, s.log[j])
      ensures Payload(s, d) == Some(s.log[j].bytes)
    {
      assert PlaceOk(s, s.log[j]);
      var k :| 0 <= k < |s.data.tickets| && CoveredBy(s, s.log[j], k);
      ReservationLastsIff(s, k);
      CurrentReadsBack(s, s.log[j]);
    }
  }

  lemma FoundIsLogged(states: seq<State>, steps: seq<Step>, i: nat, d: DealInfo)
    requires Run(states, steps) && i < |states|
    requires d in Scan(states[i].deals, states[i].now, states[i].watermark)
    ensures Live(d, states[i].Limit())
    ensures exists j :: 0 <= j < |states[i].log| && states[i].log[j].deal == d
  {
    var s := states[i];
    EverySearchRefinesTheLog(states, steps, i);
    var live := e => Live(e, s.Limit());
    assert d in multiset(Filter(DealsOf(s.log), live));
    FilterCount(DealsOf(s.log), live, d);
    assert d in DealsOf(s.log);
    var n :| 0 <= n < |s.log| && DealsOf(s.log)[n] == d;
  }

  /** A deal that searches find, stamped no later than reservation `k` of its payload's page was
      requested, still owns its payload exactly if no truncation came after that reservation. */
  lemma FoundDealKeepsReservationIff(states: seq<State>, steps: seq<Step>, i: nat, j: nat, k: nat)
    requires Run(states, steps) && i < |states| && j < |states[i].log|
    requires var s, a := states[i], states[i].log[j];
             && a.deal in Scan(s.deals, s.now, s.watermark)
             && Together(s, a.ticket, k) && a.deal.timestamp <= s.data.tickets[k].time
    ensures var s, a := states[i], states[i].log[j];
            IsCurrent(s.data, s.data.tickets[a.ticket]) <==> s.dataCleared <= k
  {
    RunKeepsInv(states, steps, i);
    FoundIsLogged(states, steps, i, states[i].log[j].deal);
    ReservationLastsIff(states[i], k);
  }

  /** The payload reservation a process works with, if it has one. */
  function Carries(q: Process): Option<nat> {
    match q
    case Idle => None
    case WantData(_, _, _) => None
    case HoldData(_, _, k) => Some(k)
    case Unstamped(_, _, k) => Some(k)
    case Stamped(a) => Some(a.ticket)
    case WantIndex(a, _) => Some(a.ticket)
    case HoldIndex(a, _) => Some(a.ticket)
  }

  /** The next step of a process inside `addDeal`, if memory is not low. */
  function Next(q: Process, p: nat): Step
    requires !q.Idle?
  {
    match q
    case WantData(_, _, _) => ReserveData(p, false)
    case HoldData(_, _, _) => CopyData(p)
    case Unstamped(_, _, _) => Stamp(p)
    case Stamped(_) => BeginIndex(p)
    case WantIndex(_, _) => ReserveIndex(p, false)
    case HoldIndex(_, _) => CopyIndex(p)
  }

  /** A truncation takes the payload reservation of every process that has one. The next step of such
      a process is nevertheless in order exactly if it does not yet hold an index slot for a deal that
      is still live. */
  lemma TruncationOrphansIff(s: State, p: nat)
    requires Inv(s) && PlacesOk(s) && p < |s.procs| && Carries(s.procs[p]).Some?
    ensures var s', q := Apply(s, Truncate), s.procs[p];
            && s'.procs[p] == q
            && Carries(q).value < |s'.data.tickets|
            && !IsCurrent(s'.data, s'.data.tickets[Carries(q).value])
            && Enabled(s', Next(q, p))
            && (Orderly(s', Next(q, p)) <==> !(q.HoldIndex? && HoldsLive(s', q)))
  {
    var s', q := Apply(s, Truncate), s.procs[p];
    StepKeepsInv(s, Truncate);
    assert ProcessOk(s, q) && ProcessPlaceOk(s, q);
    GoesOnIff(s', p);
  }

  lemma GoesOnIff(s: State, p: nat)
    requires Inv(s) && p < |s.procs| && Carries(s.procs[p]).Some?
    requires s.dealsCleared == |s.deals.tickets| && s.dataCleared == |s.data.tickets|
    ensures var q := s.procs[p];
            && (!q.Unstamped? ==> Enabled(s, Next(q, p)))
            && (q.Unstamped? && q.ticket < |s.data.tickets| ==> Enabled(s, Next(q, p)))
            && (Enabled(s, Next(q, p)) ==> (Orderly(s, Next(q, p)) <==> !(q.HoldIndex? && HoldsLive(s, q))))
  {
    assert ProcessOk(s, s.procs[p]);
    match s.procs[p] {
      case HoldData(_, _, k) =>
        assert TicketOk(s.data, s.data.tickets[k]);
      case HoldIndex(_, _) => LateIndexCopyIff(s, p);
      case _ =>
    }
  }

  /** After a truncation the copy of an index slot reserved before is harmless exactly if the deal is
      out of view. */
  lemma LateIndexCopyIff(s: State, p: nat)
    requires Inv(s) && s.dealsCleared == |s.deals.tickets| && p < |s.procs| && s.procs[p].HoldIndex?
    ensures Enabled(s, CopyIndex(p)) && (Orderly(s, CopyIndex(p)) <==> !HoldsLive(s, s.procs[p]))
  {
    var c := s.deals.tickets[s.procs[p].slot];
    assert ProcessOk(s, s.procs[p]);
    assert TicketOk(s.deals, c);
    EmptiedSlots(s, c.page, c.start);
  }

  predicate HoldsLive(s: State, q: Process)
    requires q.HoldIndex?
  {
    Live(q.added.deal, s.Limit())
  }

  /** After a truncation no slot of the deals table holds anything live. */
  lemma EmptiedSlots(s: State, p: nat, x: nat)
    requires Inv(s) && s.dealsCleared == |s.deals.tickets| && p < |s.deals.pages| && x < |s.deals.pages[p]|
    ensures !Live(s.deals.pages[p][x], s.Limit())
  {
    assert forall k :: 0 <= k < |s.deals.tickets| ==> !PutBy(s.deals, k, p, x);
  }

  /** `fill_deals_with_data`: one payload per deal, in order. */
  method FillDealsWithData(s: State, found: seq<DealInfo>) returns (data: seq<Option<seq<bv8>>>)
    ensures |data| == |found| && forall i :: 0 <= i < |found| ==> data[i] == Payload(s, found[i])
  {
    data := [];
    for i := 0 to |found|
      invariant |data| == i && forall j :: 0 <= j < i ==> data[j] == Payload(s, found[j])
    {
      var piece := None;
      if found[i].pageName.Some? {
        piece := ReadBack(s.data, found[i].pageName.value, found[i].index, found[i].size);
      }
      data := data + [piece];
    }
  }

  /** Why the second matters. Whatever step takes the slots of a payload reservation, be it that the
      page is recycled after it expired, evicted when memory is low, or unlinked by maintenance: a deal
      stamped `stamp` and so far in view leaves the view with that step exactly if the page was to
      expire no earlier than the deal. */
  lemma LosingThePayloadHidesTheDealIff(s: State, step: Step, k: nat, stamp: nat)
    requires Inv(s) && Enabled(s, step) && Orderly(s, step) && !step.Truncate?
    requires k < |s.data.tickets| && IsCurrent(s.data, s.data.tickets[k])
    requires !IsCurrent(Apply(s, step).data, s.data.tickets[k])
    requires s.Limit() < stamp + EXPIRES
    ensures stamp + EXPIRES <= Apply(s, step).Limit()
            <==> stamp + EXPIRES <= s.data.index[s.data.tickets[k].page].expireAt
  {
    assert TicketOk(s.data, s.data.tickets[k]);
    match step {
      case ReserveData(p, memLow) => RecyclingHidesIff(s, p, memLow, k, stamp);
      case MaintainData(t) => MaintenanceIsCautious(s.data.index, s.data.max, t, s.watermark);
      case _ =>
    }
  }

  lemma RecyclingHidesIff(s: State, p: nat, memLow: bool, k: nat, stamp: nat)
    requires Inv(s) && Enabled(s, ReserveData(p, memLow)) && Orderly(s, ReserveData(p, memLow))
    requires k < |s.data.tickets| && IsCurrent(s.data, s.data.tickets[k]) && TicketOk(s.data, s.data.tickets[k])
    requires !IsCurrent(AfterReserveData(s, p, memLow).data, s.data.tickets[k])
    requires s.Limit() < stamp + EXPIRES
    ensures stamp + EXPIRES <= AfterReserveData(s, p, memLow).Limit()
            <==> stamp + EXPIRES <= s.data.index[s.data.tickets[k].page].expireAt
  {
    var WantData(info, bytes, t) := s.procs[p];
    assert ProcessOk(s, s.procs[p]);
    if |bytes| <= s.data.max && GrantFor(s.data, t, |bytes|, memLow).Grant? {
      GrantFacts(s.data, t, bytes, memLow);
    }
  }

  /** The condition holds for deals stamped no later than some reservation on the page. */
  lemma CoveredByThePage(s: State, k: nat, j: nat, stamp: nat)
    requires Inv(s) && Together(s, k, j) && IsCurrent(s.data, s.data.tickets[k]) && stamp <= s.data.tickets[j].time
    ensures s.data.tickets[k].page < |s.data.index|
    ensures stamp + EXPIRES <= s.data.index[s.data.tickets[k].page].expireAt
  {
    assert TicketOk(s.data, s.data.tickets[j]);
  }

  // ---------------------------------------------------------------- unfinished insertions

  /** The reservation is the same one, apart from having been filled. */
  predicate SameTicket(a: Ticket<DealInfo>, b: Ticket<DealInfo>) {
    a == b.(written := a.written)
  }

  /** Page generations only move on, and reservations granted later belong to later generations. */
  ghost predicate Later(s: State, t: State) {
    && t.deals.max == s.deals.max
    && |t.deals.gens| == |s.deals.gens| && |t.deals.pages| == |s.deals.pages|
    && s.Limit() <= t.Limit() && s.dealsCleared <= t.dealsCleared
    && (forall p :: 0 <= p < |s.deals.gens| ==> s.deals.gens[p] <= t.deals.gens[p])
    && |s.deals.tickets| <= |t.deals.tickets|
    && (forall k :: 0 <= k < |s.deals.tickets| ==> SameTicket(s.deals.tickets[k], t.deals.tickets[k]))
    && (forall k :: |s.deals.tickets| <= k < |t.deals.tickets| && t.deals.tickets[k].page < |s.deals.gens| ==>
          s.deals.gens[t.deals.tickets[k].page] <= t.deals.tickets[k].gen)
  }

  lemma StepIsLater(s: State, step: Step)
    requires Inv(s) && Enabled(s, step) && Orderly(s, step)
    ensures Later(s, Apply(s, step))
  {
    match step {
      case ReserveIndex(p, memLow) => ReserveIsLater(s, p, memLow);
      case MaintainDeals(_) => UnlinkIsLater(s, step);
      case Truncate => UnlinkIsLater(s, step);
      case _ =>
    }
  }

  lemma ReserveIsLater(s: State, p: nat, memLow: bool)
    requires Inv(s) && Enabled(s, ReserveIndex(p, memLow)) && Orderly(s, ReserveIndex(p, memLow))
    ensures Later(s, AfterReserveIndex(s, p, memLow))
  {
  }

  lemma UnlinkIsLater(s: State, step: Step)
    requires Inv(s) && Enabled(s, step) && (step.MaintainDeals? || step.Truncate?)
    ensures Later(s, Apply(s, step))
  {
  }

  lemma LaterIsTransitive(r: State, s: State, t: State)
    requires Later(r, s) && Later(s, t)
    ensures Later(r, t)
  {
    forall k | 0 <= k < |r.deals.tickets|
      ensures SameTicket(r.deals.tickets[k], t.deals.tickets[k])
    {
      assert SameTicket(r.deals.tickets[k], s.deals.tickets[k]);
    }
    forall k | |r.deals.tickets| <= k < |t.deals.tickets| && t.deals.tickets[k].page < |r.deals.gens|
      ensures r.deals.gens[t.deals.tickets[k].page] <= t.deals.tickets[k].gen
    {
      if k < |s.deals.tickets| {
        assert SameTicket(s.deals.tickets[k], t.deals.tickets[k]);
      }
    }
  }

  lemma {:induction false} RunMovesOn(states: seq<State>, steps: seq<Step>, a: nat, b: nat)
    requires Run(states, steps) && a <= b < |states|
    ensures Later(states[a], states[b])
    decreases b - a
  {
    if a == b {
    } else {
      RunMovesOn(states, steps, a, b - 1);
      RunKeepsInv(states, steps, b - 1);
      assert Linked(states[b - 1], steps[b - 1], states[b]);
      StepIsLater(states[b - 1], steps[b - 1]);
      LaterIsTransitive(states[a], states[b - 1], states[b]);
    }
  }

  /** The step is no late copy into slot `x` of page `p` of a deal that was live at limit `m`. */
  predicate Quiet(s: State, step: Step, m: nat, p: nat, x: nat)
    requires Enabled(s, step)
  {
    step.CopyIndex? ==>
      var c := s.deals.tickets[s.procs[step.p].slot];
      c.page == p && c.start == x && !IsCurrent(s.deals, c) ==> c.data != [] && !Live(c.data[0], m)
  }

  /** A copy that comes after its page was recycled writes a deal that was out of view already when
      the page was last recycled. */
  lemma LateCopyWasDeadBefore(s: State, t: State, k: nat)
    requires Inv(s) && Inv(t) && Later(s, t)
    requires t.dealsCleared <= k < |t.deals.tickets| && !IsCurrent(t.deals, t.deals.tickets[k])
    requires var p := t.deals.tickets[k].page;
             p < |s.deals.gens| && s.deals.gens[p] == t.deals.gens[p]
    ensures |t.deals.tickets[k].data| == 1 && !Live(t.deals.tickets[k].data[0], s.Limit())
  {
    assert TicketOk(t.deals, t.deals.tickets[k]);
    assert k < |s.deals.tickets|;
    assert SameTicket(s.deals.tickets[k], t.deals.tickets[k]);
  }

  /** The slot holds nothing that was live at limit `m`, or a deal put there in the present
      generation of its page. */
  ghost predicate DeadOrBacked(s: State, m: nat, p: nat, x: nat)
    requires p < |s.deals.pages| && x < |s.deals.pages[p]|
  {
    !Live(s.deals.pages[p][x], m) || Backed(s.deals, p, x)
  }

  /** While the generation of a page lasts, a step leaves no slot with unbacked content that was live
      when a search started. */
  lemma StepKeepsBacked(r: State, s: State, step: Step, p: nat, x: nat)
    requires Inv(s) && Later(r, s) && Enabled(s, step) && Orderly(s, step) && Quiet(s, step, r.Limit(), p, x)
    requires p < |r.deals.gens| && r.deals.gens[p] == s.deals.gens[p] == Apply(s, step).deals.gens[p]
    requires x < s.deals.max && DeadOrBacked(s, r.Limit(), p, x)
    ensures var s' := Apply(s, step);
            p < |s'.deals.pages| && x < |s'.deals.pages[p]| && DeadOrBacked(s', r.Limit(), p, x)
  {
    if step.CopyIndex? {
      CopyKeepsBacked(s, step.p, r.Limit(), p, x);
    } else {
      PageStays(s, step, p);
      if Backed(s.deals, p, x) {
        var k :| 0 <= k < |s.deals.tickets| && PutBy(s.deals, k, p, x);
        StepIsLater(s, step);
        assert PutBy(Apply(s, step).deals, k, p, x);
      }
    }
  }

  /** Only copies change a page within its generation. */
  lemma PageStays(s: State, step: Step, p: nat)
    requires Inv(s) && Enabled(s, step) && Orderly(s, step) && !step.CopyIndex?
    requires p < |s.deals.gens| && p < |Apply(s, step).deals.gens|
    requires s.deals.gens[p] == Apply(s, step).deals.gens[p]
    ensures var T, U := s.deals, Apply(s, step).deals;
            && p < |U.pages| && U.pages[p] == T.pages[p] && |T.tickets| <= |U.tickets|
            && forall k :: 0 <= k < |T.tickets| ==> U.tickets[k] == T.tickets[k]
  {
  }

  lemma OtherSlotStays(T: Table<DealInfo>, k: nat, p: nat, x: nat)
    requires Layout(T) && DealTickets(T) && k < |T.tickets| && TicketOk(T, T.tickets[k])
    requires p < |T.pages| && x < |T.pages[p]| && (p != T.tickets[k].page || x != T.tickets[k].start)
    ensures var U := Copied(T, k);
            && p < |U.pages| && x < |U.pages[p]| && U.pages[p][x] == T.pages[p][x]
            && (Backed(T, p, x) ==> Backed(U, p, x))
  {
    CopyChangesOneSlot(T, k);
    if Backed(T, p, x) {
      var j :| 0 <= j < |T.tickets| && PutBy(T, j, p, x);
      assert PutBy(Copied(T, k), j, p, x);
    }
  }

  lemma CopyKeepsBacked(s: State, q: nat, m: nat, p: nat, x: nat)
    requires Inv(s) && Enabled(s, CopyIndex(q)) && Quiet(s, CopyIndex(q), m, p, x)
    requires p < |s.deals.pages| && x < s.deals.max && DeadOrBacked(s, m, p, x)
    ensures var s' := Apply(s, CopyIndex(q));
            p < |s'.deals.pages| && x < |s'.deals.pages[p]| && DeadOrBacked(s', m, p, x)
  {
    var T, U := s.deals, Apply(s, CopyIndex(q)).deals;
    var k := s.procs[q].slot;
    var c := T.tickets[k];
    assert TicketOk(T, c);
    CopyChangesOneSlot(T, k);
    if p != c.page || x != c.start {
      OtherSlotStays(T, k, p, x);
    } else if IsCurrent(T, c) {
      assert U.pages[p][x] == c.data[0];
      assert PutBy(U, k, p, x);
    } else {
      assert U.pages[p][x] == c.data[0];
    }
  }

  lemma {:induction false} RunKeepsBacked(states: seq<State>, steps: seq<Step>, a: nat, b: nat, p: nat, x: nat)
    requires Run(states, steps) && a <= b < |states|
    requires forall i :: a <= i < b ==> Enabled(states[i], steps[i]) && Quiet(states[i], steps[i], states[a].Limit(), p, x)
    requires p < |states[b].deals.gens| && |states[a].deals.gens| == |states[b].deals.gens|
    requires states[a].deals.gens[p] == states[b].deals.gens[p] && x < states[b].deals.max
    ensures p < |states[b].deals.pages| && x < |states[b].deals.pages[p]|
    ensures DeadOrBacked(states[b], states[a].Limit(), p, x)
    decreases b - a
  {
    RunKeepsInv(states, steps, a);
    RunKeepsInv(states, steps, b);
    if a == b {
    } else {
      var s, step := states[b - 1], steps[b - 1];
      RunKeepsInv(states, steps, b - 1);
      assert Linked(s, step, states[b]);
      RunMovesOn(states, steps, a, b - 1);
      StepIsLater(s, step);
      RunKeepsBacked(states, steps, a, b - 1, p, x);
      StepKeepsBacked(states[a], s, step, p, x);
    }
  }

  /** A search fixes its cutoff at state `a` and reads a slot at a later state `b`. If the page was
      not recycled in between, and no late copy put a deal there that was live at `a`, whatever passes
      the cutoff is a deal whose copy was completed in the page's present generation; a slot reserved
      but not yet filled never passes. */
  lemma UnfinishedCopiesStayInvisible(states: seq<State>, steps: seq<Step>, a: nat, b: nat, p: nat, x: nat)
    requires Run(states, steps) && a <= b < |states|
    requires forall i :: a <= i < b ==> Enabled(states[i], steps[i]) && Quiet(states[i], steps[i], states[a].Limit(), p, x)
    requires p < |states[b].deals.gens| && |states[a].deals.gens| == |states[b].deals.gens|
    requires states[a].deals.gens[p] == states[b].deals.gens[p]
    requires x < states[b].deals.max && p < |states[b].deals.pages| && x < |states[b].deals.pages[p]|
    requires PassesCutoff(states[b].deals.pages[p][x], Cutoff(states[a].now, states[a].watermark))
    ensures exists k :: 0 <= k < |states[b].deals.tickets| && PutBy(states[b].deals, k, p, x)
  {
    RunKeepsBacked(states, steps, a, b, p, x);
    assert Live(states[b].deals.pages[p][x], states[a].Limit());
    assert Backed(states[b].deals, p, x);
  }

  /** Such a late copy needs a truncation: as long as the page is not recycled, every copy into it whose
      slot was reserved since the last truncation is quiet. */
  lemma QuietUnlessTruncated(states: seq<State>, steps: seq<Step>, a: nat, i: nat, p: nat, x: nat)
    requires Run(states, steps) && a <= i < |steps| && Enabled(states[i], steps[i])
    requires p < |states[i].deals.gens| && |states[a].deals.gens| == |states[i].deals.gens|
    requires states[a].deals.gens[p] == states[i].deals.gens[p]
    requires steps[i].CopyIndex? ==> states[i].dealsCleared <= states[i].procs[steps[i].p].slot
    ensures Quiet(states[i], steps[i], states[a].Limit(), p, x)
  {
    RunKeepsInv(states, steps, a);
    RunKeepsInv(states, steps, i);
    RunMovesOn(states, steps, a, i);
    if steps[i].CopyIndex? {
      var k := states[i].procs[steps[i].p].slot;
      var c := states[i].deals.tickets[k];
      if c.page == p && !IsCurrent(states[i].deals, c) {
        LateCopyWasDeadBefore(states[a], states[i], k);
      }
    }
  }
}
