/** The deals database as a system of processes over two shared tables: deals and payload bytes.

    One step is one lock-held section, one copy, one reading of the clock, one maintenance pass or
    one truncation of both tables. Between any two steps of a process the others may do anything.
    The clock never goes back; a process may act on a reading of the clock that is out of date. */
module DealsSystem {
  import opened Base
  import opened PageIndex
  import opened Tables
  import opened DealTypes
  import opened DealTable

  /** A deal, the bytes it was added with, and the payload reservation they went to. */
  datatype Added = Added(deal: DealInfo, bytes: seq<bv8>, ticket: nat)

  /** Where a process is inside `addDeal`. */
  datatype Process =
    | Idle
    | WantData(info: DealInfo, bytes: seq<bv8>, t: nat)
    | HoldData(info: DealInfo, bytes: seq<bv8>, ticket: nat)
    | Unstamped(info: DealInfo, bytes: seq<bv8>, ticket: nat)
    | Stamped(added: Added)
    | WantIndex(added: Added, t: nat)
    | HoldIndex(added: Added, slot: nat)

  /** `log` holds the deals added since the last truncation; `dataCleared` and `dealsCleared` tell how
      many reservations had been granted in each table before it. */
  datatype State = State(
    now: nat,
    watermark: nat,
    data: Table<bv8>,
    deals: Table<DealInfo>,
    procs: seq<Process>,
    log: seq<Added>,
    dataCleared: nat,
    dealsCleared: nat)
  {
    /** The larger of clock and watermark: what a search measures deals against. */
    function Limit(): nat { Max(now, watermark) }
  }

  datatype Step =
    | Tick(seconds: nat)
    | Begin(p: nat, info: DealInfo, bytes: seq<bv8>)
    | ReserveData(p: nat, memLow: bool)
    | CopyData(p: nat)
    | Stamp(p: nat)
    | BeginIndex(p: nat)
    | ReserveIndex(p: nat, memLow: bool)
    | CopyIndex(p: nat)
    | MaintainData(t: nat)
    | MaintainDeals(t: nat)
    | Truncate

  function DealsOf(log: seq<Added>): (r: seq<DealInfo>)
    ensures |r| == |log| && forall i :: 0 <= i < |log| ==> r[i] == log[i].deal
  {
    seq(|log|, i requires 0 <= i < |log| => log[i].deal)
  }

  /** The ticket exists and its range lies inside its page. */
  predicate InRange<E>(T: Table<E>, k: nat) {
    && k < |T.tickets|
    && T.tickets[k].page < |T.pages|
    && T.tickets[k].End() <= |T.pages[T.tickets[k].page]|
  }

  predicate Enabled(s: State, step: Step) {
    match step
    case Tick(_) => true
    case Begin(p, _, _) => p < |s.procs| && s.procs[p].Idle?
    case ReserveData(p, _) => p < |s.procs| && s.procs[p].WantData?
    case CopyData(p) => p < |s.procs| && s.procs[p].HoldData? && InRange(s.data, s.procs[p].ticket)
    case Stamp(p) => p < |s.procs| && s.procs[p].Unstamped? && s.procs[p].ticket < |s.data.tickets|
    case BeginIndex(p) => p < |s.procs| && s.procs[p].Stamped?
    case ReserveIndex(p, _) => p < |s.procs| && s.procs[p].WantIndex?
    case CopyIndex(p) => p < |s.procs| && s.procs[p].HoldIndex? && InRange(s.deals, s.procs[p].slot)
    case MaintainData(t) => t <= s.now
    case MaintainDeals(t) => t <= s.now
    case Truncate => true
  }

  /** The locked part of an insertion into the payload table; errors leave the state as it was. */
  ghost function AfterReserveData(s: State, p: nat, memLow: bool): State
    requires Shape(s.data) && Enabled(s, ReserveData(p, memLow))
  {
    var WantData(info, bytes, t) := s.procs[p];
    if |bytes| > s.data.max then s.(procs := s.procs[p := Idle])
    else
      var g := GrantFor(s.data, t, |bytes|, memLow);
      if g.NoSpace? then s.(procs := s.procs[p := Idle])
      else s.(watermark := Max(s.watermark, g.watermark),
              data := Granted(s.data, g, t, bytes),
              procs := s.procs[p := HoldData(info, bytes, |s.data.tickets|)])
  }

  ghost function AfterReserveIndex(s: State, p: nat, memLow: bool): State
    requires Shape(s.deals) && Enabled(s, ReserveIndex(p, memLow))
  {
    var WantIndex(added, t) := s.procs[p];
    if 1 > s.deals.max then s.(procs := s.procs[p := Idle])
    else
      var g := GrantFor(s.deals, t, 1, memLow);
      if g.NoSpace? then s.(procs := s.procs[p := Idle])
      else s.(watermark := Max(s.watermark, g.watermark),
              deals := Granted(s.deals, g, t, [added.deal]),
              procs := s.procs[p := HoldIndex(added, |s.deals.tickets|)])
  }

  /** The deal with the time of stamping and the place of its payload filled in. */
  function StampedDeal(info: DealInfo, now: nat, c: Ticket<bv8>): DealInfo {
    info.(timestamp := now, pageName := Some(c.page), index := c.start, size := |c.data|)
  }

  ghost function Apply(s: State, step: Step): State
    requires Shape(s.data) && Shape(s.deals) && Enabled(s, step)
  {
    match step
    case Tick(seconds) => s.(now := s.now + seconds)
    case Begin(p, info, bytes) => s.(procs := s.procs[p := WantData(info, bytes, s.now)])
    case ReserveData(p, memLow) => AfterReserveData(s, p, memLow)
    case CopyData(p) =>
      var HoldData(info, bytes, k) := s.procs[p];
      s.(data := Copied(s.data, k), procs := s.procs[p := Unstamped(info, bytes, k)])
    case Stamp(p) =>
      var Unstamped(info, bytes, k) := s.procs[p];
      s.(procs := s.procs[p := Stamped(Added(StampedDeal(info, s.now, s.data.tickets[k]), bytes, k))])
    case BeginIndex(p) => s.(procs := s.procs[p := WantIndex(s.procs[p].added, s.now)])
    case ReserveIndex(p, memLow) => AfterReserveIndex(s, p, memLow)
    case CopyIndex(p) =>
      var HoldIndex(added, k) := s.procs[p];
      s.(deals := Copied(s.deals, k), procs := s.procs[p := Idle], log := s.log + [added])
    case MaintainData(t) => s.(data := Maintained(s.data, 0, t, s.watermark))
    case MaintainDeals(t) => s.(deals := Maintained(s.deals, NO_DEAL, t, s.watermark))
    case Truncate =>
      s.(data := CleanedUp(s.data, 0), deals := CleanedUp(s.deals, NO_DEAL), log := [],
         dataCleared := |s.data.tickets|, dealsCleared := |s.deals.tickets|)
  }

  predicate AnyUsed<E>(T: Table<E>) {
    T.index != [] && Used(T.index[0])
  }

  /** What the code relies on but does not check: memory is not reported low on an empty table, and a
      copy that comes after its page was recycled does no harm. In the payload table it spoils
      nothing that was written since; in the deals table neither what it overwrites nor the deal is
      live, unless the slot is reserved for that very deal. Copies that come in time always pass. */
  ghost predicate Orderly(s: State, step: Step)
    requires Enabled(s, step)
  {
    match step
    case ReserveData(_, memLow) => memLow ==> AnyUsed(s.data)
    case ReserveIndex(_, memLow) => memLow ==> AnyUsed(s.deals)
    case CopyData(p) => SparesWritten(s.data, s.procs[p].ticket)
    case CopyIndex(p) => IndexCopyIsHarmless(s, p)
    case _ => true
  }

  ghost predicate IndexCopyIsHarmless(s: State, p: nat)
    requires Enabled(s, CopyIndex(p))
  {
    var k := s.procs[p].slot;
    var c := s.deals.tickets[k];
    && c.data != []
    && !Live(SlotContent(s.deals, k), s.Limit())
    && (Live(c.data[0], s.Limit()) ==> Claimed(s.deals, k))
  }

  // ---------------------------------------------------------------- invariant

  ghost predicate ProcessOk(s: State, q: Process) {
    match q
    case Idle => true
    case WantData(_, _, t) => t <= s.now
    case HoldData(_, bytes, k) =>
      k < |s.data.tickets| && !s.data.tickets[k].written && s.data.tickets[k].data == bytes
    case Unstamped(_, bytes, k) =>
      k < |s.data.tickets| && s.data.tickets[k].written && s.data.tickets[k].data == bytes
    case Stamped(added) => added.deal.timestamp <= s.now
    case WantIndex(added, t) => added.deal.timestamp <= t <= s.now
    case HoldIndex(added, k) =>
      k < |s.deals.tickets| && !s.deals.tickets[k].written && s.deals.tickets[k].data == [added.deal]
  }

  /** No two processes hold the same reservation. */
  ghost predicate Exclusive(procs: seq<Process>) {
    forall p, q :: 0 <= p < q < |procs| ==>
      && (procs[p].HoldData? && procs[q].HoldData? ==> procs[p].ticket != procs[q].ticket)
      && (procs[p].HoldIndex? && procs[q].HoldIndex? ==> procs[p].slot != procs[q].slot)
  }

  ghost predicate ProcessesOk(s: State) {
    && (forall p :: 0 <= p < |s.procs| ==> ProcessOk(s, s.procs[p]))
    && Exclusive(s.procs)
  }

  ghost predicate Inv(s: State) {
    && EXPIRES <= s.now
    && TableInv(s.data) && s.data.life == EXPIRES
    && DealInv(s.deals, s.Limit(), DealsOf(s.log))
    && ProcessesOk(s)
    && Lasts(s.data, s.dataCleared, s.Limit())
    && Lasts(s.deals, s.dealsCleared, s.Limit())
  }

  function Initial(now: nat, processes: nat, pages: nat, max: nat, dataPages: nat, dataMax: nat): State {
    State(now, 0, Empty(dataPages, dataMax, EXPIRES, 0 as bv8), Empty(pages, max, EXPIRES, NO_DEAL),
          seq(processes, i => Idle), [], 0, 0)
  }

  lemma InitialKeeps(now: nat, processes: nat, pages: nat, max: nat, dataPages: nat, dataMax: nat)
    requires EXPIRES <= now
    ensures Inv(Initial(now, processes, pages, max, dataPages, dataMax))
  {
    EmptyIsValid<bv8>(dataPages, dataMax, EXPIRES, 0);
    EmptyKeeps(pages, max, now);
  }

  // ---------------------------------------------------------------- steps keep the invariant

  lemma ReserveDataKeeps(s: State, p: nat, memLow: bool)
    requires Inv(s) && Enabled(s, ReserveData(p, memLow)) && Orderly(s, ReserveData(p, memLow))
    ensures Inv(AfterReserveData(s, p, memLow))
  {
    var s' := AfterReserveData(s, p, memLow);
    var WantData(info, bytes, t) := s.procs[p];
    assert ProcessOk(s, s.procs[p]);
    if |bytes| <= s.data.max && GrantFor(s.data, t, |bytes|, memLow).Grant? {
      ReserveKeepsInvariant(s.data, t, bytes, memLow);
      ReserveKeepsLasts(s.data, s.dataCleared, s.Limit(), t, bytes, memLow);
      LaterKeeps(s.deals, s.Limit(), s'.Limit(), DealsOf(s.log));
    }
    ReserveDataKeepsProcesses(s, p, memLow);
  }

  lemma ReserveDataKeepsProcesses(s: State, p: nat, memLow: bool)
    requires Shape(s.data) && ProcessesOk(s) && Enabled(s, ReserveData(p, memLow))
    ensures ProcessesOk(AfterReserveData(s, p, memLow))
  {
    var s' := AfterReserveData(s, p, memLow);
    forall q | 0 <= q < |s.procs|
      ensures ProcessOk(s', s'.procs[q])
    {
      assert ProcessOk(s, s.procs[q]);
    }
    assert Exclusive(s'.procs) by {
      assert forall q :: 0 <= q < |s.procs| ==> ProcessOk(s, s.procs[q]);
    }
  }

  lemma ReserveIndexKeeps(s: State, p: nat, memLow: bool)
    requires Inv(s) && Enabled(s, ReserveIndex(p, memLow)) && Orderly(s, ReserveIndex(p, memLow))
    ensures Inv(AfterReserveIndex(s, p, memLow))
  {
    var s' := AfterReserveIndex(s, p, memLow);
    var WantIndex(added, t) := s.procs[p];
    assert ProcessOk(s, s.procs[p]);
    if 1 <= s.deals.max && GrantFor(s.deals, t, 1, memLow).Grant? {
      ReserveKeeps(s.deals, s.Limit(), DealsOf(s.log), t, added.deal, memLow);
      ReserveKeepsLasts(s.deals, s.dealsCleared, s.Limit(), t, [added.deal], memLow);
    }
    ReserveIndexKeepsProcesses(s, p, memLow);
  }

  lemma ReserveIndexKeepsProcesses(s: State, p: nat, memLow: bool)
    requires Shape(s.deals) && ProcessesOk(s) && Enabled(s, ReserveIndex(p, memLow))
    ensures ProcessesOk(AfterReserveIndex(s, p, memLow))
  {
    var s' := AfterReserveIndex(s, p, memLow);
    forall q | 0 <= q < |s.procs|
      ensures ProcessOk(s', s'.procs[q])
    {
      assert ProcessOk(s, s.procs[q]);
    }
    assert Exclusive(s'.procs) by {
      assert forall q :: 0 <= q < |s.procs| ==> ProcessOk(s, s.procs[q]);
    }
  }

  /** A copy that comes while its page is still in the generation it was reserved in is in order. */
  lemma CopiesInTimePass(s: State, p: nat)
    requires Inv(s) && p < |s.procs|
    ensures (s.procs[p].HoldData? && InRange(s.data, s.procs[p].ticket)
             && IsCurrent(s.data, s.data.tickets[s.procs[p].ticket]))
            ==> Orderly(s, CopyData(p))
    ensures (s.procs[p].HoldIndex? && InRange(s.deals, s.procs[p].slot)
             && IsCurrent(s.deals, s.deals.tickets[s.procs[p].slot]))
            ==> Orderly(s, CopyIndex(p))
  {
    assert ProcessOk(s, s.procs[p]);
    match s.procs[p] {
      case HoldData(_, _, k) =>
        if IsCurrent(s.data, s.data.tickets[k]) {
          CurrentSpares(s.data, k);
        }
      case HoldIndex(_, k) =>
        var c := s.deals.tickets[k];
        assert TicketOk(s.deals, c);
        if IsCurrent(s.deals, c) {
          UnwrittenSlotIsDead(s.deals, s.Limit(), k);
          assert Covers(s.deals, c, c.page, c.start);
        }
      case _ =>
    }
  }

  lemma CopyDataKeeps(s: State, p: nat)
    requires Inv(s) && Enabled(s, CopyData(p)) && Orderly(s, CopyData(p))
    ensures Inv(Apply(s, CopyData(p)))
  {
    var s' := Apply(s, CopyData(p));
    assert ProcessOk(s, s.procs[p]);
    assert TicketOk(s.data, s.data.tickets[s.procs[p].ticket]);
    CopyKeepsInvariantIff(s.data, s.procs[p].ticket);
    forall q | 0 <= q < |s.procs|
      ensures ProcessOk(s', s'.procs[q])
    {
      assert ProcessOk(s, s.procs[q]);
      assert q < p || p <= q;
    }
  }

  lemma CopyIndexKeeps(s: State, p: nat)
    requires Inv(s) && Enabled(s, CopyIndex(p)) && Orderly(s, CopyIndex(p))
    ensures Inv(Apply(s, CopyIndex(p)))
  {
    var s' := Apply(s, CopyIndex(p));
    var HoldIndex(added, k) := s.procs[p];
    assert ProcessOk(s, s.procs[p]);
    assert TicketOk(s.deals, s.deals.tickets[k]);
    CopyKeepsDealInvIff(s.deals, s.Limit(), DealsOf(s.log), k);
    assert DealsOf(s'.log) == DealsOf(s.log) + s.deals.tickets[k].data;
    CopyIndexKeepsProcesses(s, p);
  }

  lemma CopyIndexKeepsProcesses(s: State, p: nat)
    requires Shape(s.data) && Shape(s.deals) && ProcessesOk(s) && Enabled(s, CopyIndex(p))
    ensures ProcessesOk(Apply(s, CopyIndex(p)))
  {
    var s' := Apply(s, CopyIndex(p));
    forall q | 0 <= q < |s.procs|
      ensures ProcessOk(s', s'.procs[q])
    {
      assert ProcessOk(s, s.procs[q]);
      assert q < p || p <= q;
    }
  }

  lemma MaintenanceKeeps(s: State, step: Step)
    requires Inv(s) && Enabled(s, step) && (step.MaintainData? || step.MaintainDeals? || step.Truncate?)
    ensures Inv(Apply(s, step))
  {
    var s' := Apply(s, step);
    match step {
      case MaintainData(t) =>
        UnlinkKeepsInvariant(s.data, 0, Kept(s.data.index, t, s.watermark), FirstUnused(s.data.index));
        MaintainKeepsLasts(s.data, 0, s.dataCleared, s.Limit(), t, s.watermark);
      case MaintainDeals(t) =>
        MaintainKeeps(s.deals, s.Limit(), DealsOf(s.log), t, s.watermark);
        MaintainKeepsLasts(s.deals, NO_DEAL, s.dealsCleared, s.Limit(), t, s.watermark);
      case Truncate =>
        UnlinkKeepsInvariant(s.data, 0, 0, FirstUnused(s.data.index));
        CleanupKeeps(s.deals, s.Limit(), DealsOf(s.log));
        CleanupEndsAll(s.data, 0, s.Limit());
        CleanupEndsAll(s.deals, NO_DEAL, s.Limit());
        assert DealsOf(s'.log) == [];
    }
    forall q | 0 <= q < |s.procs|
      ensures ProcessOk(s', s'.procs[q])
    {
      assert ProcessOk(s, s.procs[q]);
    }
  }

  lemma StepKeepsInv(s: State, step: Step)
    requires Inv(s) && Enabled(s, step) && Orderly(s, step)
    ensures Inv(Apply(s, step))
  {
    match step {
      case ReserveData(p, memLow) => ReserveDataKeeps(s, p, memLow);
      case ReserveIndex(p, memLow) => ReserveIndexKeeps(s, p, memLow);
      case CopyData(p) => CopyDataKeeps(s, p);
      case CopyIndex(p) => CopyIndexKeeps(s, p);
      case MaintainData(_) => MaintenanceKeeps(s, step);
      case MaintainDeals(_) => MaintenanceKeeps(s, step);
      case Truncate => MaintenanceKeeps(s, step);
      case Tick(_) =>
        LaterKeeps(s.deals, s.Limit(), Apply(s, step).Limit(), DealsOf(s.log));
        OnlyProcessesChange(s, step);
      case Begin(_, _, _) => OnlyProcessesChange(s, step);
      case Stamp(_) => OnlyProcessesChange(s, step);
      case BeginIndex(_) => OnlyProcessesChange(s, step);
    }
  }

  lemma OnlyProcessesChange(s: State, step: Step)
    requires Inv(s) && Enabled(s, step)
    requires step.Tick? || step.Begin? || step.Stamp? || step.BeginIndex?
    ensures ProcessesOk(Apply(s, step))
  {
    var s' := Apply(s, step);
    forall q | 0 <= q < |s.procs|
      ensures ProcessOk(s', s'.procs[q])
    {
      assert ProcessOk(s, s.procs[q]);
    }
  }

  // ---------------------------------------------------------------- runs

  ghost predicate IsInitial(s: State) {
    exists now: nat, processes: nat, pages: nat, max: nat, dataPages: nat, dataMax: nat ::
      EXPIRES <= now && s == Initial(now, processes, pages, max, dataPages, dataMax)
  }

  lemma StartsInInv(s: State)
    requires IsInitial(s)
    ensures Inv(s)
  {
    var now: nat, processes: nat, pages: nat, max: nat, dataPages: nat, dataMax: nat :|
      EXPIRES <= now && s == Initial(now, processes, pages, max, dataPages, dataMax);
    InitialKeeps(now, processes, pages, max, dataPages, dataMax);
  }

  /** A run: states linked by enabled, orderly steps, from an empty database. */
  ghost predicate Run(states: seq<State>, steps: seq<Step>) {
    && |states| == |steps| + 1
    && IsInitial(states[0])
    && (forall i :: 0 <= i < |steps| ==> Linked(states[i], steps[i], states[i + 1]))
  }

  ghost predicate Linked(s: State, step: Step, s': State) {
    Enabled(s, step) && Orderly(s, step) && (Shape(s.data) && Shape(s.deals) ==> s' == Apply(s, step))
  }

  lemma {:induction false} RunKeepsInv(states: seq<State>, steps: seq<Step>, i: nat)
    requires Run(states, steps) && i < |states|
    ensures Inv(states[i])
  {
    if i == 0 {
      StartsInInv(states[0]);
    } else {
      RunKeepsInv(states, steps, i - 1);
      assert Linked(states[i - 1], steps[i - 1], states[i]);
      StepKeepsInv(states[i - 1], steps[i - 1]);
    }
  }

  ghost predicate Reachable(s: State) {
    exists states, steps :: Run(states, steps) && states[|states| - 1] == s
  }

  lemma StartIsReachable(s: State)
    requires IsInitial(s)
    ensures Reachable(s)
  {
    assert Run([s], []);
    assert [s][|[s]| - 1] == s;
  }

  /** A run goes on with any step that is enabled and in order. */
  lemma RunGoesOn(states: seq<State>, steps: seq<Step>, step: Step)
    requires Run(states, steps) && Enabled(states[|steps|], step) && Orderly(states[|steps|], step)
    ensures Inv(states[|steps|]) && Run(states + [Apply(states[|steps|], step)], steps + [step])
  {
    RunKeepsInv(states, steps, |steps|);
    var states', steps' := states + [Apply(states[|steps|], step)], steps + [step];
    forall i | 0 <= i < |steps'|
      ensures Linked(states'[i], steps'[i], states'[i + 1])
    {
      if i < |steps| {
        assert Linked(states[i], steps[i], states[i + 1]);
      }
    }
  }

  lemma EndsReachable(states: seq<State>, steps: seq<Step>)
    requires Run(states, steps)
    ensures Reachable(states[|states| - 1])
  {
  }

  lemma NextIsReachable(s: State, step: Step)
    requires Reachable(s) && Enabled(s, step) && Orderly(s, step)
    ensures Inv(s) && Reachable(Apply(s, step))
  {
    var states, steps :| Run(states, steps) && states[|states| - 1] == s;
    RunGoesOn(states, steps, step);
    EndsReachable(states + [Apply(s, step)], steps + [step]);
  }

  /** In every reachable state of every run a search finds exactly the live deals of the log: all
      deals added since the last truncation whose day has not passed by the clock or by the
      watermark, each as often as it was added, and nothing else. */
  lemma EverySearchRefinesTheLog(states: seq<State>, steps: seq<Step>, i: nat)
    requires Run(states, steps) && i < |states|
    ensures Refines(states[i].deals, states[i].now, states[i].watermark, DealsOf(states[i].log))
  {
    RunKeepsInv(states, steps, i);
    ScanRefinesLog(states[i].deals, states[i].now, states[i].watermark, DealsOf(states[i].log));
  }

  /** The same for one deal, in numbers: it is found as often as it was added, while its timestamp plus
      86400 seconds lies ahead of clock and watermark, and never after. */
  lemma FoundAsOftenAsAdded(states: seq<State>, steps: seq<Step>, i: nat, d: DealInfo)
    requires Run(states, steps) && i < |states|
    ensures var s := states[i];
            multiset(Scan(s.deals, s.now, s.watermark))[d]
            == if d.timestamp + 86400 > s.now && d.timestamp + 86400 > s.watermark then multiset(DealsOf(s.log))[d] else 0
  {
    EverySearchRefinesTheLog(states, steps, i);
    FilterCount(DealsOf(states[i].log), e => Live(e, Max(states[i].now, states[i].watermark)), d);
  }
}
