/** Where the deals of the log come from: over every run, what was given to `addDeal`, when it was
    stamped, and which step put it there. */
module Provenance {
  import opened Base
  import opened DealTypes
  import opened DealTable
  import opened DealsSystem

  /** The deal is the one that was given, in everything a caller gives. */
  predicate AsGiven(d: DealInfo, info: DealInfo) {
    && d.origin == info.origin && d.destination == info.destination
    && d.destinationCountry == info.destinationCountry
    && d.departureDate == info.departureDate && d.returnDate == info.returnDate
    && d.price == info.price && d.stayDays == info.stayDays && d.direct == info.direct
    && d.departureDays == info.departureDays && d.returnDays == info.returnDays
    && d.overriden == info.overriden
  }

  /** Process `p` begins no insertion from step `b` + 1 up to, not including, step `i`. */
  predicate NoBegin(steps: seq<Step>, b: nat, i: nat, p: nat)
    requires i <= |steps|
  {
    forall x :: b < x < i ==> !(steps[x].Begin? && steps[x].p == p)
  }

  /** Step `b` begins the insertion that process `p` is in at state `i`. */
  predicate BeganAt(steps: seq<Step>, i: nat, p: nat, info: DealInfo, bytes: seq<bv8>, b: nat)
    requires i <= |steps|
  {
    b < i && steps[b] == Begin(p, info, bytes) && NoBegin(steps, b, i, p)
  }

  ghost predicate Began(steps: seq<Step>, i: nat, p: nat, info: DealInfo, bytes: seq<bv8>)
    requires i <= |steps|
  {
    exists b: nat :: BeganAt(steps, i, p, info, bytes, b)
  }

  /** Steps `b` and `c` begin that insertion and stamp its deal. */
  predicate StampedAt(states: seq<State>, steps: seq<Step>, i: nat, p: nat, a: Added, b: nat, c: nat)
    requires i <= |steps| < |states|
  {
    && b < c < i
    && steps[b].Begin? && steps[b].p == p && NoBegin(steps, b, i, p)
    && steps[c] == Stamp(p)
    && AsGiven(a.deal, steps[b].info) && a.bytes == steps[b].bytes
    && a.deal.timestamp == states[c].now
  }

  ghost predicate WasStamped(states: seq<State>, steps: seq<Step>, i: nat, p: nat, a: Added)
    requires i <= |steps| < |states|
  {
    exists b: nat, c: nat :: StampedAt(states, steps, i, p, a, b, c)
  }

  ghost predicate HasHistory(states: seq<State>, steps: seq<Step>, i: nat, p: nat)
    requires i <= |steps| < |states| && p < |states[i].procs|
  {
    match states[i].procs[p]
    case Idle => true
    case WantData(info, bytes, _) => Began(steps, i, p, info, bytes)
    case HoldData(info, bytes, _) => Began(steps, i, p, info, bytes)
    case Unstamped(info, bytes, _) => Began(steps, i, p, info, bytes)
    case Stamped(a) => WasStamped(states, steps, i, p, a)
    case WantIndex(a, _) => WasStamped(states, steps, i, p, a)
    case HoldIndex(a, _) => WasStamped(states, steps, i, p, a)
  }

  lemma StillBegan(steps: seq<Step>, i: nat, p: nat, info: DealInfo, bytes: seq<bv8>)
    requires i < |steps| && Began(steps, i, p, info, bytes) && !(steps[i].Begin? && steps[i].p == p)
    ensures Began(steps, i + 1, p, info, bytes)
  {
    var b: nat :| BeganAt(steps, i, p, info, bytes, b);
    assert BeganAt(steps, i + 1, p, info, bytes, b);
  }

  lemma StillStamped(states: seq<State>, steps: seq<Step>, i: nat, p: nat, a: Added)
    requires i < |steps| < |states| && WasStamped(states, steps, i, p, a) && !(steps[i].Begin? && steps[i].p == p)
    ensures WasStamped(states, steps, i + 1, p, a)
  {
    var b: nat, c: nat :| StampedAt(states, steps, i, p, a, b, c);
    assert StampedAt(states, steps, i + 1, p, a, b, c);
  }

  /** What the step does to process `p`, in terms of what it carries. */
  lemma ProcessMove(s: State, step: Step, p: nat)
    requires Inv(s) && Enabled(s, step) && Orderly(s, step) && p < |s.procs|
    ensures var s', q := Apply(s, step), s.procs[p];
            && |s'.procs| == |s.procs|
            && (step.Begin? && step.p == p ==> s'.procs[p] == WantData(step.info, step.bytes, s.now))
            && (!(step.Begin? && step.p == p) && s'.procs[p] != q && !s'.procs[p].Idle? ==> Follows(s, step, p, q, s'.procs[p]))
  {
  }

  /** The next phase of an insertion, with the same deal and bytes in hand. */
  predicate Follows(s: State, step: Step, p: nat, q: Process, q': Process) {
    match q'
    case HoldData(info, bytes, _) => q.WantData? && q.info == info && q.bytes == bytes
    case Unstamped(info, bytes, _) => q.HoldData? && q.info == info && q.bytes == bytes
    case Stamped(a) =>
      q.Unstamped? && step == Stamp(p) && a.bytes == q.bytes && AsGiven(a.deal, q.info) && a.deal.timestamp == s.now
    case WantIndex(a, _) => q == Stamped(a)
    case HoldIndex(a, _) => q.WantIndex? && q.added == a
    case _ => false
  }

  lemma {:induction false} ProcessHistory(states: seq<State>, steps: seq<Step>, i: nat, p: nat)
    requires Run(states, steps) && i < |states| && p < |states[i].procs|
    ensures HasHistory(states, steps, i, p)
  {
    if i == 0 {
    } else {
      var s, step := states[i - 1], steps[i - 1];
      RunKeepsInv(states, steps, i - 1);
      assert Linked(s, step, states[i]);
      SameProcesses(s, step);
      ProcessMove(s, step, p);
      ProcessHistory(states, steps, i - 1, p);
      HistoryGoesOn(states, steps, i - 1, p);
    }
  }

  lemma SameProcesses(s: State, step: Step)
    requires Inv(s) && Enabled(s, step) && Orderly(s, step)
    ensures |Apply(s, step).procs| == |s.procs|
  {
  }

  lemma HistoryGoesOn(states: seq<State>, steps: seq<Step>, i: nat, p: nat)
    requires i < |steps| < |states| && p < |states[i].procs| && p < |states[i + 1].procs|
    requires HasHistory(states, steps, i, p)
    requires var q, q', step := states[i].procs[p], states[i + 1].procs[p], steps[i];
             && (step.Begin? && step.p == p ==> q' == WantData(step.info, step.bytes, states[i].now))
             && (!(step.Begin? && step.p == p) && q' != q && !q'.Idle? ==> Follows(states[i], step, p, q, q'))
    ensures HasHistory(states, steps, i + 1, p)
  {
    var q, q', step := states[i].procs[p], states[i + 1].procs[p], steps[i];
    if step.Begin? && step.p == p {
      assert BeganAt(steps, i + 1, p, step.info, step.bytes, i);
    } else if !q'.Idle? {
      match q {
        case WantData(info, bytes, _) => StillBegan(steps, i, p, info, bytes);
        case HoldData(info, bytes, _) => StillBegan(steps, i, p, info, bytes);
        case Unstamped(info, bytes, _) =>
          StillBegan(steps, i, p, info, bytes);
          if q'.Stamped? {
            StampingNow(states, steps, i, p, info, bytes, q'.added);
          }
        case Stamped(a) => StillStamped(states, steps, i, p, a);
        case WantIndex(a, _) => StillStamped(states, steps, i, p, a);
        case HoldIndex(a, _) => StillStamped(states, steps, i, p, a);
        case Idle =>
      }
    }
  }

  lemma StampingNow(states: seq<State>, steps: seq<Step>, i: nat, p: nat, info: DealInfo, bytes: seq<bv8>, a: Added)
    requires i < |steps| < |states| && Began(steps, i, p, info, bytes) && steps[i] == Stamp(p)
    requires AsGiven(a.deal, info) && a.bytes == bytes && a.deal.timestamp == states[i].now
    ensures WasStamped(states, steps, i + 1, p, a)
  {
    var b: nat :| BeganAt(steps, i, p, info, bytes, b);
    assert StampedAt(states, steps, i + 1, p, a, b, i);
  }

  /** The entry was given to `addDeal` by process `p` at step `b`, stamped at step `c` and put into the
      log at step `e`, with no other insertion of `p` begun in between. */
  predicate Provenance(states: seq<State>, steps: seq<Step>, a: Added, p: nat, b: nat, c: nat, e: nat)
    requires |steps| < |states|
  {
    e < |steps| && StampedAt(states, steps, e, p, a, b, c) && steps[e] == CopyIndex(p)
  }

  ghost predicate HasProvenance(states: seq<State>, steps: seq<Step>, i: nat, j: nat)
    requires i <= |steps| < |states| && j < |states[i].log|
  {
    exists p: nat, b: nat, c: nat, e: nat ::
      Provenance(states, steps, states[i].log[j], p, b, c, e) && e < i && states[e].log == states[i].log[..j]
  }

  /** In every run, every deal of the log is one that somebody gave to `addDeal`, in origin,
      destination, country, dates, price, stay, weekdays and kind of flight, with the bytes given, and
      stamped with what the clock read at its stamp. It was put behind the deals that precede it in the
      log. */
  lemma {:induction false} EveryLoggedDealWasGiven(states: seq<State>, steps: seq<Step>, i: nat, j: nat)
    requires Run(states, steps) && i < |states| && j < |states[i].log|
    ensures HasProvenance(states, steps, i, j)
  {
    if i == 0 {
    } else {
      var s, step := states[i - 1], steps[i - 1];
      LogMovesInRun(states, steps, i - 1);
      if j < |s.log| {
        EveryLoggedDealWasGiven(states, steps, i - 1, j);
        OldEntry(states, steps, i - 1, j);
      } else {
        ProcessHistory(states, steps, i - 1, step.p);
        NewEntry(states, steps, i - 1);
      }
    }
  }

  lemma OldEntry(states: seq<State>, steps: seq<Step>, i: nat, j: nat)
    requires i < |steps| < |states| && j < |states[i].log| && HasProvenance(states, steps, i, j)
    requires |states[i].log| <= |states[i + 1].log| && states[i + 1].log[..|states[i].log|] == states[i].log
    ensures HasProvenance(states, steps, i + 1, j)
  {
    var old_, new_ := states[i].log, states[i + 1].log;
    assert new_[..|old_|][..j] == new_[..j] && new_[j] == new_[..|old_|][j];
    var p: nat, b: nat, c: nat, e: nat :|
      Provenance(states, steps, old_[j], p, b, c, e) && e < i && states[e].log == old_[..j];
    assert Provenance(states, steps, new_[j], p, b, c, e);
  }

  lemma NewEntry(states: seq<State>, steps: seq<Step>, i: nat)
    requires i < |steps| < |states| && steps[i].CopyIndex? && steps[i].p < |states[i].procs|
    requires states[i].procs[steps[i].p].HoldIndex? && HasHistory(states, steps, i, steps[i].p)
    requires states[i + 1].log == states[i].log + [states[i].procs[steps[i].p].added]
    ensures HasProvenance(states, steps, i + 1, |states[i].log|)
  {
    var p, j := steps[i].p, |states[i].log|;
    var a := states[i].procs[p].added;
    var b: nat, c: nat :| StampedAt(states, steps, i, p, a, b, c);
    assert states[i + 1].log[..j] == states[i].log && states[i + 1].log[j] == a;
    assert Provenance(states, steps, a, p, b, c, i);
  }

  /** Out of `Idle` a process gets only by beginning an insertion. */
  lemma {:induction false} BeginsInBetween(states: seq<State>, steps: seq<Step>, x: nat, y: nat, p: nat) returns (z: nat)
    requires Run(states, steps) && x < y < |states| && p < |states[x].procs| && states[x].procs[p].Idle?
    requires p < |states[y].procs| && !states[y].procs[p].Idle?
    ensures x <= z < y && steps[z].Begin? && steps[z].p == p
    decreases y - x
  {
    var s, step := states[y - 1], steps[y - 1];
    RunKeepsInv(states, steps, y - 1);
    assert Linked(s, step, states[y]);
    SameProcesses(s, step);
    ProcessMove(s, step, p);
    if step.Begin? && step.p == p {
      z := y - 1;
    } else {
      z := BeginsInBetween(states, steps, x, y - 1, p);
    }
  }

  /** No insertion puts two entries into the log. */
  lemma EachInsertionOnce(states: seq<State>, steps: seq<Step>, a: Added, a': Added,
                          p: nat, b: nat, c: nat, e: nat, p': nat, b': nat, c': nat, e': nat)
    requires Run(states, steps) && e < e'
    requires Provenance(states, steps, a, p, b, c, e) && Provenance(states, steps, a', p', b', c', e')
    ensures b != b'
  {
    RunKeepsInv(states, steps, e);
    assert Linked(states[e], steps[e], states[e + 1]);
    assert Linked(states[e'], steps[e'], states[e' + 1]);
    if p == p' {
      assert states[e + 1].procs[p].Idle?;
      assert states[e'].procs[p].HoldIndex?;
      assert e + 1 != e';
      var z := BeginsInBetween(states, steps, e + 1, e', p);
    }
  }

  lemma LogMovesInRun(states: seq<State>, steps: seq<Step>, i: nat)
    requires Run(states, steps) && i < |steps|
    ensures var s, s', step := states[i], states[i + 1], steps[i];
            || s'.log == s.log
            || s'.log == []
            || (step.CopyIndex? && step.p < |s.procs| && s.procs[step.p].HoldIndex?
                && s'.log == s.log + [s.procs[step.p].added])
  {
    RunKeepsInv(states, steps, i);
    assert Linked(states[i], steps[i], states[i + 1]);
    LogMoves(states[i], steps[i]);
  }

  lemma LogMoves(s: State, step: Step)
    requires Inv(s) && Enabled(s, step) && Orderly(s, step)
    ensures var s' := Apply(s, step);
            || s'.log == s.log
            || s'.log == []
            || (step.CopyIndex? && s'.log == s.log + [s.procs[step.p].added])
  {
  }

  /** What a search finds is, field by field, what somebody gave. */
  lemma EveryFoundDealWasGiven(states: seq<State>, steps: seq<Step>, i: nat, d: DealInfo)
    requires Run(states, steps) && i < |states|
    requires d in Scan(states[i].deals, states[i].now, states[i].watermark)
    ensures exists b: nat :: b < |steps| && steps[b].Begin? && AsGiven(d, steps[b].info)
  {
    var s := states[i];
    EverySearchRefinesTheLog(states, steps, i);
    var live := e => Live(e, s.Limit());
    assert d in multiset(Filter(DealsOf(s.log), live));
    FilterCount(DealsOf(s.log), live, d);
    assert d in DealsOf(s.log);
    var j :| 0 <= j < |s.log| && DealsOf(s.log)[j] == d;
    EveryLoggedDealWasGiven(states, steps, i, j);
    var p: nat, b: nat, c: nat, e: nat :|
      Provenance(states, steps, s.log[j], p, b, c, e) && e < i && states[e].log == s.log[..j];
  }
}
