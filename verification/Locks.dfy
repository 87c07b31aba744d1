/** The named semaphore that guards a table, and the objects through which processes take it. */
module Locks {

  // ---------------------------------------------------------------- the objects

  class Semaphore {
    var value: nat

    constructor ()
      ensures value == 1
    {
      value := 1;
    }
  }

  class CriticalSection {
    const semaphore: Semaphore
    var unlockNeeded: bool

    constructor (semaphore: Semaphore)
      ensures this.semaphore == semaphore && !unlockNeeded
    {
      this.semaphore := semaphore;
      unlockNeeded := false;
    }

    /** The semaphore as seen by this object alone. */
    ghost function View(): LockState
      reads this, semaphore
    {
      LockState(semaphore.value, [unlockNeeded])
    }

    /** Waits for the semaphore; `timesOut` tells that the wait ended without it. */
    method Enter(timesOut: bool) returns (entered: bool)
      modifies this, semaphore
      ensures entered <==> !timesOut && old(semaphore.value) > 0
      ensures entered ==> unlockNeeded && semaphore.value == old(semaphore.value) - 1
      ensures !entered ==> unlockNeeded == old(unlockNeeded) && semaphore.value == old(semaphore.value)
      ensures View() == After(old(View()), LockStep.Enter(0, timesOut))
    {
      if timesOut || semaphore.value == 0 {
        return false;
      }
      semaphore.value := semaphore.value - 1;
      unlockNeeded := true;
      return true;
    }

    /** Also what the guard object does when it goes out of scope. */
    method Exit()
      modifies this, semaphore
      ensures View() == After(old(View()), LockStep.Exit(0))
      ensures !unlockNeeded
      ensures semaphore.value == old(semaphore.value) + if old(unlockNeeded) then 1 else 0
    {
      if unlockNeeded {
        semaphore.value := semaphore.value + 1;
      }
      unlockNeeded := false;
    }
  }

  // ---------------------------------------------------------------- all processes together

  /** The semaphore's value and, per object, whether it still has to post. */
  datatype LockState = LockState(value: nat, held: seq<bool>)

  datatype LockStep =
    | Create
    | Enter(p: nat, timesOut: bool)
    | Exit(p: nat)
    | Destroy(p: nat)

  function After(s: LockState, step: LockStep): LockState {
    match step
    case Create => s.(held := s.held + [false])
    case Enter(p, timesOut) =>
      if p < |s.held| && !timesOut && s.value > 0
      then LockState(s.value - 1, s.held[p := true])
      else s
    case Exit(p) =>
      if p < |s.held| && s.held[p] then LockState(s.value + 1, s.held[p := false]) else s
    case Destroy(p) =>
      if p < |s.held| then LockState(if s.held[p] then s.value + 1 else s.value, s.held[..p] + s.held[p + 1..])
      else s
  }

  function Holders(held: seq<bool>): nat {
    if held == [] then 0 else (if held[0] then 1 else 0) + Holders(held[1..])
  }

  lemma {:induction false} HoldersAppend(a: seq<bool>, b: seq<bool>)
    ensures Holders(a + b) == Holders(a) + Holders(b)
  {
    if a == [] {
      assert a + b == b;
    } else {
      assert (a + b)[1..] == a[1..] + b;
      HoldersAppend(a[1..], b);
    }
  }

  lemma HoldersAt(held: seq<bool>, p: nat, b: bool)
    requires p < |held|
    ensures Holders(held) == Holders(held[..p]) + (if held[p] then 1 else 0) + Holders(held[p + 1..])
    ensures Holders(held[p := b]) == Holders(held[..p]) + (if b then 1 else 0) + Holders(held[p + 1..])
    ensures Holders(held[..p] + held[p + 1..]) == Holders(held[..p]) + Holders(held[p + 1..])
  {
    HoldersSplit(held, p);
    HoldersSplit(held[p := b], p);
    assert held[p := b][..p] == held[..p] && held[p := b][p + 1..] == held[p + 1..];
    HoldersAppend(held[..p], held[p + 1..]);
  }

  lemma HoldersSplit(held: seq<bool>, p: nat)
    requires p < |held|
    ensures Holders(held) == Holders(held[..p]) + (if held[p] then 1 else 0) + Holders(held[p + 1..])
  {
    assert held == held[..p] + ([held[p]] + held[p + 1..]);
    HoldersAppend(held[..p], [held[p]] + held[p + 1..]);
    HoldersAppend([held[p]], held[p + 1..]);
  }

  function Run(s: LockState, steps: seq<LockStep>): LockState
    decreases steps
  {
    if steps == [] then s else Run(After(s, steps[0]), steps[1..])
  }

  /** One token: it is either in the semaphore or with exactly one object. */
  predicate OneToken(s: LockState) {
    s.value + Holders(s.held) == 1
  }

  lemma StepKeepsToken(s: LockState, step: LockStep)
    requires OneToken(s)
    ensures OneToken(After(s, step))
  {
    match step {
      case Create => HoldersAppend(s.held, [false]);
      case Enter(p, _) =>
        if p < |s.held| {
          HoldersAt(s.held, p, true);
        }
      case Exit(p) =>
        if p < |s.held| {
          HoldersAt(s.held, p, false);
        }
      case Destroy(p) =>
        if p < |s.held| {
          HoldersAt(s.held, p, false);
        }
    }
  }

  lemma {:induction false} RunKeepsToken(s: LockState, steps: seq<LockStep>)
    requires OneToken(s)
    ensures OneToken(Run(s, steps))
    decreases steps
  {
    if steps == [] {
    } else {
      StepKeepsToken(s, steps[0]);
      RunKeepsToken(After(s, steps[0]), steps[1..]);
    }
  }

  /** Mutual exclusion: after any run of creations, entries, timed-out entries, exits, guards and
      destructions, starting with a fresh semaphore, at most one object holds the section, and
      while one does nobody can enter. */
  lemma MutualExclusion(steps: seq<LockStep>, p: nat, q: nat)
    requires var s := Run(LockState(1, []), steps);
             p < |s.held| && q < |s.held| && s.held[p]
    ensures var s := Run(LockState(1, []), steps);
            && (s.held[q] ==> p == q)
            && After(s, Enter(q, false)) == s
  {
    var s := Run(LockState(1, []), steps);
    RunKeepsToken(LockState(1, []), steps);
    HoldersSplit(s.held, p);
    if q < p {
      assert s.held[..p][q] == s.held[q];
      HoldersSplit(s.held[..p], q);
    } else if p < q {
      assert s.held[p + 1..][q - p - 1] == s.held[q];
      HoldersSplit(s.held[p + 1..], q - p - 1);
    }
  }

  /** An explicit exit followed by the guard's exit, or by the destructor, posts once. */
  lemma NoDoublePost(s: LockState, p: nat)
    requires p < |s.held|
    ensures After(After(s, Exit(p)), Exit(p)) == After(s, Exit(p))
    ensures After(After(s, Exit(p)), Destroy(p)).value == After(s, Exit(p)).value
    ensures After(s, Exit(p)).value == s.value + if s.held[p] then 1 else 0
  {
  }
}
