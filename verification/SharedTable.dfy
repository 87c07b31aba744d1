/** The table object of one process. Its methods loop over the shared index under the table lock,
    as the program does, and are proved against the functions of `PageIndex`.

    The clock, low memory and the outcome of waiting for the lock are parameters. */
module SharedTable {
  import opened Base
  import opened PageIndex
  import opened Tables
  import opened DealTypes
  import opened DealTable
  import opened Locks

  /** Shared by all tables of one database. */
  class Context {
    var globalExpireAt: nat

    constructor ()
      ensures globalExpireAt == 0
    {
      globalExpireAt := 0;
    }

    method Raise(value: nat)
      modifies this
      ensures globalExpireAt == Max(old(globalExpireAt), value)
    {
      if globalExpireAt < value {
        globalExpireAt := value;
      }
    }
  }

  /** The part of the index page that all processes share besides the entries. */
  class PageInfo {
    var expirationCheck: nat

    constructor ()
      ensures expirationCheck == 0
    {
      expirationCheck := 0;
    }
  }

  datatype Outcome =
    | Ok(kind: Kind, page: nat, start: nat)
    | CantLock
    | RecordTooBig
    | NoSpaceToInsert

  /** A well-formed index whose expiry times fit their 32-bit fields. */
  ghost predicate WellFormed(index: seq<Entry>, max: nat) {
    && (forall i :: 0 <= i < |index| && Used(index[i]) ==> index[i].available <= max)
    && (forall i :: 0 <= i < |index| ==> index[i].expireAt < UINT32_MAX)
    && PrefixUsed(index)
    && Named(index)
  }

  /** The pages unlinked are the used ones that are not used any more, from the last one down. */
  ghost predicate Unlinks(unlinked: seq<nat>, before: seq<Entry>, after: seq<Entry>) {
    var u, k := FirstUnused(before), FirstUnused(after);
    |unlinked| == u - k && forall j :: 0 <= j < |unlinked| ==> unlinked[j] == u - 1 - j
  }

  /** There is no space exactly if every page is in use, not expired, and has too few free slots. */
  predicate NothingFits(r: Outcome, index: seq<Entry>, t: nat, n: nat) {
    r.NoSpaceToInsert? <==>
      forall i :: 0 <= i < |index| ==> 0 < index[i].expireAt && t <= index[i].expireAt && index[i].available < n
  }

  class SharedTable {
    const max: nat
    const recordExpire: nat
    const index: array<Entry>
    const context: Context
    const info: PageInfo
    const lock: CriticalSection
    var timeToCheck: nat

    /** The first process to open the table finds zeroed shared memory. */
    constructor (tableMaxPages: nat, max: nat, recordExpire: nat, context: Context, lock: CriticalSection)
      requires !lock.unlockNeeded
      ensures Valid() && fresh(index) && fresh(info)
      ensures this.context == context && this.lock == lock
      ensures this.max == max && this.recordExpire == recordExpire
      ensures index.Length == tableMaxPages && forall i :: 0 <= i < tableMaxPages ==> !Used(index[i])
    {
      this.max, this.recordExpire, this.context, this.lock := max, recordExpire, context, lock;
      index := new Entry[tableMaxPages](i => Entry(0, 0, None));
      info := new PageInfo();
      timeToCheck := 0;
    }

    /** Another process opens the same table. */
    constructor Open(other: SharedTable, lock: CriticalSection)
      requires other.Valid() && !lock.unlockNeeded
      ensures Valid() && SharesWith(other) && this.lock == lock && timeToCheck == 0
    {
      this.max, this.recordExpire, this.context, this.lock := other.max, other.recordExpire, other.context, lock;
      index, info := other.index, other.info;
      timeToCheck := 0;
    }

    predicate SharesWith(other: SharedTable) {
      index == other.index && info == other.info && context == other.context && max == other.max
    }

    /** The index is well-formed and nobody using this object holds the lock. */
    ghost predicate Valid()
      reads this, index, lock
    {
      WellFormed(index[..], max) && !lock.unlockNeeded
    }

    /** Waiting for the lock fails: it times out, or the semaphore stays taken. */
    ghost predicate Blocked(timesOut: bool)
      reads lock.semaphore
    {
      timesOut || lock.semaphore.value == 0
    }

    // -------------------------------------------------------------- loops over the index

    /** The search for room: where it stops, and the first oldest used entry on the way. */
    method FindRoom(t: nat, n: nat) returns (idx: nat, oldest: nat)
      requires forall i :: 0 <= i < index.Length ==> index[i].expireAt < UINT32_MAX
      ensures idx == Pick(index[..], t, n)
      ensures idx < index.Length && !Used(index[idx]) ==> oldest == Oldest(index[..idx])
    {
      var expireMin := UINT32_MAX;
      idx, oldest := 0, 0;
      while idx < index.Length
        invariant 0 <= idx <= index.Length
        invariant forall j :: 0 <= j < idx ==> Used(index[j]) && !Stops(index[j], t, n)
        invariant idx == 0 ==> oldest == 0 && expireMin == UINT32_MAX
        invariant idx > 0 ==> IsOldest(index[..idx], oldest) && expireMin == index[oldest].expireAt
      {
        var record := index[idx];
        assert forall j :: 0 <= j < idx ==> index[..idx + 1][j] == index[..idx][j];
        if record.expireAt > 0 && expireMin > record.expireAt {
          expireMin := record.expireAt;
          oldest := idx;
        }
        if record.expireAt > 0 && record.expireAt < t {
          break;
        }
        if record.expireAt > 0 && record.available >= n {
          break;
        }
        if record.expireAt == 0 {
          break;
        }
        idx := idx + 1;
      }
      PickIs(index[..], t, n, idx);
      if idx < index.Length && !Used(index[idx]) {
        OldestIs(index[..idx], oldest);
      }
    }

    /** The entries a scan visits. */
    method CollectAlive(now: nat) returns (list: seq<nat>)
      ensures list == ScanList(index[..], now, context.globalExpireAt)
    {
      var idx := 0;
      list := [];
      while idx < index.Length
        invariant 0 <= idx <= index.Length
        invariant forall j :: 0 <= j < idx ==> Used(index[j])
        invariant list == AliveUpTo(index[..], idx, now, context.globalExpireAt)
      {
        if index[idx].expireAt == 0 {
          break;
        }
        if index[idx].expireAt > now && index[idx].expireAt > context.globalExpireAt {
          list := list + [idx];
        }
        idx := idx + 1;
      }
      FirstUnusedIs(index[..], idx);
    }

    /** The first maintenance loop: end of the used prefix and last recent entry in it. */
    method FindReleasable(t: nat) returns (idx: nat, last: nat)
      ensures idx == FirstUnused(index[..])
      ensures last == LastRecent(index[..idx], t, context.globalExpireAt)
    {
      idx, last := 0, 0;
      while idx < index.Length
        invariant 0 <= idx <= index.Length
        invariant forall j :: 0 <= j < idx ==> Used(index[j])
        invariant last == LastRecent(index[..idx], t, context.globalExpireAt)
      {
        var record := index[idx];
        if record.expireAt > 0
           && record.expireAt + REMOVE_DELAY > t
           && record.expireAt + REMOVE_DELAY > context.globalExpireAt
        {
          last := idx;
        }
        if record.expireAt == 0 {
          break;
        }
        assert index[..idx + 1][..idx] == index[..idx];
        idx := idx + 1;
      }
      FirstUnusedIs(index[..], idx);
    }

    /** The second maintenance loop: from the end of the used prefix down to the last recent entry,
        but at most five entries. Returns the pages to unlink, in the order of unlinking. */
    method ClearDown(u: nat, last: nat) returns (unlinked: seq<nat>)
      requires last < u <= index.Length
      modifies index
      ensures var lo := Max(last + 1, u - REMOVE_AT_ONCE);
              && index[..] == ClearRange(old(index[..]), max, lo, u)
              && |unlinked| == u - lo && forall j :: 0 <= j < |unlinked| ==> unlinked[j] == u - 1 - j
    {
      ghost var was, lo := index[..], u;
      var idx, cleared := u - 1, 0;
      unlinked := [];
      assert index[..] == Overwrite(was, Blank(max), u, u);
      while last < idx
        invariant lo == idx + 1 <= u && cleared == u - lo == |unlinked| < REMOVE_AT_ONCE && last <= idx
        invariant index[..] == Overwrite(was, Blank(max), lo, u)
        invariant forall j :: 0 <= j < |unlinked| ==> unlinked[j] == u - 1 - j
      {
        unlinked := unlinked + [idx];
        OverwriteOneMore(was, Blank(max), lo, u);
        index[idx] := Blank(max);
        lo := idx;
        cleared := cleared + 1;
        if REMOVE_AT_ONCE <= cleared {
          break;
        }
        idx := idx - 1;
      }
    }

    /** What maintenance does under the lock. The first page, once used, is never released. */
    method ReleaseTail(t: nat) returns (unlinked: seq<nat>)
      requires WellFormed(index[..], max)
      modifies index
      ensures index[..] == Maintain(old(index[..]), max, t, context.globalExpireAt)
      ensures Unlinks(unlinked, old(index[..]), index[..])
      ensures WellFormed(index[..], max)
      ensures index.Length > 0 && Used(old(index[0])) ==> Used(index[0])
    {
      MaintainedIsWellFormed(index[..], max, t, context.globalExpireAt);
      unlinked := ClearTail(t);
    }

    method ClearTail(t: nat) returns (unlinked: seq<nat>)
      modifies index
      ensures index[..] == Maintain(old(index[..]), max, t, context.globalExpireAt)
      ensures var u, k := FirstUnused(old(index[..])), Kept(old(index[..]), t, context.globalExpireAt);
              |unlinked| == u - k && forall j :: 0 <= j < |unlinked| ==> unlinked[j] == u - 1 - j
    {
      var idx, last := FindReleasable(t);
      unlinked := [];
      if idx > 0 {
        unlinked := ClearDown(idx, last);
      } else {
        assert index[..] == ClearRange(index[..], max, 0, 0);
      }
    }

    /** Clears the used prefix. Returns the pages to unlink. */
    method ClearAll() returns (unlinked: seq<nat>)
      modifies index
      ensures index[..] == PageIndex.Cleanup(old(index[..]), max)
      ensures |unlinked| == FirstUnused(old(index[..]))
      ensures forall j :: 0 <= j < |unlinked| ==> unlinked[j] == j
    {
      ghost var was := index[..];
      var idx := 0;
      unlinked := [];
      assert index[..] == Overwrite(was, Blank(max), 0, 0);
      while idx < index.Length
        invariant 0 <= idx == |unlinked| <= index.Length
        invariant forall j :: 0 <= j < idx ==> Used(was[j]) && unlinked[j] == j
        invariant index[..] == Overwrite(was, Blank(max), 0, idx)
      {
        assert index[idx] == index[..][idx] == was[idx];
        if index[idx].expireAt > 0 {
          unlinked := unlinked + [idx];
          OverwriteOneMore(was, Blank(max), 0, idx);
          index[idx] := Blank(max);
        } else {
          break;
        }
        idx := idx + 1;
      }
      assert idx < index.Length ==> index[..][idx] == was[idx];
      FirstUnusedIs(was, idx);
    }

    /** Takes `n` slots of entry `idx`, emptied first unless it is current. */
    method Fill(kind: Kind, idx: nat, n: nat, expireTime: nat) returns (start: nat)
      requires idx < index.Length && n <= max
      requires kind == Current ==> n <= index[idx].available <= max
      modifies index
      ensures var e := Prepared(old(index[idx]), kind, idx, max);
              && start == max - e.available
              && index[..] == old(index[..])[idx := Entry(Max(e.expireAt, expireTime), e.available - n, e.name)]
    {
      if kind == New {
        index[idx] := index[idx].(name := Some(idx));
      }
      if kind != Current {
        index[idx] := index[idx].(expireAt := 0, available := max);
      }
      start := max - index[idx].available;
      index[idx] := index[idx].(available := index[idx].available - n);
      if expireTime > index[idx].expireAt {
        index[idx] := index[idx].(expireAt := expireTime);
      }
    }

    /** The entry an insertion uses, and in which way; None if there is none. */
    method Choose(n: nat, t: nat, memLow: bool) returns (r: Option<(Kind, nat)>)
      requires forall i :: 0 <= i < index.Length ==> index[i].expireAt < UINT32_MAX
      ensures var i := Pick(index[..], t, n);
              r == if i == index.Length then None
                   else Some((ChosenKind(index[..], t, n, memLow), ChosenPage(index[..], t, n, memLow)))
    {
      var idx, oldest := FindRoom(t, n);
      if idx == index.Length {
        return None;
      }
      assert index[..][idx] == index[idx] && index[..][..idx] == index[..idx];
      var kind := if index[idx].expireAt == 0 then New else if index[idx].expireAt < t then Expired else Current;
      if kind == New && memLow {
        kind, idx := EvictOldest, oldest;
      }
      return Some((kind, idx));
    }

    method ReserveLocked(n: nat, life: nat, t: nat, memLow: bool) returns (r: Outcome)
      requires WellFormed(index[..], max) && n <= max
      requires 0 < t + life < UINT32_MAX
      requires memLow ==> index.Length > 0 && Used(index[0])
      modifies index, context
      ensures WellFormed(index[..], max)
      ensures var g := PageIndex.Reserve(old(index[..]), max, t, life, n, memLow);
              if g.NoSpace?
              then r == NoSpaceToInsert && index[..] == old(index[..])
                   && context.globalExpireAt == old(context.globalExpireAt)
              else r == Ok(g.kind, g.page, g.start) && index[..] == g.index
                   && context.globalExpireAt == Max(old(context.globalExpireAt), g.watermark)
    {
      GrantIsWellFormed(index[..], max, t, life, n, memLow);
      ghost var g := PageIndex.Reserve(index[..], max, t, life, n, memLow);
      var choice := Choose(n, t, memLow);
      if choice.None? {
        return NoSpaceToInsert;
      }
      var (kind, idx) := choice.value;
      assert g.Grant? && g.kind == kind && g.page == idx && index[..][idx] == index[idx];
      if kind == EvictOldest {
        context.Raise(index[idx].expireAt);
      }
      var start := Fill(kind, idx, n, t + life);
      assert index[..] == g.index && start == g.start;
      return Ok(kind, idx, start);
    }

    // -------------------------------------------------------------- the operations

    /** Whether a pass at time `t` gets as far as the shared index. */
    ghost predicate Due(t: nat, timesOut: bool)
      reads this, info, lock.semaphore
    {
      timeToCheck <= t && !Blocked(timesOut) && info.expirationCheck <= t
    }

    /** Maintenance, at most once per interval: by this process (`timeToCheck`) and by all of them
        together (`expirationCheck`). */
    method ReleaseExpired(t: nat, timesOut: bool) returns (ok: bool, unlinked: seq<nat>)
      requires Valid()
      modifies this`timeToCheck, info, index, lock, lock.semaphore
      ensures Valid() && lock.semaphore.value == old(lock.semaphore.value)
      ensures ok <==> old(timeToCheck) > t || !old(Blocked(timesOut))
      ensures timeToCheck == if old(timeToCheck) > t then old(timeToCheck) else t + CHECK_INTERVAL
      ensures info.expirationCheck == if old(Due(t, timesOut)) then t + CHECK_INTERVAL else old(info.expirationCheck)
      ensures if old(Due(t, timesOut))
              then index[..] == Maintain(old(index[..]), max, t, context.globalExpireAt)
                   && Unlinks(unlinked, old(index[..]), index[..])
              else index[..] == old(index[..]) && unlinked == []
      ensures index.Length > 0 && Used(old(index[0])) ==> Used(index[0])
    {
      unlinked := [];
      if timeToCheck > t {
        return true, unlinked;
      }
      timeToCheck := t + CHECK_INTERVAL;
      ok := lock.Enter(timesOut);
      if !ok {
        return;
      }
      unlinked := CheckShared(t);
      lock.Exit();
    }

    /** The shared timer, and maintenance if it is due. */
    method CheckShared(t: nat) returns (unlinked: seq<nat>)
      requires WellFormed(index[..], max)
      modifies info, index
      ensures WellFormed(index[..], max)
      ensures info.expirationCheck == if old(info.expirationCheck) <= t then t + CHECK_INTERVAL else old(info.expirationCheck)
      ensures if old(info.expirationCheck) <= t
              then index[..] == Maintain(old(index[..]), max, t, context.globalExpireAt)
                   && Unlinks(unlinked, old(index[..]), index[..])
              else index[..] == old(index[..]) && unlinked == []
      ensures index.Length > 0 && Used(old(index[0])) ==> Used(index[0])
    {
      unlinked := [];
      if info.expirationCheck <= t {
        info.expirationCheck := t + CHECK_INTERVAL;
        unlinked := ReleaseTail(t);
      }
    }

    /** The lifetime a caller asked for, or the table's own. */
    function Lifetime(lifetime: nat): nat {
      if lifetime != 0 then lifetime else recordExpire
    }

    /** An insertion up to the copy: the grant that `PageIndex.Reserve` describes, or an error.
        Every way out, including the errors, leaves the lock as free as it was. */
    method AddRecord(count: nat, lifetime: nat, t: nat, memLow: bool, timesOut: bool) returns (r: Outcome)
      requires Valid()
      requires 0 < t + Lifetime(lifetime) < UINT32_MAX
      requires memLow ==> index.Length > 0 && Used(index[0])
      modifies index, context, lock, lock.semaphore
      ensures Valid() && lock.semaphore.value == old(lock.semaphore.value)
      ensures !r.Ok? ==> index[..] == old(index[..]) && context.globalExpireAt == old(context.globalExpireAt)
      ensures r.RecordTooBig? <==> count > max
      ensures count <= max ==>
                var g := PageIndex.Reserve(old(index[..]), max, t, Lifetime(lifetime), count, memLow);
                && (r.CantLock? <==> old(Blocked(timesOut)))
                && (r.NoSpaceToInsert? <==> !old(Blocked(timesOut)) && g.NoSpace?)
                && (r.Ok? ==>
                      && r == Ok(g.kind, g.page, g.start)
                      && index[..] == g.index
                      && context.globalExpireAt == Max(old(context.globalExpireAt), g.watermark))
      ensures count <= max && !old(Blocked(timesOut)) ==> NothingFits(r, old(index[..]), t, count)
      ensures forall i: nat ::
                (count <= max && !old(Blocked(timesOut)) && DecidedAt(old(index[..]), t, count, i)
                 && 0 < old(index[..])[i].expireAt && t <= old(index[..])[i].expireAt)
                ==>
                && r == Ok(Current, i, max - old(index[..])[i].available)
                && (forall j :: 0 <= j < index.Length && j != i ==> index[..][j] == old(index[..])[j])
                && context.globalExpireAt == old(context.globalExpireAt)
    {
      if count <= max {
        AddRecordOutcome(index[..], max, t, Lifetime(lifetime), count, memLow);
      }
      if count > max {
        return RecordTooBig;
      }
      var entered := lock.Enter(timesOut);
      if !entered {
        return CantLock;
      }
      r := ReserveLocked(count, Lifetime(lifetime), t, memLow);
      lock.Exit();
    }

    /** The locked part of a search. */
    method PagesToRead(now: nat, timesOut: bool) returns (ok: bool, list: seq<nat>)
      requires Valid()
      modifies lock, lock.semaphore
      ensures Valid() && lock.semaphore.value == old(lock.semaphore.value)
      ensures ok <==> !old(Blocked(timesOut))
      ensures ok ==> list == ScanList(index[..], now, context.globalExpireAt)
    {
      list := [];
      ok := lock.Enter(timesOut);
      if ok {
        list := CollectAlive(now);
        lock.Exit();
      }
    }

    method Cleanup(timesOut: bool) returns (ok: bool, unlinked: seq<nat>)
      requires Valid()
      modifies index, lock, lock.semaphore
      ensures Valid() && lock.semaphore.value == old(lock.semaphore.value)
      ensures ok <==> !old(Blocked(timesOut))
      ensures index[..] == if ok then PageIndex.Cleanup(old(index[..]), max) else old(index[..])
      ensures ok ==> forall i :: 0 <= i < index.Length ==> !Used(index[i])
    {
      unlinked := [];
      ok := lock.Enter(timesOut);
      if !ok {
        return;
      }
      CleanupLeavesNothingUsed(index[..], max);
      unlinked := ClearAll();
      assert forall i :: 0 <= i < index.Length ==> index[i] == index[..][i];
      lock.Exit();
    }
  }

  /** Two processes, or one process twice: once maintenance has been done, a pass that starts before
      the interval is over finds nothing to do and touches nothing. */
  method MaintainTwice(a: SharedTable, b: SharedTable, t: nat, later: nat, timesOut: bool)
    returns (ghost between: seq<Entry>, unlinked: seq<nat>)
    requires a.Valid() && b.Valid() && b.SharesWith(a) && (a.lock == b.lock <==> a == b)
    requires a.Due(t, false) && t <= later < t + 5
    modifies a`timeToCheck, b`timeToCheck, a.info, a.index, a.lock, a.lock.semaphore, b.lock, b.lock.semaphore
    ensures between == Maintain(old(a.index[..]), a.max, t, a.context.globalExpireAt)
    ensures a.index[..] == between && unlinked == []
    ensures a.info.expirationCheck == t + 5
  {
    var ok;
    ok, unlinked := a.ReleaseExpired(t, false);
    between := a.index[..];
    ok, unlinked := b.ReleaseExpired(later, timesOut);
  }

  // ---------------------------------------------------------------- pages

  /** The copy of an insertion, outside the lock, into the page it was granted. */
  method CopyRecords<E>(page: array<E>, start: nat, data: seq<E>)
    requires start + |data| <= page.Length
    modifies page
    ensures page[..] == old(page[..start]) + data + old(page[start + |data|..])
  {
    var i := 0;
    while i < |data|
      invariant 0 <= i <= |data|
      invariant forall x :: 0 <= x < page.Length ==>
                  page[x] == if start <= x < start + i then data[x - start] else old(page[x])
    {
      page[start + i] := data[i];
      i := i + 1;
    }
  }

  /** One search: the cutoff is fixed first, the pages to read are collected under the lock, their
      elements are read after it is released. */
  method Search(table: SharedTable, pages: seq<seq<DealInfo>>, ghost T: Table<DealInfo>,
                cutoffTime: nat, now: nat, timesOut: bool)
    returns (ok: bool, found: seq<DealInfo>)
    requires table.Valid() && Shape(T)
    requires T.index == table.index[..] && T.pages == pages && T.max == table.max
    modifies table.lock, table.lock.semaphore
    ensures table.Valid() && table.lock.semaphore.value == old(table.lock.semaphore.value)
    ensures ok <==> !old(table.Blocked(timesOut))
    ensures ok ==> found == ScanWith(T, now, table.context.globalExpireAt,
                                     Cutoff(cutoffTime, table.context.globalExpireAt))
  {
    found := [];
    var minTimestamp := Max(table.context.globalExpireAt, cutoffTime) - EXPIRES;
    var list;
    ok, list := table.PagesToRead(now, timesOut);
    if ok {
      ScanListReadable(T, now, table.context.globalExpireAt);
      found := ReadAll(table, pages, T, list, minTimestamp);
    }
  }

  /** Entry `i` is in use, names its own page and fits it. */
  ghost predicate Readable(T: Table<DealInfo>, i: nat)
    requires i < |T.index| == |T.pages|
  {
    Used(T.index[i]) && T.index[i].name == Some(i) && T.index[i].available <= T.max == |T.pages[i]|
  }

  ghost predicate AllReadable(T: Table<DealInfo>, list: seq<nat>) {
    |T.index| == |T.pages| && forall a :: 0 <= a < |list| ==> list[a] < |T.index| && Readable(T, list[a])
  }

  lemma VisitIs(T: Table<DealInfo>, i: nat, cutoff: int)
    requires i < |T.index| == |T.pages| && Readable(T, i)
    ensures Visit(T, i, cutoff)
            == Filter(T.pages[i][..T.max - T.index[i].available], d => PassesCutoff(d, cutoff))
  {
  }

  lemma VisitNext(T: Table<DealInfo>, list: seq<nat>, n: nat, cutoff: int)
    requires n < |list| && forall a :: 0 <= a < |list| ==> list[a] < |T.index|
    ensures VisitAll(T, list[..n + 1], cutoff) == VisitAll(T, list[..n], cutoff) + Visit(T, list[n], cutoff)
  {
    assert list[..n + 1] == list[..n] + [list[n]];
    VisitAppend(T, list[..n], list[n], cutoff);
  }

  method ReadAll(table: SharedTable, pages: seq<seq<DealInfo>>, ghost T: Table<DealInfo>,
                 list: seq<nat>, minTimestamp: int)
    returns (found: seq<DealInfo>)
    requires T.index == table.index[..] && T.pages == pages && T.max == table.max && |pages| == |T.index|
    requires AllReadable(T, list)
    ensures found == VisitAll(T, list, minTimestamp)
  {
    found := [];
    var n := 0;
    while n < |list|
      invariant 0 <= n <= |list|
      invariant found == VisitAll(T, list[..n], minTimestamp)
    {
      var i := list[n];
      assert table.index[i] == T.index[i];
      var visited := ReadPage(pages[i], table.max - table.index[i].available, minTimestamp);
      VisitIs(T, i, minTimestamp);
      found := found + visited;
      VisitNext(T, list, n, minTimestamp);
      n := n + 1;
    }
    assert list[..n] == list;
  }

  method ReadPage(elements: seq<DealInfo>, size: nat, minTimestamp: int) returns (found: seq<DealInfo>)
    requires size <= |elements|
    ensures found == Filter(elements[..size], d => PassesCutoff(d, minTimestamp))
  {
    found := [];
    var idx := 0;
    ghost var passes := d => PassesCutoff(d, minTimestamp);
    while idx < size
      invariant 0 <= idx <= size
      invariant found == Filter(elements[..idx], passes)
    {
      if !(elements[idx].timestamp <= minTimestamp) {
        found := found + [elements[idx]];
      }
      assert elements[..idx + 1] == elements[..idx] + [elements[idx]];
      FilterAppend(elements[..idx], [elements[idx]], passes);
      assert [elements[idx]][1..] == [];
      idx := idx + 1;
    }
  }

  // ---------------------------------------------------------------- the specifications are unique

  lemma FirstUnusedIs(index: seq<Entry>, u: nat)
    requires u <= |index| && (forall i :: 0 <= i < u ==> Used(index[i])) && (u < |index| ==> !Used(index[u]))
    ensures FirstUnused(index) == u
  {
    var f := FirstUnused(index);
    assert !(f < u) && !(u < f);
  }

  lemma OldestIs(index: seq<Entry>, i: nat)
    requires if exists j :: 0 <= j < |index| && Used(index[j]) then IsOldest(index, i) else i == 0
    ensures Oldest(index) == i
  {
    var o := Oldest(index);
    if exists j :: 0 <= j < |index| && Used(index[j]) {
      assert IsOldest(index, o);
      assert !(o < i) && !(i < o);
    }
  }

  lemma ScanListReadable(T: Table<DealInfo>, now: nat, watermark: nat)
    requires Shape(T)
    ensures AllReadable(T, ScanList(T.index, now, watermark))
  {
    var list := ScanList(T.index, now, watermark);
    AliveUpToIs(T.index, FirstUnused(T.index), now, watermark);
    assert forall a :: 0 <= a < |list| ==> list[a] in list;
  }

  /** What the grant says in terms of the index before: refusal, and the page that is continued. */
  lemma AddRecordOutcome(index: seq<Entry>, max: nat, t: nat, life: nat, n: nat, memLow: bool)
    requires WellFormed(index, max) && n <= max
    ensures var g := PageIndex.Reserve(index, max, t, life, n, memLow);
            && (g.NoSpace? <==>
                  forall i :: 0 <= i < |index| ==> 0 < index[i].expireAt && t <= index[i].expireAt && index[i].available < n)
            && (forall i: nat :: DecidedAt(index, t, n, i) && 0 < index[i].expireAt && t <= index[i].expireAt ==>
                  && g.Grant? && g.kind == Current && g.page == i && g.start == max - index[i].available && g.watermark == 0
                  && |g.index| == |index| && forall j :: 0 <= j < |index| && j != i ==> g.index[j] == index[j])
  {
    NoSpaceIff(index, max, t, life, n, memLow);
    forall i: nat | DecidedAt(index, t, n, i) && 0 < index[i].expireAt && t <= index[i].expireAt
      ensures var g := PageIndex.Reserve(index, max, t, life, n, memLow);
              && g.Grant? && g.kind == Current && g.page == i && g.start == max - index[i].available && g.watermark == 0
              && |g.index| == |index| && forall j :: 0 <= j < |index| && j != i ==> g.index[j] == index[j]
    {
      ReservationAt(index, max, t, life, n, memLow, i);
    }
  }

  lemma GrantIsWellFormed(index: seq<Entry>, max: nat, t: nat, life: nat, n: nat, memLow: bool)
    requires WellFormed(index, max) && n <= max && 0 < t + life < UINT32_MAX
    requires memLow ==> index != [] && Used(index[0])
    ensures var g := PageIndex.Reserve(index, max, t, life, n, memLow);
            g.Grant? ==> WellFormed(g.index, max) && (g.kind == Current ==> n <= index[g.page].available <= max)
  {
    var g := PageIndex.Reserve(index, max, t, life, n, memLow);
    if g.Grant? {
      ReservationKeepsPrefix(index, max, t, life, n, memLow);
      if g.kind != EvictOldest {
        assert g.page == Pick(index, t, n);
      }
      assert forall i :: 0 <= i < |index| && i != g.page ==> g.index[i] == index[i];
    }
  }

  lemma MaintainedIsWellFormed(index: seq<Entry>, max: nat, t: nat, watermark: nat)
    requires WellFormed(index, max)
    ensures var r := Maintain(index, max, t, watermark);
            WellFormed(r, max) && (|index| > 0 && Used(index[0]) ==> Used(r[0]))
            && FirstUnused(r) == Kept(index, t, watermark)
  {
    MaintenanceIsCautious(index, max, t, watermark);
  }
}
