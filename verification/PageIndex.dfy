/** The shared page index of one table: which entry an insertion uses, which entries a scan
    visits, which entries maintenance and cleanup release. These are the specifications that the
    methods of `SharedTable` are proved against. */
module PageIndex {
  import opened Base

  const REMOVE_AT_ONCE: nat := 5
  const REMOVE_DELAY: nat := 60
  const CHECK_INTERVAL: nat := 5

  /** `name` is the index that the stored page name ends with; None is the zeroed name. */
  datatype Entry = Entry(expireAt: nat, available: nat, name: Option<nat>)

  predicate Used(e: Entry) {
    e.expireAt > 0
  }

  /** Position of the first unused entry, or the length of the index. */
  function FirstUnused(index: seq<Entry>): (u: nat)
    ensures u <= |index|
    ensures forall i :: 0 <= i < u ==> Used(index[i])
    ensures u < |index| ==> !Used(index[u])
  {
    if index == [] || !Used(index[0]) then 0
    else
      var u := 1 + FirstUnused(index[1..]);
      assert forall i :: 1 <= i < u ==> index[i] == index[1..][i - 1];
      u
  }

  /** Used entries come first, unused entries after them. */
  predicate PrefixUsed(index: seq<Entry>) {
    forall i, j :: 0 <= i < j < |index| && Used(index[j]) ==> Used(index[i])
  }

  /** Every used entry carries the name of the page at its own position. */
  predicate Named(index: seq<Entry>) {
    forall i :: 0 <= i < |index| && Used(index[i]) ==> index[i].name == Some(i)
  }

  // ---------------------------------------------------------------- insertion

  /** The search for room stops at an expired page, a page with room, or an unused entry. */
  predicate Stops(e: Entry, t: nat, n: nat) {
    !Used(e) || e.expireAt < t || n <= e.available
  }

  function Pick(index: seq<Entry>, t: nat, n: nat): (i: nat)
    ensures i <= |index|
    ensures forall j :: 0 <= j < i ==> !Stops(index[j], t, n)
    ensures i < |index| ==> Stops(index[i], t, n)
  {
    if index == [] || Stops(index[0], t, n) then 0
    else
      var i := 1 + Pick(index[1..], t, n);
      assert forall j :: 1 <= j < i ==> index[j] == index[1..][j - 1];
      i
  }

  lemma PickIs(index: seq<Entry>, t: nat, n: nat, i: nat)
    requires i <= |index| && (forall j :: 0 <= j < i ==> !Stops(index[j], t, n))
    requires i < |index| ==> Stops(index[i], t, n)
    ensures Pick(index, t, n) == i
  {
    var p := Pick(index, t, n);
    assert !(p < i) && !(i < p);
  }

  /** `i` is the first of the used entries that expire earliest. */
  predicate IsOldest(index: seq<Entry>, i: nat) {
    && i < |index|
    && Used(index[i])
    && (forall j :: 0 <= j < |index| && Used(index[j]) ==> index[i].expireAt <= index[j].expireAt)
    && (forall j :: 0 <= j < i && Used(index[j]) ==> index[i].expireAt < index[j].expireAt)
  }

  /** The first oldest used entry; 0 when nothing is used. */
  function Oldest(index: seq<Entry>): (i: nat)
    ensures (exists j :: 0 <= j < |index| && Used(index[j])) ==> IsOldest(index, i)
    ensures (forall j :: 0 <= j < |index| ==> !Used(index[j])) ==> i == 0
  {
    if index == [] then 0
    else
      var front, last := index[..|index| - 1], |index| - 1;
      var i := Oldest(front);
      assert forall j :: 0 <= j < last ==> front[j] == index[j];
      if Used(index[last]) && (i >= last || !Used(index[i]) || index[last].expireAt < index[i].expireAt)
      then last else i
  }

  datatype Kind = Expired | EvictOldest | New | Current

  /** What an insertion does to the index: the page and first slot it got, the index afterwards,
      and the value the shared watermark must be raised to (0 when it is left alone). */
  datatype Grant =
    | Grant(kind: Kind, page: nat, start: nat, index: seq<Entry>, watermark: nat)
    | NoSpace

  function ChosenKind(index: seq<Entry>, t: nat, n: nat, memLow: bool): Kind
    requires Pick(index, t, n) < |index|
  {
    var e := index[Pick(index, t, n)];
    if !Used(e) then (if memLow then EvictOldest else New)
    else if e.expireAt < t then Expired
    else Current
  }

  function ChosenPage(index: seq<Entry>, t: nat, n: nat, memLow: bool): (p: nat)
    requires Pick(index, t, n) < |index|
    ensures p < |index|
  {
    var i := Pick(index, t, n);
    if ChosenKind(index, t, n, memLow) == EvictOldest
    then
      assert forall j :: 0 <= j < i ==> index[..i][j] == index[j];
      Oldest(index[..i])
    else i
  }

  /** The chosen entry before the reservation: emptied unless it is current. */
  function Prepared(e: Entry, kind: Kind, page: nat, max: nat): Entry {
    match kind
    case New => Entry(0, max, Some(page))
    case Expired => Entry(0, max, e.name)
    case EvictOldest => Entry(0, max, e.name)
    case Current => e
  }

  /** Room for `n` elements, requested at time `t` with lifetime `life`. */
  function Reserve(index: seq<Entry>, max: nat, t: nat, life: nat, n: nat, memLow: bool): (r: Grant)
    requires n <= max
    requires forall i :: 0 <= i < |index| && Used(index[i]) ==> index[i].available <= max
    ensures r.Grant? ==> |r.index| == |index| && r.page < |index|
  {
    if Pick(index, t, n) == |index| then NoSpace
    else
      var kind := ChosenKind(index, t, n, memLow);
      var page := ChosenPage(index, t, n, memLow);
      var e := Prepared(index[page], kind, page, max);
      Grant(kind, page, max - e.available,
            index[page := Entry(Max(e.expireAt, t + life), e.available - n, e.name)],
            if kind == EvictOldest then index[page].expireAt else 0)
  }

  // ---------------------------------------------------------------- scan, cleanup, maintenance

  predicate Alive(e: Entry, now: nat, watermark: nat) {
    e.expireAt > now && e.expireAt > watermark
  }

  /** Positions a scan visits, in order: those alive before the first unused entry. */
  function ScanList(index: seq<Entry>, now: nat, watermark: nat): seq<nat> {
    AliveUpTo(index, FirstUnused(index), now, watermark)
  }

  function AliveUpTo(index: seq<Entry>, u: nat, now: nat, watermark: nat): (r: seq<nat>)
    requires u <= |index|
    ensures forall a :: 0 <= a < |r| ==> r[a] < u
  {
    if u == 0 then []
    else AliveUpTo(index, u - 1, now, watermark)
         + (if Alive(index[u - 1], now, watermark) then [u - 1] else [])
  }

  predicate Increasing(r: seq<nat>) {
    forall a, b :: 0 <= a < b < |r| ==> r[a] < r[b]
  }

  lemma {:induction false} AliveUpToIs(index: seq<Entry>, u: nat, now: nat, watermark: nat)
    requires u <= |index|
    ensures forall i :: i in AliveUpTo(index, u, now, watermark) <==> 0 <= i < u && Alive(index[i], now, watermark)
    ensures Increasing(AliveUpTo(index, u, now, watermark))
  {
    if u == 0 {
    } else {
      AliveUpToIs(index, u - 1, now, watermark);
    }
  }

  /** `e` may not be released yet: its expiry, plus the delay, lies ahead of clock and watermark. */
  predicate Recent(e: Entry, t: nat, watermark: nat) {
    Used(e) && e.expireAt + REMOVE_DELAY > t && e.expireAt + REMOVE_DELAY > watermark
  }

  /** The last recent entry; 0 when there is none. */
  function LastRecent(index: seq<Entry>, t: nat, watermark: nat): (i: nat)
    ensures forall j :: i < j < |index| ==> !Recent(index[j], t, watermark)
    ensures i != 0 ==> i < |index| && Recent(index[i], t, watermark)
  {
    if index == [] then 0
    else
      var last := |index| - 1;
      if Recent(index[last], t, watermark) then last
      else
        var i := LastRecent(index[..last], t, watermark);
        assert forall j :: 0 <= j < last ==> index[..last][j] == index[j];
        i
  }

  /** How many entries stay in use after maintenance. */
  function Kept(index: seq<Entry>, t: nat, watermark: nat): (k: nat)
    ensures k <= FirstUnused(index)
  {
    var u := FirstUnused(index);
    if u == 0 then 0
    else
      var last := LastRecent(index[..u], t, watermark);
      Min(u, Max(last + 1, u - REMOVE_AT_ONCE))
  }

  function Blank(max: nat): Entry {
    Entry(0, max, None)
  }

  /** Clears the entries from `lo` up to, not including, `hi`. */
  function ClearRange(index: seq<Entry>, max: nat, lo: nat, hi: nat): seq<Entry>
    requires lo <= hi <= |index|
  {
    Overwrite(index, Blank(max), lo, hi)
  }

  function Maintain(index: seq<Entry>, max: nat, t: nat, watermark: nat): seq<Entry> {
    ClearRange(index, max, Kept(index, t, watermark), FirstUnused(index))
  }

  function Cleanup(index: seq<Entry>, max: nat): seq<Entry> {
    ClearRange(index, max, 0, FirstUnused(index))
  }

  // ---------------------------------------------------------------- laws

  /** The early stop of the scan loses nothing: it visits exactly the alive entries of the whole
      index, each once and in order. */
  lemma ScanVisitsEveryAliveEntry(index: seq<Entry>, now: nat, watermark: nat)
    requires PrefixUsed(index)
    ensures forall i :: i in ScanList(index, now, watermark)
                        <==> 0 <= i < |index| && index[i].expireAt > now && index[i].expireAt > watermark
    ensures Increasing(ScanList(index, now, watermark))
  {
    var u := FirstUnused(index);
    AliveUpToIs(index, u, now, watermark);
    assert forall i :: u < i < |index| ==> !Used(index[i]);
  }

  lemma CleanupLeavesNothingUsed(index: seq<Entry>, max: nat)
    requires PrefixUsed(index)
    ensures forall i :: 0 <= i < |index| ==> !Used(Cleanup(index, max)[i])
    ensures forall i :: 0 <= i < |index| ==>
              Cleanup(index, max)[i] == if index[i].expireAt > 0 then Entry(0, max, None) else index[i]
  {
    var u, r := FirstUnused(index), Cleanup(index, max);
    forall i | 0 <= i < |index|
      ensures r[i] == if index[i].expireAt > 0 then Entry(0, max, None) else index[i]
    {
      assert u < i ==> !Used(index[i]);
    }
  }

  /** Maintenance removes at most five entries, all at the tail of the used prefix, never the
      first one, and each of them at least 60 seconds past its expiry by the clock or by the
      watermark. Unless the limit of five was reached, nothing releasable is left at the tail. */
  lemma MaintenanceIsCautious(index: seq<Entry>, max: nat, t: nat, watermark: nat)
    requires PrefixUsed(index)
    ensures var r, u, k := Maintain(index, max, t, watermark), FirstUnused(index), Kept(index, t, watermark);
            && PrefixUsed(r)
            && FirstUnused(r) == k
            && u - k <= 5
            && (u > 0 ==> k > 0)
            && (forall i :: 0 <= i < k ==> r[i] == index[i])
            && (forall i :: k <= i < u ==> r[i] == Entry(0, max, None))
            && (forall i :: k <= i < u ==> index[i].expireAt + 60 <= t
                                           || index[i].expireAt + 60 <= watermark)
            && (k > 1 && u - k < 5 ==> index[k - 1].expireAt + 60 > t && index[k - 1].expireAt + 60 > watermark)
  {
    ClearTailIs(index, max, Kept(index, t, watermark));
    KeptIsCautious(index, t, watermark);
  }

  /** Clearing the tail of the used prefix leaves a shorter used prefix. */
  lemma ClearTailIs(index: seq<Entry>, max: nat, k: nat)
    requires PrefixUsed(index) && k <= FirstUnused(index)
    ensures var r := ClearRange(index, max, k, FirstUnused(index));
            && PrefixUsed(r) && FirstUnused(r) == k
            && (forall i :: 0 <= i < k ==> r[i] == index[i])
            && (forall i :: k <= i < FirstUnused(index) ==> r[i] == Entry(0, max, None))
  {
    var u := FirstUnused(index);
    var r := ClearRange(index, max, k, u);
    assert forall i :: u <= i < |index| ==> !Used(index[i]) && r[i] == index[i];
    assert forall i :: 0 <= i < k ==> Used(r[i]);
    assert k < |r| ==> !Used(r[k]);
  }

  lemma KeptIsCautious(index: seq<Entry>, t: nat, watermark: nat)
    ensures var u, k := FirstUnused(index), Kept(index, t, watermark);
            && u - k <= 5
            && (u > 0 ==> k > 0)
            && (forall i :: k <= i < u ==> index[i].expireAt + 60 <= t
                                           || index[i].expireAt + 60 <= watermark)
            && (k > 1 && u - k < 5 ==> index[k - 1].expireAt + 60 > t && index[k - 1].expireAt + 60 > watermark)
  {
    var u := FirstUnused(index);
    assert forall i :: 0 <= i < u ==> index[..u][i] == index[i];
  }

  /** The named-page invariant survives an insertion exactly when memory is not reported low on an
      empty index: that branch recycles entry 0 without ever writing its page name. */
  lemma ReservationKeepsNamesIff(index: seq<Entry>, max: nat, t: nat, life: nat, n: nat, memLow: bool)
    requires n <= max && t + life > 0 && index != []
    requires forall i :: 0 <= i < |index| && Used(index[i]) ==> index[i].available <= max
    requires Named(index)
    requires !Used(index[0]) ==> index[0].name == None
    ensures var r := Reserve(index, max, t, life, n, memLow);
            r.Grant? ==> (Named(r.index) <==> !(memLow && !Used(index[0])))
  {
    var r := Reserve(index, max, t, life, n, memLow);
    if r.Grant? {
      var i := Pick(index, t, n);
      assert forall j :: 0 <= j < i ==> index[..i][j] == index[j];
      assert forall j :: 0 <= j < i ==> Used(index[j]);
      if r.kind == EvictOldest && i > 0 {
        assert Used(index[..i][0]);
        assert IsOldest(index[..i], r.page);
      }
      assert Used(r.index[r.page]);
      assert forall j :: 0 <= j < |index| && j != r.page ==> r.index[j] == index[j];
      assert r.index[r.page].name == Prepared(index[r.page], r.kind, r.page, max).name;
    }
  }

  /** An insertion keeps the used prefix, and the entry it evicts expires no later than any other
      used entry. */
  lemma ReservationKeepsPrefix(index: seq<Entry>, max: nat, t: nat, life: nat, n: nat, memLow: bool)
    requires n <= max && t + life > 0
    requires forall i :: 0 <= i < |index| && Used(index[i]) ==> index[i].available <= max
    requires PrefixUsed(index)
    ensures var r := Reserve(index, max, t, life, n, memLow);
            r.Grant? ==>
              && PrefixUsed(r.index)
              && Used(r.index[r.page])
              && (r.kind == EvictOldest && Used(index[0]) ==> IsOldest(index, r.page))
  {
    var r := Reserve(index, max, t, life, n, memLow);
    if r.Grant? {
      var i := Pick(index, t, n);
      assert forall j :: 0 <= j < i ==> index[..i][j] == index[j];
      assert forall j :: 0 <= j < i ==> Used(index[j]);
      if r.kind == EvictOldest && Used(index[0]) {
        assert i > 0;
        assert Used(index[..i][0]);
        assert IsOldest(index[..i], r.page);
        assert forall j :: i < j < |index| ==> !Used(index[j]);
      }
    }
  }

  /** There is no room exactly if every page is in use, not expired, and has too few free slots. */
  lemma NoSpaceIff(index: seq<Entry>, max: nat, t: nat, life: nat, n: nat, memLow: bool)
    requires n <= max
    requires forall i :: 0 <= i < |index| && Used(index[i]) ==> index[i].available <= max
    ensures Reserve(index, max, t, life, n, memLow) == NoSpace
            <==> forall i :: 0 <= i < |index| ==> 0 < index[i].expireAt && t <= index[i].expireAt && index[i].available < n
  {
    var p := Pick(index, t, n);
    assert p < |index| ==> Stops(index[p], t, n);
  }

  /** Entry `i` decides: it is the first that is unused, expired or has `n` free slots. */
  predicate DecidedAt(index: seq<Entry>, t: nat, n: nat, i: nat) {
    && i < |index|
    && (forall j :: 0 <= j < i ==> 0 < index[j].expireAt && t <= index[j].expireAt && index[j].available < n)
    && (index[i].expireAt == 0 || index[i].expireAt < t || n <= index[i].available)
  }

  /** A page in use and not expired is continued behind what it holds; an expired one starts over; an
      unused one is named and starts. Nothing else changes, and the watermark stays. */
  lemma ReservationAt(index: seq<Entry>, max: nat, t: nat, life: nat, n: nat, memLow: bool, i: nat)
    requires n <= max && DecidedAt(index, t, n, i)
    requires forall j :: 0 <= j < |index| && Used(index[j]) ==> index[j].available <= max
    ensures var r, e := Reserve(index, max, t, life, n, memLow), index[i];
            && (0 < e.expireAt && t <= e.expireAt ==>
                  r == Grant(Current, i, max - e.available,
                             index[i := Entry(Max(e.expireAt, t + life), e.available - n, e.name)], 0))
            && (0 < e.expireAt < t ==>
                  r == Grant(Expired, i, 0, index[i := Entry(t + life, max - n, e.name)], 0))
            && (e.expireAt == 0 && !memLow ==>
                  r == Grant(New, i, 0, index[i := Entry(t + life, max - n, Some(i))], 0))
  {
    PickIs(index, t, n, i);
  }

  /** When memory is low, an unused page is not taken. Instead the one of the pages before it that
      expires first starts over, and the watermark rises to the expiry it had. */
  lemma EvictionAt(index: seq<Entry>, max: nat, t: nat, life: nat, n: nat, i: nat)
    requires n <= max && DecidedAt(index, t, n, i) && index[i].expireAt == 0 && 0 < i
    requires forall j :: 0 <= j < |index| && Used(index[j]) ==> index[j].available <= max
    ensures var r := Reserve(index, max, t, life, n, true);
            && r.Grant? && r.page < i
            && (forall j :: 0 <= j < i ==> index[r.page].expireAt <= index[j].expireAt)
            && (forall j :: 0 <= j < r.page ==> index[r.page].expireAt < index[j].expireAt)
            && r == Grant(EvictOldest, r.page, 0, index[r.page := Entry(t + life, max - n, index[r.page].name)],
                          index[r.page].expireAt)
  {
    PickIs(index, t, n, i);
    assert forall j :: 0 <= j < i ==> index[..i][j] == index[j];
    assert Used(index[..i][0]);
    assert IsOldest(index[..i], Oldest(index[..i]));
  }
}
