/** Small shared vocabulary: optional values, filtering, and counting elements of sequences. */
module Base {

  datatype Option<+T> = None | Some(value: T)

  const UINT32_MAX: nat := 0xFFFF_FFFF

  function Max(a: int, b: int): int {
    if a < b then b else a
  }

  function Min(a: int, b: int): int {
    if a < b then a else b
  }

  /** At most the first `limit` elements. */
  function Cut<T>(s: seq<T>, limit: nat): seq<T> {
    if |s| > limit then s[..limit] else s
  }

  /** The groups that elements fall into. */
  function Keys<T(==), K(==)>(s: seq<T>, key: T -> K): set<K> {
    set x | x in s :: key(x)
  }

  predicate NoRepeats<T(==)>(s: seq<T>) {
    forall i, j :: 0 <= i < j < |s| ==> s[i] != s[j]
  }

  /** Distinct elements of a set are no more than the set has. */
  lemma {:induction false} DistinctFit<T>(s: seq<T>, t: set<T>)
    requires NoRepeats(s) && forall x :: x in s ==> x in t
    ensures |s| <= |t|
    decreases s
  {
    if s == [] {
    } else {
      assert s[0] in s;
      forall x | x in s[1..]
        ensures x in t - {s[0]}
      {
        var i :| 0 <= i < |s[1..]| && s[1..][i] == x;
        assert s[i + 1] == x && x in s;
      }
      DistinctFit(s[1..], t - {s[0]});
    }
  }

  /** `s` with `v` at the positions from `lo` up to, not including, `hi`. */
  function Overwrite<T>(s: seq<T>, v: T, lo: nat, hi: nat): (r: seq<T>)
    requires lo <= hi <= |s|
    ensures |r| == |s|
    ensures forall i :: 0 <= i < |s| ==> r[i] == if lo <= i < hi then v else s[i]
  {
    s[..lo] + seq(hi - lo, i => v) + s[hi..]
  }

  /** One position more, at either end. */
  lemma OverwriteOneMore<T>(s: seq<T>, v: T, lo: nat, hi: nat)
    requires lo <= hi <= |s|
    ensures lo > 0 ==> Overwrite(s, v, lo - 1, hi) == Overwrite(s, v, lo, hi)[lo - 1 := v]
    ensures hi < |s| ==> Overwrite(s, v, lo, hi + 1) == Overwrite(s, v, lo, hi)[hi := v]
  {
  }

  /** The elements of `s` that satisfy `p`, in order. */
  function Filter<T(!new)>(s: seq<T>, p: T -> bool): seq<T> {
    if s == [] then []
    else (if p(s[0]) then [s[0]] else []) + Filter(s[1..], p)
  }

  lemma {:induction false} FilterCount<T(!new)>(s: seq<T>, p: T -> bool, v: T)
    ensures multiset(Filter(s, p))[v] == if p(v) then multiset(s)[v] else 0
  {
    if s == [] {
    } else {
      assert s == [s[0]] + s[1..];
      FilterCount(s[1..], p, v);
    }
  }

  lemma Associative<T>(a: seq<T>, b: seq<T>, c: seq<T>)
    ensures a + b + c == a + (b + c)
  {
  }

  lemma {:induction false} FilterAppend<T(!new)>(s: seq<T>, t: seq<T>, p: T -> bool)
    ensures Filter(s + t, p) == Filter(s, p) + Filter(t, p)
  {
    if s == [] {
      assert s + t == t;
    } else {
      assert (s + t)[1..] == s[1..] + t;
      FilterAppend(s[1..], t, p);
      var first := if p(s[0]) then [s[0]] else [];
      Associative(first, Filter(s[1..], p), Filter(t, p));
    }
  }

  /** Sequences in order, one after the other. */
  function Concat<T>(ss: seq<seq<T>>): seq<T> {
    if ss == [] then [] else ss[0] + Concat(ss[1..])
  }

  lemma {:induction false} ConcatAppend<T>(ss: seq<seq<T>>, tt: seq<seq<T>>)
    ensures Concat(ss + tt) == Concat(ss) + Concat(tt)
  {
    if ss == [] {
      assert ss + tt == tt;
    } else {
      assert (ss + tt)[1..] == ss[1..] + tt;
      ConcatAppend(ss[1..], tt);
      Associative(ss[0], Concat(ss[1..]), Concat(tt));
    }
  }

  lemma ConcatStep<T>(ss: seq<seq<T>>, i: nat)
    requires i < |ss|
    ensures Concat(ss[..i + 1]) == Concat(ss[..i]) + ss[i]
  {
    assert ss[..i + 1] == ss[..i] + [ss[i]];
    ConcatAppend(ss[..i], [ss[i]]);
    assert [ss[i]][1..] == [];
  }

  predicate Extends<T(==)>(prefixes: seq<seq<T>>, ss: seq<seq<T>>, i: nat)
    requires |prefixes| == |ss| + 1 && i < |ss|
  {
    prefixes[i + 1] == prefixes[i] + ss[i]
  }

  /** The prefixes start empty and grow by one of the sequences at a time. */
  predicate Grow<T(==)>(prefixes: seq<seq<T>>, ss: seq<seq<T>>) {
    && |prefixes| == |ss| + 1
    && prefixes[0] == []
    && forall i :: 0 <= i < |ss| ==> Extends(prefixes, ss, i)
  }

  lemma {:induction false} GrownPrefix<T>(prefixes: seq<seq<T>>, ss: seq<seq<T>>, u: nat)
    requires Grow(prefixes, ss) && u <= |ss|
    ensures prefixes[u] == Concat(ss[..u])
  {
    if u == 0 {
    } else {
      GrownPrefix(prefixes, ss, u - 1);
      ConcatStep(ss, u - 1);
      assert Extends(prefixes, ss, u - 1);
    }
  }

  /** How often `v` occurs in all the sequences together. */
  ghost function Occurrences<T>(ss: seq<seq<T>>, v: T): nat {
    if ss == [] then 0 else multiset(ss[0])[v] + Occurrences(ss[1..], v)
  }

  lemma {:induction false} OccurrencesConcat<T>(ss: seq<seq<T>>, v: T)
    ensures Occurrences(ss, v) == multiset(Concat(ss))[v]
  {
    if ss == [] {
    } else {
      OccurrencesConcat(ss[1..], v);
    }
  }

  lemma {:induction false} OccurrencesAppend<T>(ss: seq<seq<T>>, tt: seq<seq<T>>, v: T)
    ensures Occurrences(ss + tt, v) == Occurrences(ss, v) + Occurrences(tt, v)
  {
    if ss == [] {
      assert ss + tt == tt;
    } else {
      assert (ss + tt)[1..] == ss[1..] + tt;
      OccurrencesAppend(ss[1..], tt, v);
    }
  }

  lemma {:induction false} NoOccurrences<T>(ss: seq<seq<T>>, v: T)
    requires forall i :: 0 <= i < |ss| ==> ss[i] == []
    ensures Occurrences(ss, v) == 0
  {
    if ss == [] {
    } else {
      NoOccurrences(ss[1..], v);
    }
  }

  lemma OccurrencesTail<T>(ss: seq<seq<T>>, u: nat, v: T)
    requires u <= |ss| && forall i :: u <= i < |ss| ==> ss[i] == []
    ensures Occurrences(ss, v) == Occurrences(ss[..u], v)
  {
    assert ss == ss[..u] + ss[u..];
    OccurrencesAppend(ss[..u], ss[u..], v);
    NoOccurrences(ss[u..], v);
  }

  /** Changing one of the sequences changes the total by the change in that sequence. */
  lemma {:induction false} OccurrencesUpdate<T>(ss: seq<seq<T>>, i: nat, t: seq<T>, v: T)
    requires i < |ss|
    ensures Occurrences(ss[i := t], v) + multiset(ss[i])[v] == Occurrences(ss, v) + multiset(t)[v]
  {
    if i == 0 {
      assert ss[0 := t][1..] == ss[1..];
    } else {
      assert ss[i := t][1..] == ss[1..][i - 1 := t];
      OccurrencesUpdate(ss[1..], i - 1, t, v);
    }
  }

  lemma {:induction false} OccurrencesAgree<T>(ss: seq<seq<T>>, tt: seq<seq<T>>, v: T)
    requires |ss| == |tt|
    requires forall i :: 0 <= i < |ss| ==> multiset(ss[i])[v] == multiset(tt[i])[v]
    ensures Occurrences(ss, v) == Occurrences(tt, v)
  {
    if ss == [] {
    } else {
      forall i | 0 <= i < |ss[1..]|
        ensures multiset(ss[1..][i])[v] == multiset(tt[1..][i])[v]
      {
        assert ss[1..][i] == ss[i + 1] && tt[1..][i] == tt[i + 1];
      }
      OccurrencesAgree(ss[1..], tt[1..], v);
    }
  }
}
