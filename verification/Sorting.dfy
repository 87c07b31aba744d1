/** Stands for the library's sort: any order among elements of equal rank would do. */
module Sorting {

  /** Smaller ranks first. */
  predicate Ascending<T(!new)>(s: seq<T>, rank: T -> int) {
    forall i, j :: 0 <= i < j < |s| ==> rank(s[i]) <= rank(s[j])
  }

  function Insert<T>(e: T, s: seq<T>, rank: T -> int): seq<T> {
    if s == [] || rank(e) <= rank(s[0]) then [e] + s else [s[0]] + Insert(e, s[1..], rank)
  }

  lemma {:induction false} InsertAdds<T>(e: T, s: seq<T>, rank: T -> int)
    ensures multiset(Insert(e, s, rank)) == multiset(s) + multiset{e}
  {
    if s == [] {
    } else {
      assert s == [s[0]] + s[1..];
      InsertAdds(e, s[1..], rank);
    }
  }

  lemma {:induction false} InsertKeepsOrder<T(!new)>(e: T, s: seq<T>, rank: T -> int)
    requires Ascending(s, rank)
    ensures Ascending(Insert(e, s, rank), rank)
  {
    if s == [] || rank(e) <= rank(s[0]) {
    } else {
      var rest := Insert(e, s[1..], rank);
      InsertKeepsOrder(e, s[1..], rank);
      InsertAdds(e, s[1..], rank);
      forall i | 0 <= i < |rest|
        ensures rank(s[0]) <= rank(rest[i])
      {
        assert rest[i] in multiset(rest);
        assert rest[i] == e || rest[i] in s[1..];
      }
    }
  }

  method Sort<T(!new)>(s: seq<T>, rank: T -> int) returns (r: seq<T>)
    ensures Ascending(r, rank) && multiset(r) == multiset(s)
  {
    r := [];
    var i := 0;
    while i < |s|
      invariant 0 <= i <= |s| && Ascending(r, rank) && multiset(r) == multiset(s[..i])
    {
      assert s[..i + 1] == s[..i] + [s[i]];
      InsertAdds(s[i], r, rank);
      InsertKeepsOrder(s[i], r, rank);
      r := Insert(s[i], r, rank);
      i := i + 1;
    }
    assert s[..i] == s;
  }
}
