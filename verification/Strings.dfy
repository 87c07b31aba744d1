/** Searching, splitting and joining strings, and decimal numbers. */
module Strings {
  import opened Base

  // ---------------------------------------------------------------- find

  predicate At(s: string, p: string, i: nat) {
    i + |p| <= |s| && s[i..i + |p|] == p
  }

  /** The first position of `p` in `s`. */
  function Find(s: string, p: string): (r: Option<nat>)
    ensures r.Some? ==> r.value + |p| <= |s|
  {
    if At(s, p, 0) then Some(0)
    else if s == "" then None
    else match Find(s[1..], p)
      case None => None
      case Some(i) => Some(i + 1)
  }

  /** `r` is the first position of `p` in `s`, or None if there is none. */
  ghost predicate IsFirst(s: string, p: string, r: Option<nat>) {
    match r
    case Some(i) => At(s, p, i) && forall j :: 0 <= j < i ==> !At(s, p, j)
    case None => forall j :: 0 <= j <= |s| ==> !At(s, p, j)
  }

  lemma SliceOfTail(s: string, i: nat, j: nat)
    requires 1 <= i <= j <= |s|
    ensures s[1..][i - 1..j - 1] == s[i..j]
  {
  }

  lemma AtShifts(s: string, p: string, j: nat)
    requires 1 <= j <= |s|
    ensures At(s, p, j) <==> At(s[1..], p, j - 1)
  {
    if j + |p| <= |s| {
      SliceOfTail(s, j, j + |p|);
    }
  }

  lemma {:induction false} FindsFirst(s: string, p: string)
    ensures IsFirst(s, p, Find(s, p))
  {
    if At(s, p, 0) || s == "" {
    } else {
      FindsFirst(s[1..], p);
      forall j | 1 <= j <= |s|
        ensures At(s, p, j) <==> At(s[1..], p, j - 1)
      {
        AtShifts(s, p, j);
      }
    }
  }

  lemma FindIs(s: string, p: string, i: nat)
    requires At(s, p, i) && forall j :: 0 <= j < i ==> !At(s, p, j)
    ensures Find(s, p) == Some(i)
  {
    FindsFirst(s, p);
    var r := Find(s, p);
    assert r.Some? && !(r.value < i) && !(i < r.value);
  }

  /** What was found stays found where it was, whatever is appended. */
  lemma FindInPrefix(s: string, t: string, p: string)
    requires Find(s, p).Some?
    ensures Find(s + t, p) == Find(s, p)
  {
    FindsFirst(s, p);
    var i := Find(s, p).value;
    assert (s + t)[i..i + |p|] == s[i..i + |p|];
    forall j | 0 <= j < i
      ensures !At(s + t, p, j)
    {
      assert !At(s, p, j);
      assert (s + t)[j..j + |p|] == s[j..j + |p|];
    }
    FindIs(s + t, p, i);
  }

  /** A delimiter is found right behind text that does not contain its first character. */
  lemma FindBehind(s: string, p: string, t: string)
    requires p != "" && p[0] !in s
    ensures Find(s + p + t, p) == Some(|s|)
  {
    var u := s + p + t;
    assert u[|s|..|s| + |p|] == p;
    forall j | 0 <= j < |s|
      ensures !At(u, p, j)
    {
      if j + |p| <= |u| {
        assert u[j..j + |p|][0] == s[j];
      }
    }
    FindIs(u, p, |s|);
  }

  lemma FindNowhere(s: string, p: string)
    requires p != "" && p[0] !in s
    ensures Find(s, p) == None
  {
    FindsFirst(s, p);
    forall j | 0 <= j <= |s|
      ensures !At(s, p, j)
    {
      if j + |p| <= |s| {
        assert s[j..j + |p|][0] == s[j];
      }
    }
  }

  // ---------------------------------------------------------------- split and join

  /** The pieces between delimiters; an empty last piece is dropped. */
  function Split(text: string, delimiter: string): seq<string>
    requires delimiter != ""
    decreases |text|
  {
    if text == "" then []
    else match Find(text, delimiter)
      case None => [text]
      case Some(p) => [text[..p]] + Split(text[p + |delimiter|..], delimiter)
  }

  method SplitString(text: string, delimiter: string) returns (result: seq<string>)
    requires delimiter != ""
    ensures result == Split(text, delimiter)
  {
    var rest := text;
    result := [];
    while |rest| > 0
      invariant result + Split(rest, delimiter) == Split(text, delimiter)
      decreases |rest|
    {
      var pos := Find(rest, delimiter);
      if pos.None? {
        result := result + [rest];
        return;
      }
      result := result + [rest[..pos.value]];
      rest := rest[pos.value + |delimiter|..];
    }
  }

  method ConcatString(msgs: seq<string>) returns (text: string)
    ensures text == Concat(msgs)
  {
    text := "";
    var i := 0;
    while i < |msgs|
      invariant 0 <= i <= |msgs| && text == Concat(msgs[..i])
    {
      assert msgs[..i + 1] == msgs[..i] + [msgs[i]];
      ConcatAppend(msgs[..i], [msgs[i]]);
      assert [msgs[i]][1..] == [];
      text := text + msgs[i];
      i := i + 1;
    }
    assert msgs[..i] == msgs;
  }

  function Join(pieces: seq<string>, delimiter: string): string {
    if pieces == [] then ""
    else if |pieces| == 1 then pieces[0]
    else pieces[0] + delimiter + Join(pieces[1..], delimiter)
  }

  /** Joining what was split gives the text back, up to one delimiter at its very end. */
  lemma {:induction false} JoinOfSplit(text: string, delimiter: string)
    requires delimiter != ""
    ensures var j := Join(Split(text, delimiter), delimiter);
            text == j || text == j + delimiter
    decreases |text|
  {
    if text == "" || Find(text, delimiter).None? {
    } else {
      var p := Find(text, delimiter).value;
      var first, rest := text[..p], text[p + |delimiter|..];
      JoinOfSplit(rest, delimiter);
      CutAtFound(text, delimiter);
      JoinOneMore(first, Split(rest, delimiter), delimiter);
      var j := Join(Split(rest, delimiter), delimiter);
      Associative(first + delimiter, j, delimiter);
    }
  }

  lemma CutAtFound(text: string, delimiter: string)
    requires Find(text, delimiter).Some?
    ensures var p := Find(text, delimiter).value;
            text == text[..p] + delimiter + text[p + |delimiter|..]
  {
    FindsFirst(text, delimiter);
    var p := Find(text, delimiter).value;
    CutInThree(text, p, p + |delimiter|);
  }

  lemma CutInThree(s: string, i: nat, j: nat)
    requires i <= j <= |s|
    ensures s == s[..i] + s[i..j] + s[j..]
  {
    assert s[..i] + s[i..j] == s[..j];
  }

  lemma JoinOneMore(first: string, pieces: seq<string>, delimiter: string)
    ensures Join([first] + pieces, delimiter)
            == if pieces == [] then first else first + delimiter + Join(pieces, delimiter)
  {
    assert ([first] + pieces)[1..] == pieces;
  }

  /** No piece contains the delimiter. */
  lemma {:induction false} PiecesAreClean(text: string, delimiter: string, i: nat)
    requires delimiter != "" && i < |Split(text, delimiter)|
    ensures Find(Split(text, delimiter)[i], delimiter) == None
    decreases |text|
  {
    var r := Find(text, delimiter);
    if r.None? {
    } else {
      var p := r.value;
      if i > 0 {
        PiecesAreClean(text[p + |delimiter|..], delimiter, i - 1);
      } else {
        assert text == text[..p] + text[p..];
        if Find(text[..p], delimiter).Some? {
          FindInPrefix(text[..p], text[p..], delimiter);
          assert false;
        }
      }
    }
  }

  /** Splitting what was joined gives the pieces back, if none contains the first character of the
      delimiter and the last is not empty. */
  lemma {:induction false} SplitOfJoin(pieces: seq<string>, delimiter: string)
    requires delimiter != ""
    requires forall i :: 0 <= i < |pieces| ==> delimiter[0] !in pieces[i]
    requires pieces != [] ==> pieces[|pieces| - 1] != ""
    ensures Split(Join(pieces, delimiter), delimiter) == pieces
  {
    if |pieces| == 1 {
      FindNowhere(pieces[0], delimiter);
    } else if |pieces| > 1 {
      var rest := Join(pieces[1..], delimiter);
      SplitOfJoin(pieces[1..], delimiter);
      FindBehind(pieces[0], delimiter, rest);
      var text := pieces[0] + delimiter + rest;
      assert text[..|pieces[0]|] == pieces[0];
      assert text[|pieces[0]| + |delimiter|..] == rest;
    }
  }

  // ---------------------------------------------------------------- decimal numbers

  predicate IsDigit(c: char) {
    '0' <= c <= '9'
  }

  function Digit(n: nat): char
    requires n < 10
  {
    '0' + n as char
  }

  function DigitValue(c: char): nat
    requires IsDigit(c)
  {
    c as nat - '0' as nat
  }

  /** `std::to_string` of an unsigned number. */
  function Decimal(n: nat): (s: string)
    ensures s != "" && forall i :: 0 <= i < |s| ==> IsDigit(s[i])
  {
    if n < 10 then [Digit(n)] else Decimal(n / 10) + [Digit(n % 10)]
  }

  function NumberOf(s: string): nat
    requires forall i :: 0 <= i < |s| ==> IsDigit(s[i])
  {
    if s == "" then 0 else 10 * NumberOf(s[..|s| - 1]) + DigitValue(s[|s| - 1])
  }

  lemma {:induction false} NumberOfDecimal(n: nat)
    ensures NumberOf(Decimal(n)) == n
  {
    if n >= 10 {
      NumberOfDecimal(n / 10);
      assert Decimal(n)[..|Decimal(n)| - 1] == Decimal(n / 10);
    } else {
      assert [Digit(n)][..0] == "";
    }
  }

  function Pow10(k: nat): nat {
    if k == 0 then 1 else 10 * Pow10(k - 1)
  }

  /** A number has `k` digits exactly if it lies between 10^(k-1) and 10^k; zero has one. */
  lemma {:induction false} DigitCount(n: nat)
    ensures n < Pow10(|Decimal(n)|)
    ensures n > 0 ==> Pow10(|Decimal(n)| - 1) <= n
  {
    if n >= 10 {
      DigitCount(n / 10);
    } else {
      assert Pow10(1) == 10 && Pow10(0) == 1;
    }
  }

  lemma {:induction false} Pow10Monotone(a: nat, b: nat)
    requires a <= b
    ensures Pow10(a) <= Pow10(b)
  {
    if a == b {
    } else {
      Pow10Monotone(a, b - 1);
    }
  }

  lemma {:induction false} Pow10Exceeds(k: nat)
    ensures k + 1 <= Pow10(k)
  {
    if k == 0 {
    } else {
      Pow10Exceeds(k - 1);
    }
  }

  lemma DigitsIf(x: nat, k: nat)
    requires k >= 1 && Pow10(k - 1) <= x < Pow10(k)
    ensures |Decimal(x)| == k
  {
    var l := |Decimal(x)|;
    DigitCount(x);
    Pow10Exceeds(k - 1);
    if l < k {
      Pow10Monotone(l, k - 1);
      assert false;
    } else if k < l {
      Pow10Monotone(k, l - 1);
      assert false;
    }
  }
}
