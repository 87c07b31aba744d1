/** What the parts of the request parser make of single lines, parameters and numbers, said of the text
    itself. */
module HttpParts {
  import opened Base
  import opened Strings
  import opened Http

  // ---------------------------------------------------------------- looking up

  /** The value of the first object of that name. */
  lemma {:induction false} LookupIs(objects: seq<Object>, name: string, i: nat)
    requires i < |objects| && objects[i].name == name && forall j :: 0 <= j < i ==> objects[j].name != name
    ensures Lookup(objects, name) == objects[i].value
  {
    if i == 0 {
    } else {
      assert objects[0].name != name;
      LookupIs(objects[1..], name, i - 1);
    }
  }

  /** Nothing, if there is none. */
  lemma {:induction false} LookupIsNone(objects: seq<Object>, name: string)
    requires forall j :: 0 <= j < |objects| ==> objects[j].name != name
    ensures Lookup(objects, name) == ""
  {
    if objects == [] {
    } else {
      assert objects[0].name != name;
      LookupIsNone(objects[1..], name);
    }
  }

  // ---------------------------------------------------------------- lower case

  const UPPER := "ABCDEFGHIJKLMNOPQRSTUVWXYZ"
  const LOWER := "abcdefghijklmnopqrstuvwxyz"

  /** Each letter of the alphabet becomes its small form, and everything else stays. */
  lemma LowerIs(s: string, i: nat)
    requires i < |s|
    ensures forall k :: 0 <= k < 26 && s[i] == UPPER[k] ==> Lower(s)[i] == LOWER[k]
    ensures s[i] !in UPPER ==> Lower(s)[i] == s[i]
  {
    assert forall k :: 0 <= k < 26 ==> UPPER[k] as int == 'A' as int + k && LOWER[k] as int == 'a' as int + k;
    if 'A' <= s[i] <= 'Z' {
      assert UPPER[s[i] as int - 'A' as int] == s[i];
    }
  }

  // ---------------------------------------------------------------- header lines and parameters

  /** Name and value around the first colon; one space behind it is dropped. */
  lemma HeaderLine(name: string, value: string)
    requires ':' !in name
    ensures HeaderOf(name + ":" + (" " + value)) == [Object(Lower(name), value)]
    ensures (value == "" || value[0] != ' ') ==> HeaderOf(name + ":" + value) == [Object(Lower(name), value)]
  {
    var spaced, plain := name + ":" + (" " + value), name + ":" + value;
    FindBehind(name, ":", " " + value);
    assert spaced[..|name|] == name && spaced[|name| + 1] == ' ' && spaced[|name| + 2..] == value;
    FindBehind(name, ":", value);
    assert plain[..|name|] == name && plain[|name| + 1..] == value;
  }

  lemma NoHeaderLine(line: string)
    requires ':' !in line
    ensures HeaderOf(line) == []
  {
    FindNowhere(line, ":");
  }

  /** Name and value around the first equals sign; without one, a name alone. */
  lemma Parameter(name: string, value: string)
    requires '=' !in name
    ensures ParamOf(name + "=" + value) == Object(name, value)
    ensures ParamOf(name) == Object(name, "")
  {
    var piece := name + "=" + value;
    FindBehind(name, "=", value);
    assert piece[..|name|] == name && piece[|name| + 1..] == value;
    FindNowhere(name, "=");
  }

  // ---------------------------------------------------------------- request lines

  /** A request line is good exactly if single spaces cut it into three pieces, the second not empty. */
  lemma RequestLineIff(line: string)
    ensures RequestOf(line).0
            <==> exists name: string, uri: string, version: string ::
                   Split(line, " ") == [name, uri, version] && uri != ""
    ensures |Split(line, " ")| != 3 ==> RequestOf(line) == (false, Request("", "", "", "", []))
    ensures forall name: string, version: string :: Split(line, " ") == [name, "", version] ==>
              RequestOf(line) == (false, Request(name, "", version, "", []))
  {
    var pieces := Split(line, " ");
    if |pieces| == 3 {
      assert pieces == [pieces[0], pieces[1], pieces[2]];
    }
  }

  // ---------------------------------------------------------------- numbers

  lemma {:induction false} SpaceDropped(spaces: string, rest: string)
    requires (forall i :: 0 <= i < |spaces| ==> IsSpace(spaces[i])) && (rest == "" || !IsSpace(rest[0]))
    ensures DropSpace(spaces + rest) == rest
  {
    if spaces == "" {
      assert spaces + rest == rest;
    } else {
      assert (spaces + rest)[1..] == spaces[1..] + rest;
      SpaceDropped(spaces[1..], rest);
    }
  }

  lemma {:induction false} DigitsRead(digits: string, rest: string)
    requires (forall i :: 0 <= i < |digits| ==> IsDigit(digits[i])) && (rest == "" || !IsDigit(rest[0]))
    ensures LeadingDigits(digits + rest) == digits
  {
    if digits == "" {
      assert digits + rest == rest;
    } else {
      assert (digits + rest)[1..] == digits[1..] + rest;
      DigitsRead(digits[1..], rest);
    }
  }

  /** Leading space is skipped, a sign is taken, digits are read as far as they go, and what follows
      does not matter; a number beyond 64 bits is refused. */
  lemma StolIs(spaces: string, sign: string, n: nat, rest: string)
    requires forall i :: 0 <= i < |spaces| ==> IsSpace(spaces[i])
    requires sign == "" || sign == "-" || sign == "+"
    requires rest == "" || !IsDigit(rest[0])
    ensures var value: int := if sign == "-" then -(n as int) else n;
            Stol(spaces + (sign + (Decimal(n) + rest)))
            == if -0x8000_0000_0000_0000 <= value < 0x8000_0000_0000_0000 then Some(value) else None
  {
    var number := Decimal(n) + rest;
    var text := sign + number;
    assert IsDigit(number[0]);
    SpaceDropped(spaces, text);
    DigitsRead(Decimal(n), rest);
    NumberOfDecimal(n);
    if sign == "" {
      assert text == number;
    } else {
      assert text[0] == sign[0] && text[1..] == number;
    }
  }

  /** Text without a digit behind space and sign is refused. */
  lemma StolFails(spaces: string, rest: string)
    requires forall i :: 0 <= i < |spaces| ==> IsSpace(spaces[i])
    requires rest == "" || (!IsSpace(rest[0]) && !IsDigit(rest[0]) && rest[0] != '-' && rest[0] != '+')
    ensures Stol(spaces + rest) == None
  {
    SpaceDropped(spaces, rest);
  }

  // ---------------------------------------------------------------- the announced length

  /** A negative length wraps to a 64-bit number no body ever reaches; an unreadable one counts as 0. */
  lemma OddLengths(headers: seq<Object>, i: nat, n: nat, rest: string)
    requires i < |headers| && headers[i].name == "content-length"
    requires forall j :: 0 <= j < i ==> headers[j].name != "content-length"
    requires 0 < n < 0x8000_0000_0000_0000
    ensures headers[i].value == "-" + Decimal(n) ==> ContentLength(headers) == 0x1_0000_0000_0000_0000 - n
    ensures headers[i].value == "" ==> ContentLength(headers) == 0
  {
    LookupIs(headers, "content-length", i);
    StolIs("", "-", n, "");
    assert "" + ("-" + (Decimal(n) + "")) == "-" + Decimal(n);
    StolFails("", "");
    assert "" + "" == "";
  }

  /** Header `i` is the first that is named content-length, in whatever case. */
  predicate LengthAt(headers: seq<Object>, i: nat) {
    && i < |headers| && Lower(headers[i].name) == "content-length"
    && forall j :: 0 <= j < i ==> Lower(headers[j].name) != "content-length"
  }
}
