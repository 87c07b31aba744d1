/** The incremental request parser. It is fed a request in arbitrary chunks; section 5 of RFC 2616
    gives the format. */
module Http {
  import opened Base
  import opened Strings

  const CRLF := "\r\n"
  const BLANK_LINE := "\r\n\r\n"

  /** A header or a query parameter. */
  datatype Object = Object(name: string, value: string)

  datatype Request = Request(name: string, uri: string, version: string, path: string, params: seq<Object>)

  const NO_REQUEST := Request("", "", "", "", [])

  // ---------------------------------------------------------------- the parts

  function LowerChar(c: char): char {
    if 'A' <= c <= 'Z' then (c as int + 32) as char else c
  }

  function Lower(s: string): (r: string)
    ensures |r| == |s|
  {
    seq(|s|, i requires 0 <= i < |s| => LowerChar(s[i]))
  }

  /** The value of the first object of that name; empty if there is none. */
  function Lookup(objects: seq<Object>, name: string): string {
    if objects == [] then ""
    else if objects[0].name == name then objects[0].value
    else Lookup(objects[1..], name)
  }

  /** One header line; lines without a colon are ignored. */
  function HeaderOf(line: string): seq<Object> {
    match Find(line, ":")
    case None => []
    case Some(p) =>
      var from := if p + 1 < |line| && line[p + 1] == ' ' then p + 2 else p + 1;
      [Object(Lower(line[..p]), line[from..])]
  }

  function HeadersOf(lines: seq<string>): seq<Object> {
    if lines == [] then [] else HeaderOf(lines[0]) + HeadersOf(lines[1..])
  }

  /** A parameter without `=` has an empty value. */
  function ParamOf(piece: string): Object {
    match Find(piece, "=")
    case None => Object(piece, "")
    case Some(p) => Object(piece[..p], piece[p + 1..])
  }

  function ParamsOf(pieces: seq<string>): seq<Object> {
    if pieces == [] then [] else [ParamOf(pieces[0])] + ParamsOf(pieces[1..])
  }

  function PathOf(uri: string): string {
    match Find(uri, "?")
    case None => uri
    case Some(p) => uri[..p]
  }

  function QueryOf(uri: string): seq<Object> {
    match Find(uri, "?")
    case None => []
    case Some(p) => ParamsOf(Split(uri[p + 1..], "&"))
  }

  /** The request line; the flag tells whether it is well-formed. A line that is not made of three
      pieces leaves the request empty. */
  function RequestOf(line: string): (bool, Request) {
    var pieces := Split(line, " ");
    if |pieces| != 3 then (false, NO_REQUEST)
    else if pieces[1] == "" then (false, Request(pieces[0], pieces[1], pieces[2], "", []))
    else (true, Request(pieces[0], pieces[1], pieces[2], PathOf(pieces[1]), QueryOf(pieces[1])))
  }

  predicate IsSpace(c: char) {
    c == ' ' || '\t' <= c <= '\r'
  }

  function DropSpace(s: string): string {
    if s != "" && IsSpace(s[0]) then DropSpace(s[1..]) else s
  }

  function LeadingDigits(s: string): (r: string)
    ensures forall i :: 0 <= i < |r| ==> IsDigit(r[i])
  {
    if s != "" && IsDigit(s[0]) then [s[0]] + LeadingDigits(s[1..]) else ""
  }

  /** `std::stol`: None where it throws. */
  function Stol(s: string): Option<int> {
    var t := DropSpace(s);
    var negative := t != "" && t[0] == '-';
    var digits := LeadingDigits(if t != "" && (t[0] == '-' || t[0] == '+') then t[1..] else t);
    if digits == "" then None
    else
      var n: int := if negative then -(NumberOf(digits) as int) else NumberOf(digits);
      if -0x8000_0000_0000_0000 <= n < 0x8000_0000_0000_0000 then Some(n) else None
  }

  /** The announced body length, as an unsigned 64-bit number; 0 if absent or unreadable. */
  function ContentLength(headers: seq<Object>): nat {
    match Stol(Lookup(headers, "content-length"))
    case None => 0
    case Some(n) => n % 0x1_0000_0000_0000_0000
  }

  // ---------------------------------------------------------------- loops of the program

  lemma {:induction false} HeadersAppend(lines: seq<string>, line: string)
    ensures HeadersOf(lines + [line]) == HeadersOf(lines) + HeaderOf(line)
  {
    if lines == [] {
      assert lines + [line] == [line] && [line][1..] == [];
    } else {
      assert (lines + [line])[1..] == lines[1..] + [line];
      HeadersAppend(lines[1..], line);
    }
  }

  method ParseHeaderLine(line: string) returns (header: seq<Object>)
    ensures header == HeaderOf(line)
  {
    var hpos := Find(line, ":");
    if hpos.None? {
      return [];
    }
    var p := hpos.value;
    var name := Lower(line[..p]);
    if p + 1 < |line| && line[p + 1] == ' ' {
      p := p + 1;
    }
    return [Object(name, line[p + 1..])];
  }

  /** The lines of a header text after the request line. */
  function HeaderLines(text: string): seq<string> {
    var lines := Split(text, CRLF);
    if lines == [] then [] else lines[1..]
  }

  method ParseHeaders(text: string) returns (headers: seq<Object>)
    ensures headers == HeadersOf(HeaderLines(text))
  {
    var lines := SplitString(text, CRLF);
    headers := [];
    if |lines| == 0 {
      return;
    }
    lines := lines[1..];
    var i := 0;
    while i < |lines|
      invariant 0 <= i <= |lines|
      invariant headers == HeadersOf(lines[..i])
    {
      var header := ParseHeaderLine(lines[i]);
      HeadersAppend(lines[..i], lines[i]);
      assert lines[..i + 1] == lines[..i] + [lines[i]];
      headers := headers + header;
      i := i + 1;
    }
    assert lines[..i] == lines;
  }

  lemma {:induction false} ParamsAppend(pieces: seq<string>, piece: string)
    ensures ParamsOf(pieces + [piece]) == ParamsOf(pieces) + [ParamOf(piece)]
  {
    if pieces == [] {
      assert pieces + [piece] == [piece] && [piece][1..] == [];
    } else {
      assert (pieces + [piece])[1..] == pieces[1..] + [piece];
      ParamsAppend(pieces[1..], piece);
    }
  }

  method ParseParams(query: string) returns (params: seq<Object>)
    ensures params == ParamsOf(Split(query, "&"))
  {
    var pieces := SplitString(query, "&");
    params := [];
    var i := 0;
    while i < |pieces|
      invariant 0 <= i <= |pieces|
      invariant params == ParamsOf(pieces[..i])
    {
      ParamsAppend(pieces[..i], pieces[i]);
      assert pieces[..i + 1] == pieces[..i] + [pieces[i]];
      var pos := Find(pieces[i], "=");
      if pos.None? {
        params := params + [Object(pieces[i], "")];
      } else {
        params := params + [Object(pieces[i][..pos.value], pieces[i][pos.value + 1..])];
      }
      i := i + 1;
    }
    assert pieces[..i] == pieces;
  }

  // ---------------------------------------------------------------- the parser

  datatype Parser = Parser(
    msgs: seq<string>,
    headersEnd: nat,
    bytesWritten: nat,
    contentLength: nat,
    headersWritten: bool,
    complete: bool,
    bad: bool,
    headers: seq<Object>,
    request: Request)

  const FRESH := Parser([], 0, 0, 0, false, false, false, [], NO_REQUEST)

  /** What the header part of a stream says, once it is there. */
  datatype Head = Head(end: nat, headers: seq<Object>, contentLength: nat, ok: bool, request: Request)

  function FirstLine(stream: string): string {
    match Find(stream, CRLF)
    case None => ""
    case Some(p) => stream[..p]
  }

  /** The head of a stream: None until a blank line is seen, and for ever if the stream starts with
      one. */
  function HeadOf(stream: string): Option<Head> {
    match Find(stream, BLANK_LINE)
    case None => None
    case Some(pos) =>
      if pos == 0 then None
      else
        var headers := HeadersOf(HeaderLines(stream[..pos]));
        var (ok, request) := RequestOf(FirstLine(stream));
        Some(Head(pos + 4, headers, ContentLength(headers), ok, request))
  }

  predicate EnoughBody(p: Parser) {
    p.bytesWritten - p.headersEnd >= p.contentLength
  }

  /** The last part of `write`: a POST is complete when its body is. */
  function CheckPost(p: Parser): Parser {
    if p.request.name == "POST" && EnoughBody(p) then p.(complete := true) else p
  }

  /** The part of `write` that looks for the head; the flag tells whether to go on. */
  function LookForHead(q: Parser): (Parser, bool) {
    match HeadOf(Concat(q.msgs))
    case None => (q, false)
    case Some(h) =>
      var r := q.(headersEnd := h.end, headersWritten := true, headers := h.headers,
                  contentLength := h.contentLength, request := h.request);
      if !h.ok then (r.(bad := true), false)
      else (r.(complete := r.complete || h.request.name == "GET"), true)
  }

  /** `write` on one chunk. */
  function Written(p: Parser, msg: string): Parser {
    var q := p.(msgs := p.msgs + [msg], bytesWritten := p.bytesWritten + |msg|);
    if q.headersWritten then CheckPost(q)
    else
      var (r, goOn) := LookForHead(q);
      if goOn then CheckPost(r) else r
  }

  function Feed(chunks: seq<string>): Parser {
    if chunks == [] then FRESH else Written(Feed(chunks[..|chunks| - 1]), chunks[|chunks| - 1])
  }

  /** The parser object. */
  class HttpParser {
    var msgs: seq<string>
    var headersEnd: nat
    var bytesWritten: nat
    var contentLength: nat
    var headersWritten: bool
    var parsingComplete: bool
    var badRequest: bool
    var headers: seq<Object>
    var request: Request

    function Value(): Parser
      reads this
    {
      Parser(msgs, headersEnd, bytesWritten, contentLength, headersWritten, parsingComplete, badRequest,
             headers, request)
    }

    constructor ()
      ensures Value() == FRESH
    {
      msgs, headersEnd, bytesWritten, contentLength := [], 0, 0, 0;
      headersWritten, parsingComplete, badRequest := false, false, false;
      headers, request := [], NO_REQUEST;
    }

    /** Nothing is known before the head is parsed. */
    predicate Valid()
      reads this
    {
      !headersWritten ==> headers == [] && request == NO_REQUEST
    }

    method Write(msg: string)
      requires Valid()
      modifies this
      ensures Valid() && Value() == Written(old(Value()), msg)
    {
      msgs := msgs + [msg];
      bytesWritten := bytesWritten + |msg|;
      if !headersWritten {
        var goOn := TryHead();
        if !goOn {
          return;
        }
      }
      if request.name == "POST" && bytesWritten - headersEnd >= contentLength {
        parsingComplete := true;
      }
    }

    method TryHead() returns (goOn: bool)
      requires Valid() && !headersWritten
      modifies this
      ensures Valid() && (Value(), goOn) == LookForHead(old(Value())) && (goOn ==> headersWritten)
    {
      var text := ConcatString(msgs);
      var pos := Find(text, BLANK_LINE);
      if pos.None? || pos.value == 0 {
        return false;
      }
      var ok := ReadHead(text, pos.value);
      if !ok {
        badRequest := true;
        return false;
      }
      if request.name == "GET" {
        parsingComplete := true;
      }
      return true;
    }

    /** Header lines, body length and request line, once the blank line is there. */
    method ReadHead(text: string, pos: nat) returns (ok: bool)
      requires Find(text, BLANK_LINE) == Some(pos) && pos > 0 && request == NO_REQUEST
      modifies this`headers, this`headersEnd, this`headersWritten, this`contentLength, this`request
      ensures headersWritten && HeadOf(text) == Some(Head(headersEnd, headers, contentLength, ok, request))
    {
      headers := ParseHeaders(text[..pos]);
      headersEnd := pos + 4;
      headersWritten := true;
      contentLength := ContentLength(headers);
      LineBeforeBlank(text);
      ok := ParseRequest(text);
    }

    method ParseRequest(text: string) returns (ok: bool)
      requires Find(text, CRLF).Some? && request == NO_REQUEST
      modifies this`request
      ensures (ok, request) == RequestOf(FirstLine(text))
    {
      var pos := Find(text, CRLF);
      var res := SplitString(text[..pos.value], " ");
      if |res| != 3 {
        return false;
      }
      request := Request(res[0], res[1], res[2], "", []);
      if res[1] == "" {
        return false;
      }
      var q := Find(res[1], "?");
      if q.None? {
        request := request.(path := res[1]);
      } else {
        var params := ParseParams(res[1][q.value + 1..]);
        request := request.(path := res[1][..q.value], params := params);
      }
      return true;
    }
  }

  /** Where there is a blank line there is a line end, at or before it. */
  lemma LineBeforeBlank(text: string)
    requires Find(text, BLANK_LINE).Some?
    ensures Find(text, CRLF).Some? && Find(text, CRLF).value <= Find(text, BLANK_LINE).value
  {
    FindsFirst(text, BLANK_LINE);
    FindsFirst(text, CRLF);
    var p := Find(text, BLANK_LINE).value;
    assert text[p..p + 2] == text[p..p + 4][..2] == CRLF;
    assert At(text, CRLF, p);
  }
}
