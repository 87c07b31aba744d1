/** What the request parser promises over whole streams: how the bytes were cut into chunks does not
    matter, and printing a request and feeding it gives the request back. */
module HttpLaws {
  import opened Base
  import opened Strings
  import opened Http
  import opened HttpParts

  // ---------------------------------------------------------------- chunks do not matter

  lemma FirstLineStays(s: string, t: string)
    requires Find(s, CRLF).Some?
    ensures FirstLine(s + t) == FirstLine(s)
  {
    FindInPrefix(s, t, CRLF);
    PrefixStays(s, t, Find(s, CRLF).value);
  }

  lemma PrefixStays(s: string, t: string, k: nat)
    requires k <= |s|
    ensures (s + t)[..k] == s[..k]
  {
  }

  /** Once the head of a stream is known, nothing that follows changes it. */
  lemma HeadStays(s: string, t: string)
    requires HeadOf(s).Some?
    ensures HeadOf(s + t) == HeadOf(s)
  {
    LineBeforeBlank(s);
    FirstLineStays(s, t);
    FindInPrefix(s, t, BLANK_LINE);
    PrefixStays(s, t, Find(s, BLANK_LINE).value);
  }

  /** The request of head `h` is complete after `n` bytes of the stream. */
  predicate CompleteAt(h: Head, n: nat) {
    h.request.name == "GET" || PostComplete(h, n)
  }

  predicate PostComplete(h: Head, n: nat) {
    h.request.name == "POST" && n - h.end >= h.contentLength
  }

  /** The parser knows exactly what the stream so far tells. Only the completion flag of a bad
      request is left open. */
  predicate Agrees(p: Parser, stream: string) {
    && p.bytesWritten == |stream|
    && match HeadOf(stream)
       case None => p == FRESH.(msgs := p.msgs, bytesWritten := p.bytesWritten)
       case Some(h) =>
         && p.headersWritten
         && p.headersEnd == h.end
         && p.headers == h.headers
         && p.contentLength == h.contentLength
         && p.request == h.request
         && p.bad == !h.ok
         && (h.ok ==> (p.complete <==> CompleteAt(h, |stream|)))
         && (p.complete ==> CompleteAt(h, |stream|))
         && (!h.ok && p.complete ==> PostComplete(h, |stream|))
  }

  lemma FeedAgrees(chunks: seq<string>)
    ensures Feed(chunks).msgs == chunks
    ensures Agrees(Feed(chunks), Concat(chunks))
  {
    FedUpTo(chunks, |chunks|);
    assert chunks[..|chunks|] == chunks;
  }

  /** After these chunks the parser knows what they tell. */
  predicate Fed(chunks: seq<string>) {
    Feed(chunks).msgs == chunks && Agrees(Feed(chunks), Concat(chunks))
  }

  lemma {:induction false} FedUpTo(chunks: seq<string>, n: nat)
    requires n <= |chunks|
    ensures Fed(chunks[..n])
  {
    if n == 0 {
      assert chunks[..0] == [];
      NothingFed();
    } else {
      FedUpTo(chunks, n - 1);
      FeedStep(chunks[..n - 1], chunks[n - 1]);
      assert chunks[..n] == chunks[..n - 1] + [chunks[n - 1]];
    }
  }

  lemma FeedStep(front: seq<string>, msg: string)
    requires Fed(front)
    ensures Fed(front + [msg])
  {
    var chunks := front + [msg];
    ConcatOneMore(front, msg);
    WriteAgrees(Feed(front), Concat(front), msg);
    assert chunks[..|chunks| - 1] == front && chunks[|chunks| - 1] == msg;
  }

  lemma NothingFed()
    ensures Fed([])
  {
    FindNowhere("", BLANK_LINE);
  }

  lemma ConcatOneMore(chunks: seq<string>, msg: string)
    ensures Concat(chunks + [msg]) == Concat(chunks) + msg
  {
    ConcatAppend(chunks, [msg]);
    assert [msg][1..] == [];
  }

  lemma WriteAgrees(p: Parser, stream: string, msg: string)
    requires Agrees(p, stream) && Concat(p.msgs + [msg]) == stream + msg
    ensures Agrees(Written(p, msg), stream + msg) && Written(p, msg).msgs == p.msgs + [msg]
  {
    if HeadOf(stream).Some? {
      HeadStays(stream, msg);
    }
  }

  /** Two ways to cut the same stream leave the parser with the same headers, request, header end,
      body length and verdict, and with the same completion flag unless the request is bad. */
  lemma ChunkingDoesNotMatter(a: seq<string>, b: seq<string>)
    requires Concat(a) == Concat(b)
    ensures var p, q := Feed(a), Feed(b);
            && p.headers == q.headers && p.request == q.request && p.headersEnd == q.headersEnd
            && p.contentLength == q.contentLength && p.bytesWritten == q.bytesWritten
            && p.headersWritten == q.headersWritten && p.bad == q.bad
            && (!p.bad ==> p.complete == q.complete)
  {
    FeedAgrees(a);
    FeedAgrees(b);
  }

  /** A bad request whose head already reads as a POST with its whole body present. */
  predicate BadPost(stream: string) {
    match HeadOf(stream)
    case None => false
    case Some(h) => !h.ok && PostComplete(h, |stream|)
  }

  /** The completion flag is the same for all ways to cut a stream exactly if the stream is not
      such a bad POST: there, a further write, even an empty one, sets the flag that the write
      which found the request bad left unset. */
  lemma CompletionIsChunkingFreeIff(stream: string)
    ensures (forall a, b :: Concat(a) == stream && Concat(b) == stream ==> Feed(a).complete == Feed(b).complete)
            <==> !BadPost(stream)
  {
    if BadPost(stream) {
      BadPostDiffers(stream);
    } else {
      forall a, b | Concat(a) == stream && Concat(b) == stream
        ensures Feed(a).complete == Feed(b).complete
      {
        FeedAgrees(a);
        FeedAgrees(b);
      }
    }
  }

  lemma BadPostDiffers(stream: string)
    requires BadPost(stream)
    ensures Concat([stream]) == Concat([stream, ""]) == stream
    ensures !Feed([stream]).complete && Feed([stream, ""]).complete
  {
    FeedOnce(stream);
    FeedTwice(stream);
    FeedAgrees([stream]);
  }

  /** Such streams exist: a POST request line with an empty URI, two spaces in a row, is one, whatever
      version and body follow. */
  lemma EmptyUriIsBadPost(version: string, body: string)
    requires version != "" && Token(version)
    ensures BadPost("POST  " + version + BLANK_LINE + body)
  {
    var line := "POST  " + version;
    EmptyUriLine(version);
    assert [line] + [] == [line];
    assert Join([line], CRLF) == line;
    HeadOfLines(line, [], body);
    NoHeaders();
  }

  lemma EmptyUriLine(version: string)
    requires version != "" && Token(version)
    ensures RequestOf("POST  " + version) == (false, Request("POST", "", version, "", []))
  {
    var pieces := ["POST", "", version];
    assert pieces[1..] == ["", version] && pieces[1..][1..] == [version];
    assert Join(pieces[1..], " ") == " " + version;
    assert Join(pieces, " ") == "POST" + " " + (" " + version) == "POST  " + version;
    SplitOfJoin(pieces, " ");
  }

  lemma NoHeaders()
    ensures HeadersOf([]) == [] && ContentLength([]) == 0
  {
  }

  lemma FeedOnce(stream: string)
    ensures Concat([stream]) == stream && Feed([stream]) == Written(FRESH, stream)
  {
    assert [stream][1..] == [] && [stream][..0] == [];
  }

  lemma FeedTwice(stream: string)
    ensures Concat([stream, ""]) == stream && Feed([stream, ""]) == Written(Feed([stream]), "")
  {
    FeedOnce(stream);
    ConcatOneMore([stream], "");
    assert [stream] + [""] == [stream, ""];
    assert [stream, ""][..1] == [stream];
  }

  /** Completion, and the verdict, are never withdrawn. */
  lemma CompletionIsFinal(chunks: seq<string>, msg: string)
    ensures var p, q := Feed(chunks), Feed(chunks + [msg]);
            && (p.complete ==> q.complete)
            && (p.bad ==> q.bad)
            && (p.headersWritten ==> q.headersWritten && q.headers == p.headers && q.request == p.request)
  {
    assert (chunks + [msg])[..|chunks|] == chunks;
    FeedAgrees(chunks);
  }

  function GetHeaders(p: Parser): string
    requires p.headersEnd <= |Concat(p.msgs)|
  {
    Concat(p.msgs)[..p.headersEnd]
  }

  function GetBody(p: Parser): string
    requires p.headersEnd <= |Concat(p.msgs)|
  {
    Concat(p.msgs)[p.headersEnd..]
  }

  /** Header text and body together are the stream, and the header text ends with the blank line. */
  lemma HeadersAndBodyAreTheStream(chunks: seq<string>)
    ensures var p := Feed(chunks);
            && p.headersEnd <= |Concat(p.msgs)|
            && GetHeaders(p) + GetBody(p) == Concat(chunks)
            && (p.headersWritten ==> |GetHeaders(p)| >= 4
                                     && GetHeaders(p)[|GetHeaders(p)| - 4..] == BLANK_LINE)
  {
    FeedAgrees(chunks);
    var p, stream := Feed(chunks), Concat(chunks);
    if HeadOf(stream).Some? {
      HeadEndsBlank(stream);
      assert p.headersEnd == HeadOf(stream).value.end;
    }
    CutAndGlue(stream, p.headersEnd);
  }

  lemma HeadEndsBlank(stream: string)
    requires HeadOf(stream).Some?
    ensures var end := HeadOf(stream).value.end;
            4 <= end <= |stream| && stream[..end][end - 4..] == BLANK_LINE
  {
    FindsFirst(stream, BLANK_LINE);
    var pos := Find(stream, BLANK_LINE).value;
    assert stream[..pos + 4][pos..] == stream[pos..pos + 4];
  }

  lemma CutAndGlue(s: string, k: nat)
    requires k <= |s|
    ensures s[..k] + s[k..] == s && |s[..k]| == k
  {
  }

  /** A stream that starts with a blank line is never parsed, whatever follows. */
  lemma LeadingBlankLineIsIgnored(chunks: seq<string>)
    requires |Concat(chunks)| >= 4 && Concat(chunks)[..4] == BLANK_LINE
    ensures var p := Feed(chunks);
            !p.headersWritten && !p.bad && !p.complete && p.headers == [] && p.headersEnd == 0
  {
    FeedAgrees(chunks);
    var stream := Concat(chunks);
    assert stream[0..4] == stream[..4];
    assert At(stream, BLANK_LINE, 0);
  }

  // ---------------------------------------------------------------- printing

  datatype Message = Message(
    name: string, path: string, params: seq<Object>, version: string, headers: seq<Object>, body: string)

  function ParamPieces(params: seq<Object>): (r: seq<string>)
    ensures |r| == |params|
    ensures forall i :: 0 <= i < |r| ==> r[i] == params[i].name + "=" + params[i].value
  {
    seq(|params|, i requires 0 <= i < |params| => params[i].name + "=" + params[i].value)
  }

  function Uri(path: string, params: seq<Object>): string {
    if params == [] then path else path + "?" + Join(ParamPieces(params), "&")
  }

  function RequestLine(m: Message): string {
    m.name + " " + (Uri(m.path, m.params) + " " + m.version)
  }

  function HeaderPieces(headers: seq<Object>): (r: seq<string>)
    ensures |r| == |headers|
    ensures forall i :: 0 <= i < |r| ==> r[i] == headers[i].name + ":" + (" " + headers[i].value)
  {
    seq(|headers|, i requires 0 <= i < |headers| => headers[i].name + ":" + (" " + headers[i].value))
  }

  function HeadText(m: Message): string {
    Join([RequestLine(m)] + HeaderPieces(m.headers), CRLF)
  }

  function Print(m: Message): string {
    HeadText(m) + BLANK_LINE + m.body
  }

  /** No carriage return and no space. */
  predicate Token(s: string) {
    '\r' !in s && ' ' !in s
  }

  predicate WellFormed(m: Message) {
    && Token(m.name)
    && Token(m.version) && m.version != ""
    && Token(m.path) && m.path != "" && '?' !in m.path
    && (forall i :: 0 <= i < |m.params| ==>
          && Token(m.params[i].name) && '=' !in m.params[i].name && '&' !in m.params[i].name
          && Token(m.params[i].value) && '&' !in m.params[i].value)
    && (forall i :: 0 <= i < |m.headers| ==>
          && '\r' !in m.headers[i].name && ':' !in m.headers[i].name
          && '\r' !in m.headers[i].value)
  }

  // ---------------------------------------------------------------- the pieces come back

  lemma {:induction false} ParamsComeBack(params: seq<Object>)
    requires forall i :: 0 <= i < |params| ==> '=' !in params[i].name
    ensures ParamsOf(ParamPieces(params)) == params
  {
    if params == [] {
    } else {
      var o := params[0];
      FindBehind(o.name, "=", o.value);
      var piece := o.name + "=" + o.value;
      assert piece[..|o.name|] == o.name && piece[|o.name| + 1..] == o.value;
      ParamsComeBack(params[1..]);
      assert ParamPieces(params)[1..] == ParamPieces(params[1..]);
    }
  }

  function LowerNames(headers: seq<Object>): (r: seq<Object>)
    ensures |r| == |headers|
  {
    if headers == [] then [] else [Object(Lower(headers[0].name), headers[0].value)] + LowerNames(headers[1..])
  }

  lemma {:induction false} HeadersComeBack(headers: seq<Object>)
    requires forall i :: 0 <= i < |headers| ==> ':' !in headers[i].name
    ensures HeadersOf(HeaderPieces(headers)) == LowerNames(headers)
  {
    if headers == [] {
    } else {
      var o := headers[0];
      var line := o.name + ":" + (" " + o.value);
      FindBehind(o.name, ":", " " + o.value);
      assert line[..|o.name|] == o.name && line[|o.name| + 1] == ' ' && line[|o.name| + 2..] == o.value;
      HeadersComeBack(headers[1..]);
      assert HeaderPieces(headers)[1..] == HeaderPieces(headers[1..]);
    }
  }

  lemma {:induction false} JoinAvoids(pieces: seq<string>, delimiter: string, c: char)
    requires c !in delimiter && forall i :: 0 <= i < |pieces| ==> c !in pieces[i]
    ensures c !in Join(pieces, delimiter)
  {
    if |pieces| <= 1 {
    } else {
      JoinAvoids(pieces[1..], delimiter, c);
    }
  }

  lemma UriComesBack(m: Message)
    requires WellFormed(m)
    ensures var uri := Uri(m.path, m.params);
            uri != "" && Token(uri) && PathOf(uri) == m.path && QueryOf(uri) == m.params
  {
    var pieces := ParamPieces(m.params);
    var uri, query := Uri(m.path, m.params), Join(pieces, "&");
    if m.params == [] {
      FindNowhere(m.path, "?");
    } else {
      JoinAvoids(pieces, "&", '\r');
      JoinAvoids(pieces, "&", ' ');
      FindBehind(m.path, "?", query);
      assert uri[..|m.path|] == m.path && uri[|m.path| + 1..] == query;
      SplitOfJoin(pieces, "&");
      ParamsComeBack(m.params);
    }
  }

  lemma RequestComesBack(m: Message)
    requires WellFormed(m)
    ensures var uri := Uri(m.path, m.params);
            RequestOf(RequestLine(m)) == (true, Request(m.name, uri, m.version, m.path, m.params))
    ensures '\r' !in RequestLine(m) && RequestLine(m) != ""
  {
    var uri := Uri(m.path, m.params);
    UriComesBack(m);
    var pieces := [m.name, uri, m.version];
    assert pieces[1..] == [uri, m.version] && pieces[1..][1..] == [m.version];
    assert Join(pieces[1..], " ") == uri + " " + m.version;
    assert RequestLine(m) == Join(pieces, " ");
    SplitOfJoin(pieces, " ");
  }

  // ---------------------------------------------------------------- the blank line is found

  /** Nothing found before `k`: the search may as well start there. */
  lemma FindFrom(s: string, p: string, k: nat)
    requires k <= |s| && forall j :: 0 <= j < k ==> !At(s, p, j)
    requires Find(s[k..], p).Some?
    ensures Find(s, p) == Some(k + Find(s[k..], p).value)
  {
    FindsFirst(s[k..], p);
    var i := Find(s[k..], p).value;
    AtBehind(s, p, k, i);
    forall j | 0 <= j < k + i
      ensures !At(s, p, j)
    {
      if k <= j {
        AtBehind(s, p, k, j - k);
      }
    }
    FindIs(s, p, k + i);
  }

  lemma AtBehind(s: string, p: string, k: nat, i: nat)
    requires k <= |s|
    ensures At(s, p, k + i) <==> At(s[k..], p, i)
  {
    if k + i + |p| <= |s| {
      assert s[k + i..k + i + |p|] == s[k..][i..i + |p|];
    }
  }

  /** A line end followed by anything but another line end is not a blank line. */
  lemma NoBlankAtLineEnd(line: string, rest: string)
    requires '\r' !in line && rest != "" && rest[0] != '\r'
    ensures var s := line + CRLF + rest;
            forall j :: 0 <= j < |line| + 2 ==> !At(s, BLANK_LINE, j)
  {
    var s := line + CRLF + rest;
    forall j | 0 <= j < |line| + 2
      ensures !At(s, BLANK_LINE, j)
    {
      if j + 4 <= |s| {
        var w := s[j..j + 4];
        if j < |line| {
          assert w[0] == line[j];
        } else if j == |line| {
          assert w[2] == rest[0];
        } else {
          assert w[0] == '\n';
        }
      }
    }
  }

  /** Lines without carriage returns, none of them empty. */
  predicate PlainLines(lines: seq<string>) {
    lines != [] && forall i :: 0 <= i < |lines| ==> lines[i] != "" && '\r' !in lines[i]
  }

  lemma {:induction false} BlankLineEndsTheHead(lines: seq<string>, rest: string)
    requires PlainLines(lines)
    ensures Find(Join(lines, CRLF) + BLANK_LINE + rest, BLANK_LINE) == Some(|Join(lines, CRLF)|)
    ensures Join(lines, CRLF) != "" && Join(lines, CRLF)[0] != '\r'
  {
    if |lines| == 1 {
      FindBehind(lines[0], BLANK_LINE, rest);
    } else {
      var tail := Join(lines[1..], CRLF);
      BlankLineEndsTheHead(lines[1..], rest);
      var s := Join(lines, CRLF) + BLANK_LINE + rest;
      var s' := tail + BLANK_LINE + rest;
      assert s == lines[0] + CRLF + s';
      NoBlankAtLineEnd(lines[0], s');
      assert s[|lines[0]| + 2..] == s';
      FindFrom(s, BLANK_LINE, |lines[0]| + 2);
    }
  }

  lemma FirstLineOf(line: string, more: seq<string>, rest: string)
    requires '\r' !in line
    ensures FirstLine(Join([line] + more, CRLF) + BLANK_LINE + rest) == line
  {
    var s := Join([line] + more, CRLF) + BLANK_LINE + rest;
    if more == [] {
      assert [line] + more == [line];
      assert s == line + CRLF + (CRLF + rest);
      FindBehind(line, CRLF, CRLF + rest);
    } else {
      assert ([line] + more)[1..] == more;
      var tail := Join(more, CRLF) + BLANK_LINE + rest;
      assert s == line + CRLF + tail;
      FindBehind(line, CRLF, tail);
    }
    assert s[..|line|] == line;
  }

  // ---------------------------------------------------------------- round trip

  /** The head that the parser must find in a printed message. */
  function PrintedHead(m: Message): Head {
    var headers := LowerNames(m.headers);
    Head(|HeadText(m)| + 4, headers, ContentLength(headers), true,
         Request(m.name, Uri(m.path, m.params), m.version, m.path, m.params))
  }

  lemma PrintedLinesArePlain(m: Message)
    requires WellFormed(m)
    ensures PlainLines([RequestLine(m)] + HeaderPieces(m.headers))
  {
    var line, more := RequestLine(m), HeaderPieces(m.headers);
    RequestComesBack(m);
    forall i | 0 <= i < |[line] + more|
      ensures ([line] + more)[i] != "" && '\r' !in ([line] + more)[i]
    {
      if i > 0 {
        assert ([line] + more)[i] == more[i - 1];
      }
    }
  }

  /** What the parser finds in plain lines followed by a blank line. */
  lemma HeadOfLines(line: string, more: seq<string>, rest: string)
    requires PlainLines([line] + more)
    ensures var text := Join([line] + more, CRLF);
            var headers := HeadersOf(more);
            var (ok, request) := RequestOf(line);
            HeadOf(text + BLANK_LINE + rest)
            == Some(Head(|text| + 4, headers, ContentLength(headers), ok, request))
  {
    var lines := [line] + more;
    var text := Join(lines, CRLF);
    BlankLineEndsTheHead(lines, rest);
    assert lines[0] == line;
    FirstLineOf(line, more, rest);
    assert (text + BLANK_LINE + rest)[..|text|] == text;
    assert HeaderLines(text) == more by {
      SplitOfJoin(lines, CRLF);
      assert lines[1..] == more;
    }
  }

  lemma HeadOfPrint(m: Message)
    requires WellFormed(m)
    ensures HeadOf(Print(m)) == Some(PrintedHead(m))
  {
    PrintedLinesArePlain(m);
    HeadOfLines(RequestLine(m), HeaderPieces(m.headers), m.body);
    RequestComesBack(m);
    HeadersComeBack(m.headers);
  }

  /** The message announces a body of `n` bytes: that is the value of its first header named
      content-length, in whatever case. */
  ghost predicate Announces(m: Message, n: nat) {
    n < 0x8000_0000_0000_0000 && exists i: nat :: LengthAt(m.headers, i) && m.headers[i].value == Decimal(n)
  }

  /** The message has no such header. */
  predicate AnnouncesNothing(m: Message) {
    forall i :: 0 <= i < |m.headers| ==> Lower(m.headers[i].name) != "content-length"
  }

  lemma {:induction false} LowerNamesAt(headers: seq<Object>, i: nat)
    requires i < |headers|
    ensures LowerNames(headers)[i] == Object(Lower(headers[i].name), headers[i].value)
  {
    if i == 0 {
    } else {
      LowerNamesAt(headers[1..], i - 1);
    }
  }

  lemma AnnouncedLength(m: Message, n: nat)
    requires Announces(m, n)
    ensures ContentLength(LowerNames(m.headers)) == n
  {
    var i: nat :| LengthAt(m.headers, i) && m.headers[i].value == Decimal(n);
    var lowered := LowerNames(m.headers);
    forall j | 0 <= j <= i
      ensures lowered[j] == Object(Lower(m.headers[j].name), m.headers[j].value)
    {
      LowerNamesAt(m.headers, j);
    }
    LookupIs(lowered, "content-length", i);
    StolOfDecimal(n);
  }

  lemma NoLengthIsZero(m: Message)
    requires AnnouncesNothing(m)
    ensures ContentLength(LowerNames(m.headers)) == 0
  {
    var lowered := LowerNames(m.headers);
    forall j | 0 <= j < |lowered|
      ensures lowered[j].name != "content-length"
    {
      LowerNamesAt(m.headers, j);
    }
    LookupIsNone(lowered, "content-length");
    StolFails("", "");
    assert "" + "" == "";
  }

  lemma BodyBehindHead(m: Message)
    ensures |Print(m)| == PrintedHead(m).end + |m.body| && Print(m)[PrintedHead(m).end..] == m.body
  {
  }

  /** Printing a well-formed request, with as much of its body as has come so far, and feeding it in any
      chunks gives method, path, parameters, version, headers (names in lower case) and body back. A GET
      is then complete. A POST is complete exactly if as many bytes have come as it announces, or if it
      announces nothing. No other request is. */
  lemma RequestRoundTrip(m: Message, chunks: seq<string>)
    requires WellFormed(m) && Concat(chunks) == Print(m)
    ensures var p := Feed(chunks);
            && p.headersWritten && !p.bad
            && p.request == Request(m.name, Uri(m.path, m.params), m.version, m.path, m.params)
            && p.headers == LowerNames(m.headers)
            && p.headersEnd <= |Concat(p.msgs)| && GetBody(p) == m.body
            && (m.name == "GET" ==> p.complete)
            && (forall n: nat :: m.name == "POST" && Announces(m, n) ==> (p.complete <==> |m.body| >= n))
            && (m.name == "POST" && AnnouncesNothing(m) ==> p.complete)
            && (m.name != "GET" && m.name != "POST" ==> !p.complete)
  {
    FeedAgrees(chunks);
    HeadOfPrint(m);
    BodyBehindHead(m);
    RoundTripFrom(m, Feed(chunks));
    forall n: nat | Announces(m, n)
      ensures PrintedHead(m).contentLength == n
    {
      AnnouncedLength(m, n);
    }
    if AnnouncesNothing(m) {
      NoLengthIsZero(m);
    }
  }

  lemma RoundTripFrom(m: Message, p: Parser)
    requires Agrees(p, Print(m)) && HeadOf(Print(m)) == Some(PrintedHead(m))
    requires |Print(m)| == PrintedHead(m).end + |m.body|
    ensures p.headersWritten && !p.bad && p.headersEnd == PrintedHead(m).end
    ensures p.request == PrintedHead(m).request && p.headers == PrintedHead(m).headers
    ensures p.complete <==> m.name == "GET" || (m.name == "POST" && |m.body| >= PrintedHead(m).contentLength)
  {
  }

  lemma {:induction false} LeadingDigitsAll(s: string)
    requires forall i :: 0 <= i < |s| ==> IsDigit(s[i])
    ensures LeadingDigits(s) == s
  {
    if s == "" {
    } else {
      LeadingDigitsAll(s[1..]);
    }
  }

  lemma StolOfDecimal(n: nat)
    requires n < 0x8000_0000_0000_0000
    ensures Stol(Decimal(n)) == Some(n)
  {
    var s := Decimal(n);
    assert IsDigit(s[0]);
    LeadingDigitsAll(s);
    NumberOfDecimal(n);
  }
}
