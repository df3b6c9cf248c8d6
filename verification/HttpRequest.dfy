/** HTTP/1.x request headers (section 3.1.1 of RFC 7230): generate_request and parse_request. */
module HttpRequest {
  import opened CText
  import opened LineSource
  import opened HttpHeader

  datatype Request = Request(verb: string, path: string, version: string, arguments: map<string, string>)

  function RequestLine(verb: string, path: string, version: string): string {
    verb + " " + path + " " + version
  }

  ghost function MessageText(verb: string, path: string, version: string, arguments: map<string, string>): string {
    RequestLine(verb, path, version) + "\r\n" + (HeaderText(arguments) + "\r\n")
  }

  ghost function RequestText(r: Request): string {
    MessageText(r.verb, r.path, r.version, r.arguments)
  }

  /** generate_request_line */
  method GenerateRequestLine(out: Sink, verb: string, path: string, version: string)
    modifies out
    ensures out.text == old(out.text) + (RequestLine(verb, path, version) + "\r\n")
  {
    out.Put(verb);
    out.Put(" ");
    out.Put(path);
    out.Put(" ");
    out.Put(version);
    out.Put("\r\n");
  }

  /** generate_request */
  method GenerateRequest(out: Sink, header: Request)
    modifies out
    ensures out.text == old(out.text) + RequestText(header)
  {
    GenerateRequestLine(out, header.verb, header.path, header.version);
    GenerateHeaderMap(out, header.arguments);
    out.Put("\r\n");
  }

  /** The three parts of a request line: up to the first space, up to the second, and the rest. */
  function SplitRequestLine(line: string): Option<(string, string, string)> {
    var n := IndexOf(line, ' ');
    if n == |line| then None
    else
      var tail := line[n + 1..];
      var m := IndexOf(tail, ' ');
      if m == |tail| then None else Some((line[..n], tail[..m], tail[m + 1..]))
  }

  function ParseRequest(s: string): (Parsed<Request>, string) {
    match NextLine(s)
    case Tail(_) => (Nothing, "")
    case Line(line, rest) =>
      match SplitRequestLine(line)
      case None => (Nothing, rest)
      case Some((verb, path, version)) =>
        match ParseHeaders(rest, map[])
        case (Ok(arguments), body) => (Ok(Request(verb, path, version, arguments)), body)
        case (Nothing, body) => (Nothing, body)
        case (Undefined, body) => (Undefined, body)
  }

  /** std::find over a part of a line. */
  method Find(line: string, from: nat, c: char) returns (i: nat)
    requires from <= |line|
    ensures i == from + IndexOf(line[from..], c)
  {
    i := from;
    while i < |line| && line[i] != c
      invariant from <= i <= |line| && c !in line[from..i]
    {
      assert line[from..i + 1] == line[from..i] + [line[i]];
      i := i + 1;
    }
    assert line[from..][..i - from] == line[from..i];
    IndexOfIs(line[from..], c, i - from);
  }

  /** The two searches for a space in the first line. */
  method SplitFirstLine(line: string) returns (r: Option<(string, string, string)>)
    ensures r == SplitRequestLine(line)
  {
    assert line[0..] == line;
    var verbEnd := Find(line, 0, ' ');
    if verbEnd == |line| {
      return None;
    }
    var pathBegin := verbEnd + 1;
    var pathEnd := Find(line, pathBegin, ' ');
    if pathEnd == |line| {
      return None;
    }
    ghost var tail := line[pathBegin..];
    assert tail[..pathEnd - pathBegin] == line[pathBegin..pathEnd];
    assert tail[pathEnd - pathBegin + 1..] == line[pathEnd + 1..];
    return Some((line[..verbEnd], line[pathBegin..pathEnd], line[pathEnd + 1..]));
  }

  /** parse_request */
  method ReadRequest(source: CharSource) returns (r: Parsed<Request>)
    modifies source
    ensures (r, source.rest) == ParseRequest(old(source.rest))
  {
    var line := GetLine(source);
    if line == None {
      return Nothing;
    }
    var parts := SplitFirstLine(line.value);
    if parts == None {
      return Nothing;
    }
    var (verb, path, version) := parts.value;
    var arguments := ReadHeaders(source);
    match arguments
    case Ok(a) => return Ok(Request(verb, path, version, a));
    case Nothing => return Nothing;
    case Undefined => return Undefined;
  }

  // ---------------------------------------------------------------- round trip

  /** A word of the first line. */
  predicate Word(s: string) {
    ' ' !in s && '\r' !in s && '\n' !in s
  }

  /** Verb and path are words; the version may hold anything but a LF, and a CR only at its end. */
  predicate GoodLine(verb: string, path: string, version: string) {
    Word(verb) && Word(path) && Sendable(version)
  }

  predicate GoodRequest(r: Request) {
    GoodLine(r.verb, r.path, r.version) && GoodArguments(r.arguments)
  }

  lemma SplitOfRequestLine(verb: string, path: string, version: string)
    ensures SplitRequestLine(RequestLine(verb, path, version)) == Some((verb, path, version))
            <==> ' ' !in verb && ' ' !in path
  {
    var line, tail := RequestLine(verb, path, version), path + " " + version;
    if ' ' !in verb && ' ' !in path {
      assert line[..|verb|] == verb && line[|verb| + 1..] == tail;
      IndexOfIs(line, ' ', |verb|);
      assert tail[..|path|] == path && tail[|path| + 1..] == version;
      IndexOfIs(tail, ' ', |path|);
    }
  }

  lemma SendableRequestLine(verb: string, path: string, version: string)
    ensures Sendable(RequestLine(verb, path, version))
            <==> '\r' !in verb && '\n' !in verb && '\r' !in path && '\n' !in path && Sendable(version)
  {
    var line, at := RequestLine(verb, path, version), |verb| + |path| + 2;
    assert forall i :: 0 <= i < |verb| ==> line[i] == verb[i];
    assert forall i :: 0 <= i < |path| ==> line[|verb| + 1 + i] == path[i];
    assert forall i :: 0 <= i < |version| ==> line[at + i] == version[i];
    if Sendable(line) {
      assert forall c :: c in verb || c in path || c in version ==> c in line;
      forall i | 0 <= i < |version| - 1
        ensures version[i] != '\r'
      {
        assert line[at + i] == version[i];
      }
    } else if '\r' !in verb && '\n' !in verb && '\r' !in path && '\n' !in path && Sendable(version) {
      forall i | 0 <= i < |line|
        ensures line[i] != '\n' && (line[i] == '\r' ==> i == |line| - 1)
      {
        if i < |verb| {
          assert line[i] in verb;
        } else if |verb| < i < at - 1 {
          assert line[i] == path[i - |verb| - 1] && line[i] in path;
        } else if at <= i {
          assert line[i] == version[i - at] && line[i] in version;
        }
      }
    }
  }

  /** What the first line of a request text is read as. */
  function FirstLine(s: string): Option<(string, string, string)> {
    match NextLine(s)
    case Line(line, _) => SplitRequestLine(line)
    case Tail(_) => None
  }

  /** Exactly the good first lines are read back as they were sent. */
  lemma RequestLineRoundTrip(verb: string, path: string, version: string, rest: string)
    ensures FirstLine(RequestLine(verb, path, version) + "\r\n" + rest) == Some((verb, path, version))
            <==> GoodLine(verb, path, version)
  {
    var line := RequestLine(verb, path, version);
    SplitOfRequestLine(verb, path, version);
    SendableRequestLine(verb, path, version);
    LineRoundTrip(line, rest);
    if FirstLine(line + "\r\n" + rest) == Some((verb, path, version)) {
      SplitIsUnique(NextLine(line + "\r\n" + rest).text, verb, path, version);
      ReadLineKeepsLength(line, rest);
    }
  }

  lemma JoinAt(s: string, n: nat)
    requires n < |s| && s[n] == ' '
    ensures s == s[..n] + (" " + s[n + 1..])
  {
  }

  lemma JoinedLine(verb: string, path: string, version: string)
    ensures RequestLine(verb, path, version) == verb + (" " + (path + (" " + version)))
  {
  }

  /** A line that splits into three parts is made of them. */
  lemma SplitIsUnique(line: string, verb: string, path: string, version: string)
    requires SplitRequestLine(line) == Some((verb, path, version))
    ensures line == RequestLine(verb, path, version)
  {
    hide IndexOf;
    var n := IndexOf(line, ' ');
    var tail := line[n + 1..];
    var m := IndexOf(tail, ' ');
    JoinAt(line, n);
    JoinAt(tail, m);
    JoinedLine(verb, path, version);
  }

  lemma ReadLineKeepsLength(line: string, rest: string)
    requires NextLine(line + "\r\n" + rest).Line? && NextLine(line + "\r\n" + rest).text == line
    ensures NextLine(line + "\r\n" + rest).rest == rest
  {
    if '\n' in line {
      LinesHaveNoLf(line + "\r\n" + rest);
    } else {
      LineArrives(line, rest);
    }
  }

  /** How a printed header is taken apart: its first line, its arguments, and the body left over. */
  lemma MessageRoundTrip(verb: string, path: string, version: string, arguments: map<string, string>, body: string)
    requires GoodLine(verb, path, version) && GoodArguments(arguments)
    ensures var l := NextLine(MessageText(verb, path, version, arguments) + body);
            && l.Line? && SplitRequestLine(l.text) == Some((verb, path, version))
            && ParseHeaders(l.rest, map[]) == (Ok(arguments), body)
  {
    var line := RequestLine(verb, path, version);
    var rest := HeaderText(arguments) + "\r\n" + body;
    SplitOfRequestLine(verb, path, version);
    SendableRequestLine(verb, path, version);
    LineRoundTrip(line, rest);
    ReassociateMessage(line, HeaderText(arguments), body);
    HeadersRoundTrip(arguments, map[], body);
    assert map[] + arguments == arguments;
  }

  lemma ReassociateMessage(line: string, headers: string, body: string)
    ensures line + "\r\n" + (headers + "\r\n") + body == line + "\r\n" + (headers + "\r\n" + body)
  {
  }

  /** parse_request undoes generate_request and leaves exactly the body unread. */
  lemma RequestRoundTrip(r: Request, body: string)
    requires GoodRequest(r)
    ensures ParseRequest(RequestText(r) + body) == (Ok(r), body)
  {
    MessageRoundTrip(r.verb, r.path, r.version, r.arguments, body);
  }

  /** Whatever is read from a text without lone CRs can be sent again. */
  lemma ParsedRequestIsGood(s: string)
    requires NoLoneCr(s)
    ensures var (r, _) := ParseRequest(s); r.Ok? ==> GoodRequest(r.value)
  {
    CleanLine(s);
    var l := NextLine(s);
    if l.Line? && SplitRequestLine(l.text).Some? {
      var (verb, path, version) := SplitRequestLine(l.text).value;
      PartsOfCleanLine(l.text, verb, path, version);
      ParsedArgumentsAreGood(l.rest, map[]);
    }
  }

  lemma PartsOfCleanLine(line: string, verb: string, path: string, version: string)
    requires '\r' !in line && '\n' !in line && SplitRequestLine(line) == Some((verb, path, version))
    ensures GoodLine(verb, path, version)
  {
    SplitIsUnique(line, verb, path, version);
    SplitOfRequestLine(verb, path, version);
    CleanIsSendable(line);
    SendableRequestLine(verb, path, version);
  }

  /** The bytes in front of an unread rest. */
  function Consumed(s: string, rest: string): string
    requires |rest| <= |s|
  {
    s[..|s| - |rest|]
  }

  /** Reading a request looks at nothing behind it. */
  lemma ParseRequestFrame(s: string, x: string)
    requires ParseRequest(s).0.Ok?
    ensures var (r, rest) := ParseRequest(s);
            |rest| <= |s| && s == Consumed(s, rest) + rest && ParseRequest(Consumed(s, rest) + x) == (r, x)
  {
    hide NextLine, ParseHeaders, SplitRequestLine;
    var l := NextLine(s);
    NextLineFrame(s, x);
    ParseHeadersFrame(l.rest, map[], x);
    var k := |l.rest| - |ParseRequest(s).1|;
    var n := |s| - |l.rest|;
    NextLineFrame(s, l.rest[..k] + x);
    assert s[..n + k] + x == s[..n] + (l.rest[..k] + x);
  }

  /** Reading, printing and reading again gives the same request, if no lone CR was read; what stands
      unread behind the request does not matter. */
  lemma RequestNormalisation(s: string, body: string)
    requires ParseRequest(s).0.Ok?
    ensures var (r, rest) := ParseRequest(s);
            |rest| <= |s| && (NoLoneCr(Consumed(s, rest)) ==> ParseRequest(RequestText(r.value) + body) == (r, body))
  {
    hide ParseRequest, RequestText;
    var (r, rest) := ParseRequest(s);
    ParseRequestFrame(s, "");
    assert Consumed(s, rest) + "" == Consumed(s, rest);
    if NoLoneCr(Consumed(s, rest)) {
      ParsedRequestIsGood(Consumed(s, rest));
      RequestRoundTrip(r.value, body);
    }
  }

  lemma ParsedFirstLine(s: string)
    ensures var (r, _) := ParseRequest(s);
            r.Ok? ==> FirstLine(s) == Some((r.value.verb, r.value.path, r.value.version))
  {
  }

  lemma ReadLoneCr()
    ensures ParseRequest("  \rab\r\n\r\n") == (Ok(Request("", "", "\rb", map[])), "")
  {
    var x := "  \rab";
    assert x[1..] == " \rab" && " \rab"[1..] == "\rab" && "\rab"[2..] == "b" && "b"[1..] == "";
    assert Received(x) == "  \rb";
    LineArrives(x, "\r\n");
    assert "  \rab\r\n\r\n" == x + "\r\n" + "\r\n";
    assert RequestLine("", "", "\rb") == "  \rb";
    SplitOfRequestLine("", "", "\rb");
    assert ParseHeaders("\r\n", map[]) == (Ok(map[]), "");
  }

  /** With a lone CR in the text the second reading can differ from the first. */
  lemma {:induction false} LoneCrBreaksNormalisation()
    ensures var (r, _) := ParseRequest("  \rab\r\n\r\n");
            r.Ok? && ParseRequest(RequestText(r.value)).0 != r
  {
    hide ParseRequest, SplitRequestLine, NextLine;
    ReadLoneCr();
    var rest := HeaderText(map[]) + "\r\n";
    var r := Request("", "", "\rb", map[]);
    assert "\rb"[0] == '\r';
    assert !Sendable("\rb");
    RequestLineRoundTrip("", "", "\rb", rest);
    ParsedFirstLine(RequestText(r));
  }
}
