/** HTTP/1.x response headers (section 3.1.2 of RFC 7230): generate_response and parse_response, with the
    decimal form of the status code. */
module HttpResponse {
  import opened CText
  import opened LineSource
  import opened HttpHeader
  import opened HttpRequest

  const INT_LIMIT := 0x8000_0000
  const UINT_LIMIT := 0x1_0000_0000

  /** `status` is a 32-bit int. */
  predicate IsInt(n: int) {
    -INT_LIMIT <= n < INT_LIMIT
  }

  // ---------------------------------------------------------------- lexical_cast

  function Digit(n: nat): (c: char)
    requires n < 10
    ensures IsDigit(c) && DigitValue(c) == n
  {
    '0' + n as char
  }

  function DigitValue(c: char): (n: nat)
    requires IsDigit(c)
    ensures n < 10
  {
    c as int - '0' as int
  }

  function Decimal(n: nat): (s: string)
    ensures s != "" && forall i :: 0 <= i < |s| ==> IsDigit(s[i])
  {
    if n < 10 then [Digit(n)] else Decimal(n / 10) + [Digit(n % 10)]
  }

  /** lexical_cast from int to text. */
  function FormatInt(n: int): string {
    if n < 0 then "-" + Decimal(-n) else Decimal(n)
  }

  predicate AllDigits(s: string) {
    forall i :: 0 <= i < |s| ==> IsDigit(s[i])
  }

  function DigitsValue(s: string): nat
    requires AllDigits(s)
  {
    if s == "" then 0 else DigitsValue(s[..|s| - 1]) * 10 + DigitValue(s[|s| - 1])
  }

  /** lexical_cast from text to unsigned: an optional sign and digits, no more than fit; a minus sign
      negates modulo 2 to the 32. */
  function ParseUnsigned(s: string): (r: Option<nat>)
    ensures r.Some? ==> r.value < UINT_LIMIT
  {
    var signed := s != "" && (s[0] == '-' || s[0] == '+');
    var digits := if signed then s[1..] else s;
    if digits == "" || !AllDigits(digits) then None
    else
      var n := DigitsValue(digits);
      if n >= UINT_LIMIT then None
      else if s[0] == '-' then Some((UINT_LIMIT - n) % UINT_LIMIT)
      else Some(n)
  }

  /** The conversion of an unsigned to the int member. */
  function ToInt(n: nat): int
    requires n < UINT_LIMIT
  {
    if n < INT_LIMIT then n else n - UINT_LIMIT
  }

  lemma {:induction false} DecimalRoundTrip(n: nat)
    ensures AllDigits(Decimal(n)) && DigitsValue(Decimal(n)) == n
  {
    if n < 10 {
      assert [Digit(n)][..0] == "";
    } else {
      DecimalRoundTrip(n / 10);
      var s := Decimal(n);
      assert s[..|s| - 1] == Decimal(n / 10);
    }
  }

  /** Every status that fits the member is read back as printed. */
  lemma StatusRoundTrip(n: int)
    requires IsInt(n)
    ensures ParseUnsigned(FormatInt(n)).Some?
    ensures ToInt(ParseUnsigned(FormatInt(n)).value) == n
    ensures Word(FormatInt(n)) && FormatInt(n) != ""
  {
    hide Decimal, DigitsValue;
    if n < 0 {
      DecimalRoundTrip(-n);
      assert FormatInt(n)[1..] == Decimal(-n);
      assert (UINT_LIMIT + n) % UINT_LIMIT == UINT_LIMIT + n;
    } else {
      DecimalRoundTrip(n);
      assert IsDigit(Decimal(n)[0]);
    }
  }

  // ---------------------------------------------------------------- the response structure

  /** `arguments` is a unique pointer; None is null. */
  datatype Response = Response(version: string, status: int, statusText: string, arguments: Option<map<string, string>>)

  ghost function ResponseText(r: Response): string
    requires r.arguments.Some?
  {
    MessageText(r.version, FormatInt(r.status), r.statusText, r.arguments.value)
  }

  /** generate_status_line; the line has the same shape as a request line. */
  method GenerateStatusLine(out: Sink, version: string, status: string, statusText: string)
    modifies out
    ensures out.text == old(out.text) + (RequestLine(version, status, statusText) + "\r\n")
  {
    out.Put(version);
    out.Put(" ");
    out.Put(status);
    out.Put(" ");
    out.Put(statusText);
    out.Put("\r\n");
  }

  /** generate_response, which dereferences the arguments. */
  method GenerateResponse(out: Sink, header: Response)
    requires header.arguments.Some?
    modifies out
    ensures out.text == old(out.text) + ResponseText(header)
  {
    GenerateStatusLine(out, header.version, FormatInt(header.status), header.statusText);
    GenerateHeaderMap(out, header.arguments.value);
    out.Put("\r\n");
  }

  function ParseResponse(s: string): (Parsed<Response>, string) {
    match NextLine(s)
    case Tail(_) => (Nothing, "")
    case Line(line, rest) =>
      match SplitRequestLine(line)
      case None => (Nothing, rest)
      case Some((version, status, statusText)) =>
        var number := ParseUnsigned(status);
        if number == None then (Nothing, rest)
        else
          match ParseHeaders(rest, map[])
          case (Ok(arguments), body) =>
            (Ok(Response(version, ToInt(number.value), statusText, Some(arguments))), body)
          case (Nothing, body) => (Nothing, body)
          case (Undefined, body) => (Undefined, body)
  }

  /** parse_response */
  method ReadResponse(source: CharSource) returns (r: Parsed<Response>)
    modifies source
    ensures (r, source.rest) == ParseResponse(old(source.rest))
  {
    var line := GetLine(source);
    if line == None {
      return Nothing;
    }
    var parts := SplitFirstLine(line.value);
    if parts == None {
      return Nothing;
    }
    var (version, status, statusText) := parts.value;
    var number := ParseUnsigned(status);
    if number == None {
      return Nothing;
    }
    var arguments := ReadHeaders(source);
    match arguments
    case Ok(a) => return Ok(Response(version, ToInt(number.value), statusText, Some(a)));
    case Nothing => return Nothing;
    case Undefined => return Undefined;
  }

  // ---------------------------------------------------------------- round trip

  /** The version is a word, the status text may hold spaces, and a CR only at its end. */
  predicate GoodResponse(r: Response) {
    Word(r.version) && IsInt(r.status) && Sendable(r.statusText) && r.arguments.Some? && GoodArguments(r.arguments.value)
  }

  /** parse_response undoes generate_response and leaves exactly the body unread. */
  lemma ResponseRoundTrip(r: Response, body: string)
    requires GoodResponse(r)
    ensures ParseResponse(ResponseText(r) + body) == (Ok(r), body)
  {
    StatusRoundTrip(r.status);
    MessageRoundTrip(r.version, FormatInt(r.status), r.statusText, r.arguments.value, body);
  }

  /** Reading a response looks at nothing behind it. */
  lemma ParseResponseFrame(s: string, x: string)
    requires ParseResponse(s).0.Ok?
    ensures var (r, rest) := ParseResponse(s);
            |rest| <= |s| && s == Consumed(s, rest) + rest && ParseResponse(Consumed(s, rest) + x) == (r, x)
  {
    hide NextLine, ParseHeaders, SplitRequestLine, ParseUnsigned;
    var l := NextLine(s);
    NextLineFrame(s, x);
    ParseHeadersFrame(l.rest, map[], x);
    var k := |l.rest| - |ParseResponse(s).1|;
    var n := |s| - |l.rest|;
    NextLineFrame(s, l.rest[..k] + x);
    assert s[..n + k] + x == s[..n] + (l.rest[..k] + x);
  }

  /** Whatever is read from a text without lone CRs can be sent again. */
  lemma ParsedResponseIsGood(s: string)
    requires NoLoneCr(s) && ParseResponse(s).0.Ok?
    ensures GoodResponse(ParseResponse(s).0.value)
  {
    CleanLine(s);
    var l := NextLine(s);
    var (version, status, statusText) := SplitRequestLine(l.text).value;
    PartsOfCleanLine(l.text, version, status, statusText);
    ParsedArgumentsAreGood(l.rest, map[]);
  }

  /** Reading, printing and reading again gives the same response, whatever form the status had, if no lone CR
      was read; what stands unread behind the response does not matter. */
  lemma ResponseNormalisation(s: string, body: string)
    requires ParseResponse(s).0.Ok?
    ensures ParseResponse(s).0.value.arguments.Some?
    ensures var (r, rest) := ParseResponse(s);
            |rest| <= |s| && (NoLoneCr(Consumed(s, rest)) ==> ParseResponse(ResponseText(r.value) + body) == (r, body))
  {
    var (r, rest) := ParseResponse(s);
    ParseResponseFrame(s, "");
    assert Consumed(s, rest) + "" == Consumed(s, rest);
    if NoLoneCr(Consumed(s, rest)) {
      hide ParseResponse, ResponseText;
      ParsedResponseIsGood(Consumed(s, rest));
      ResponseRoundTrip(r.value, body);
    }
  }
}
