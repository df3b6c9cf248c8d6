/** What the push parser and the pull parser make of one and the same text. */
module ParserAgreement {
  import opened CText
  import opened LineSource
  import opened HttpHeader
  import opened HttpRequest
  import opened HttpNormalisation
  import opened RequestParserSink
  import opened PushRoundTrip

  /** The first and the last field with a key carry the same value, for every key. */
  ghost predicate RepeatsAgree(fields: seq<(string, string)>) {
    forall key: string :: FirstValue(fields, key) == LastValue(fields, key)
  }

  lemma MapsAgreeIff(fields: seq<(string, string)>)
    ensures FirstWins(map[], fields) == LastWins(map[], fields) <==> RepeatsAgree(fields)
  {
    hide FirstWins, LastWins, Lookup;
    var first, last := FirstWins(map[], fields), LastWins(map[], fields);
    forall key: string
      ensures Lookup(first, key) == FirstValue(fields, key) && Lookup(last, key) == LastValue(fields, key)
    {
      FirstWinsAt(map[], fields, key);
      LastWinsAt(map[], fields, key);
      NothingSeen(key);
    }
    if RepeatsAgree(fields) {
      SameLookups(first, last);
    }
  }

  lemma SameLookups(m: map<string, string>, n: map<string, string>)
    requires forall key: string :: Lookup(m, key) == Lookup(n, key)
    ensures m == n
  {
    forall key: string
      ensures key in m <==> key in n
      ensures key in m ==> m[key] == n[key]
    {
      assert Lookup(m, key) == Lookup(n, key);
    }
  }

  // ---------------------------------------------------------------- any accepted text

  /** Every CR stands in front of a LF, and every LF behind a CR. */
  predicate Paired(s: string) {
    NoLoneCr(s) && forall i :: 0 <= i < |s| && s[i] == '\n' ==> i > 0 && s[i - 1] == '\r'
  }

  /** A line of such a text is what stands in front of its first CR LF. */
  lemma PairedLine(s: string)
    requires Paired(s) && NextLine(s).Line?
    ensures var l := NextLine(s);
            s == l.text + ("\r\n" + l.rest) && '\r' !in l.text && '\n' !in l.text && Paired(l.rest)
  {
    hide NextLine, IndexOf;
    NextLineIsSegment(s);
    var n := IndexOf(s, '\n');
    assert n > 0 && s[n - 1] == '\r' && s[..n][n - 1] == '\r';
    var line, rest := s[..n][..n - 1], s[n + 1..];
    assert s == line + ("\r\n" + rest);
    assert forall i :: 0 <= i < n ==> s[i] == s[..n][i] != '\n';
    assert forall i :: 0 <= i < |line| ==> line[i] == s[i];
    forall i | 0 <= i < |line|
      ensures line[i] != '\r'
    {
      assert s[i + 1] != '\n';
    }
    PairedRest(s, n + 1);
  }

  lemma PairedRest(s: string, k: nat)
    requires Paired(s) && 0 < k <= |s| && s[k - 1] == '\n'
    ensures Paired(s[k..])
  {
    var t := s[k..];
    assert forall i :: 0 <= i < |t| ==> t[i] == s[k + i];
    forall i | 0 <= i < |t| && t[i] == '\n'
      ensures i > 0 && t[i - 1] == '\r'
    {
      assert s[k + i - 1] == '\r';
    }
  }

  /** What a header line says about its text. */
  lemma HeaderLineParts(line: string, rest: string) returns (gap: string)
    requires SplitValue(line).Some? && '\r' !in line
    ensures var (key, value) := SplitValue(line).value;
            && PushableField(key, value)
            && (gap == " " || (gap == "" && value != "" && value[0] != ' '))
            && line + ("\r\n" + rest) == key + (":" + (gap + (value + ("\r" + ("\n" + rest)))))
  {
    hide IndexOf;
    var colon := IndexOf(line, ':');
    var (key, value) := SplitValue(line).value;
    gap := if line[colon + 1] == ' ' then " " else "";
    assert line == key + (":" + (gap + value));
    assert "\r\n" + rest == "\r" + ("\n" + rest);
  }

  /** The push parser on the header lines of an accepted text, with anything behind. */
  lemma {:induction false} PassAccepted(m: Machine, s: string, seen: map<string, string>, x: string)
    requires AtKey(m) && Paired(s) && ParseHeaders(s, seen).0.Ok? && ParseHeaders(s, seen).1 == ""
    ensures Leads(m, s + x, Fresh(m.out + [m.result.(arguments := FirstWins(m.result.arguments, Fields(HeaderLines(s))))]), x)
    decreases |s|
  {
    hide Leads, NextLine, SplitValue, PushableField, Paired, Inserted;
    var l := NextLine(s);
    PairedLine(s);
    if l.text == "" {
      assert s + x == "\r\n" + x;
      assert Fields(HeaderLines(s)) == [];
      PassEnd(m, x);
    } else {
      var (key, value) := SplitValue(l.text).value;
      var m1 := WithArguments(m, Inserted(m.result.arguments, key, value));
      var gap := HeaderLineParts(l.text, l.rest + x);
      assert s + x == l.text + ("\r\n" + (l.rest + x));
      PassRawField(m, key, gap, value, l.rest + x);
      PassAccepted(m1, l.rest, seen[key := value], x);
      FirstWinsOfLines(m.result.arguments, s);
      LeadsOn(m, s + x, m1, l.rest + x,
              Fresh(m.out + [m1.result.(arguments := FirstWins(m1.result.arguments, Fields(HeaderLines(l.rest))))]), x);
    }
  }

  lemma FirstWinsOfLines(seen: map<string, string>, s: string)
    requires NextLine(s).Line? && NextLine(s).text != "" && SplitValue(NextLine(s).text).Some?
    ensures var l := NextLine(s);
            var field := SplitValue(l.text).value;
            FirstWins(seen, Fields(HeaderLines(s))) == FirstWins(Inserted(seen, field.0, field.1), Fields(HeaderLines(l.rest)))
  {
    hide NextLine, SplitValue, Inserted;
    var line, lines := NextLine(s).text, HeaderLines(NextLine(s).rest);
    assert HeaderLines(s) == [line] + lines;
    assert Fields([line] + lines) == [SplitValue(line).value] + Fields(lines);
    assert ([SplitValue(line).value] + Fields(lines))[1..] == Fields(lines);
  }

  /** The fields that were read with a request. */
  function FieldsOf(s: string): seq<(string, string)> {
    if NextLine(s).Line? then Fields(HeaderLines(NextLine(s).rest)) else []
  }

  /** The push parser on the text of any accepted request with paired line ends, and anything behind. */
  lemma PushReadsAccepted(out: seq<Request>, s: string, x: string)
    requires Paired(s) && ParseRequest(s).0.Ok? && ParseRequest(s).1 == ""
    ensures var r := ParseRequest(s).0.value;
            && r.arguments == LastWins(map[], FieldsOf(s))
            && Leads(Fresh(out), s + x, Fresh(out + [r.(arguments := FirstWins(map[], FieldsOf(s)))]), x)
  {
    hide Leads, NextLine, ParseHeaders, SplitRequestLine, Paired, HeaderLines, Fields, FirstWins, LastWins, RequestLine;
    var l, r := NextLine(s), ParseRequest(s).0.value;
    PairedLine(s);
    ParsedIsLastWins(l.rest, map[]);
    SplitIsUnique(l.text, r.verb, r.path, r.version);
    SplitOfRequestLine(r.verb, r.path, r.version);
    VersionIsPart(r.verb, r.path, r.version);
    var m := Machine(Key, Request(r.verb, r.path, r.version, map[]), "", "", out);
    assert s + x == l.text + "\r\n" + (l.rest + x);
    PassRequestLine(out, r.verb, r.path, r.version, l.rest + x);
    PassAccepted(m, l.rest, map[], x);
    LeadsOn(Fresh(out), s + x, m, l.rest + x, Fresh(out + [r.(arguments := FirstWins(map[], FieldsOf(s)))]), x);
  }

  lemma VersionIsPart(verb: string, path: string, version: string)
    ensures '\r' !in RequestLine(verb, path, version) ==> '\r' !in version
  {
    assert forall c :: c in version ==> c in RequestLine(verb, path, version);
  }

  /** On whatever text parse_request reads as a request, if its CRs and LFs come in pairs, the push parser passes
      on that very request if and only if, for every key, its first and its last field carry the same value. */
  lemma {:induction false} ParsersAgreeIff(s: string)
    requires ParseRequest(s).0.Ok?
    ensures var (r, rest) := ParseRequest(s);
            && |rest| <= |s|
            && (Paired(Consumed(s, rest)) ==>
                  (Feed(Fresh([]), Consumed(s, rest)) == Fresh([r.value]) <==> RepeatsAgree(FieldsOf(Consumed(s, rest)))))
  {
    hide Feed, Clean, ParseRequest, FirstWins, LastWins, RepeatsAgree, FieldsOf, Paired;
    var (r, rest) := ParseRequest(s);
    ParseRequestFrame(s, "");
    var c := Consumed(s, rest);
    assert c + "" == c;
    if Paired(c) {
      PushReadsAccepted([], c, "");
      var first := r.value.(arguments := FirstWins(map[], FieldsOf(c)));
      assert [] + [first] == [first];
      NothingFed(Fresh([first]));
      MapsAgreeIff(FieldsOf(c));
      assert Fresh([first]).out[0] == first && Fresh([r.value]).out[0] == r.value;
    }
  }

  // ---------------------------------------------------------------- a header with given fields

  /** A request header with any fields, repeated keys included. */
  function HeadText(verb: string, path: string, version: string, fields: seq<(string, string)>): string {
    RequestLine(verb, path, version) + "\r\n" + (FieldText(fields) + "\r\n")
  }

  /** A header whose parts reach both parsers as they are sent. */
  predicate CleanHead(verb: string, path: string, version: string, fields: seq<(string, string)>) {
    && Word(verb) && Word(path) && '\r' !in version && '\n' !in version
    && forall i :: 0 <= i < |fields| ==>
         GoodKey(fields[i].0) && '\r' !in fields[i].1 && '\n' !in fields[i].1
  }

  /** parse_request on such a header, with any body behind. */
  lemma PullReadsHead(verb: string, path: string, version: string, fields: seq<(string, string)>, body: string)
    requires CleanHead(verb, path, version, fields)
    ensures ParseRequest(HeadText(verb, path, version, fields) + body)
            == (Ok(Request(verb, path, version, LastWins(map[], fields))), body)
  {
    hide ParseHeaders, NextLine, SplitRequestLine, FieldText, LastWins, RequestLine, GoodKey, Sendable;
    var line := RequestLine(verb, path, version);
    CleanIsSendable(version);
    SplitOfRequestLine(verb, path, version);
    SendableRequestLine(verb, path, version);
    ReassociateMessage(line, FieldText(fields), body);
    LineRoundTrip(line, FieldText(fields) + "\r\n" + body);
    forall i | 0 <= i < |fields|
      ensures Sendable(fields[i].1)
    {
      CleanIsSendable(fields[i].1);
    }
    PullKeepsLast(fields, map[], body);
  }

  /** The push parser on such a header, with anything behind. */
  lemma PushReadsHead(out: seq<Request>, verb: string, path: string, version: string, fields: seq<(string, string)>, rest: string)
    requires CleanHead(verb, path, version, fields)
    ensures Leads(Fresh(out), HeadText(verb, path, version, fields) + rest,
                  Fresh(out + [Request(verb, path, version, FirstWins(map[], fields))]), rest)
  {
    hide Leads, FieldText, FirstWins, RequestLine;
    var line, tail := RequestLine(verb, path, version), "\r\n" + rest;
    var more := FieldText(fields) + tail;
    var s := HeadText(verb, path, version, fields) + rest;
    var m1 := Machine(Key, Request(verb, path, version, map[]), "", "", out);
    var m2 := WithArguments(m1, FirstWins(map[], fields));
    ReassociateMessage(line, FieldText(fields), rest);
    Regroup(FieldText(fields), "\r\n", rest);
    PassRequestLine(out, verb, path, version, more);
    PassFields(m1, fields, tail);
    PassEnd(m2, rest);
    LeadsOn(Fresh(out), s, m1, more, m2, tail);
    LeadsOn(Fresh(out), s, m2, tail, Fresh(out + [m2.result]), rest);
  }

  /** A repeated key with two values: the first reaches the push parser, the last the pull parser. */
  lemma RepeatedKeyDiffers(verb: string, path: string, version: string, key: string, v: string, w: string)
    requires CleanHead(verb, path, version, [(key, v), (key, w)]) && v != w
    ensures var text := HeadText(verb, path, version, [(key, v), (key, w)]);
            && Feed(Fresh([]), text).out == [Request(verb, path, version, map[key := v])]
            && ParseRequest(text) == (Ok(Request(verb, path, version, map[key := w])), "")
  {
    hide Feed, ParseRequest, CleanHead, HeadText, Clean;
    var fields, tail := [(key, v), (key, w)], [(key, w)];
    assert fields[1..] == tail && tail[1..] == [];
    assert FirstWins(map[], fields) == FirstWins(map[key := v], tail);
    assert LastWins(map[], fields) == LastWins(map[key := v], tail);
    assert map[key := v][key := w] == map[key := w];
    var text := HeadText(verb, path, version, fields);
    assert text + "" == text;
    PullReadsHead(verb, path, version, fields, "");
    PushReadsHead([], verb, path, version, fields, "");
    NothingFed(Fresh([Request(verb, path, version, map[key := v])]));
    assert [] + [Request(verb, path, version, map[key := v])] == [Request(verb, path, version, map[key := v])];
  }
}
