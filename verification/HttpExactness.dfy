/** The messages that survive printing and parsing are exactly the good ones: a parser cannot repair what
    was lost on the line. */
module HttpExactness {
  import opened CText
  import opened LineSource
  import opened HttpHeader
  import opened HttpRequest
  import opened HttpResponse

  // ---------------------------------------------------------------- one header line

  /** A value counts twice, so that what moves from a value into its key gets lighter. */
  function Weight(key: string, value: string): nat {
    |key| + 2 * |value|
  }

  lemma ReceivedShrinks(x: string)
    requires '\n' !in x
    ensures |Received(x)| < |x| || Sendable(x)
  {
    ReceivedUnchanged(x);
    ReceivedLength(x);
  }

  lemma {:induction false} ReceivedLength(x: string)
    ensures |Received(x)| == |x| ==> Received(x) == x
  {
    if x != "" && x[0] != '\r' {
      ReceivedLength(x[1..]);
      assert x == [x[0]] + x[1..];
    }
  }

  lemma ReceivedUnfold(c: char, t: string)
    ensures c != '\r' ==> Received([c] + t) == [c] + Received(t)
    ensures c == '\r' && t != "" ==> Received([c] + t) == "\r" + Received(t[1..])
  {
    assert ([c] + t)[1..] == t;
    if t != "" {
      assert ([c] + t)[2..] == t[1..];
    }
  }

  lemma SplitBehind(c: char, t: string)
    requires c != ':' && SplitValue([c] + t).Some?
    ensures SplitValue(t).Some?
    ensures SplitValue([c] + t).value == ([c] + SplitValue(t).value.0, SplitValue(t).value.1)
  {
    var s, n := [c] + t, IndexOf(t, ':');
    assert s[1..] == t;
    assert IndexOf(s, ':') == n + 1;
    assert s[..n + 1] == [c] + t[..n];
    assert s[n + 2..] == t[n + 1..];
    if t[n + 1] == ' ' {
      assert s[n + 3..] == t[n + 2..];
    }
  }

  lemma SplitLength(t: string)
    requires SplitValue(t).Some?
    ensures var (key, value) := SplitValue(t).value; |key| + |value| < |t|
  {
  }

  /** A header line arrives lighter than it was sent, or it is good. */
  lemma {:induction false} LineGetsLighter(key: string, value: string)
    requires ':' !in key && '\n' !in key && '\n' !in value
    requires SplitValue(Received(key + (": " + value))).Some?
    ensures var (k, v) := SplitValue(Received(key + (": " + value))).value;
            Weight(k, v) < Weight(key, value) || (GoodKey(key) && Sendable(value) && (k, v) == (key, value))
    decreases |key|
  {
    hide Received, SplitValue;
    var tail := ": " + value;
    if key == "" {
      assert key + tail == [':'] + ([' '] + value);
      ReceivedUnfold(':', [' '] + value);
      ReceivedUnfold(' ', value);
      ReceivedShrinks(value);
      ReceivedUnchanged(value);
      SplitAtOnce(Received(value));
    } else {
      var c, more := key[0], key[1..];
      assert key == [c] + more && c in key;
      assert key + tail == [c] + (more + tail);
      ReceivedUnfold(c, more + tail);
      if c != '\r' {
        SplitBehind(c, Received(more + tail));
        LineGetsLighter(more, value);
        GoodKeyUnfold(c, more);
      } else if more == "" {
        assert (more + tail)[1..] == " " + value && key == "\r";
        LosesColon(value);
      } else {
        assert (more + tail)[1..] == more[1..] + tail;
        SplitBehind(c, Received(more[1..] + tail));
        LineGetsLighter(more[1..], value);
      }
    }
  }

  lemma GoodKeyUnfold(c: char, more: string)
    requires c != '\r' && ':' !in [c] + more && '\n' !in [c] + more
    ensures GoodKey([c] + more) <==> GoodKey(more)
  {
  }

  lemma SplitAtOnce(v: string)
    ensures SplitValue([':'] + ([' '] + v)) == Some(("", v))
  {
    var s := [':'] + ([' '] + v);
    assert s[2..] == v && s[..0] == "";
  }

  /** A key that ends with a CR swallows its colon. */
  lemma LosesColon(value: string)
    requires SplitValue("\r" + Received(" " + value)).Some?
    ensures var (k, v) := SplitValue("\r" + Received(" " + value)).value; Weight(k, v) < Weight("\r", value)
  {
    hide Received, SplitValue;
    ReceivedUnfold(' ', value);
    var r := Received(value);
    assert " " + value == [' '] + value;
    SplitBehind('\r', [' '] + r);
    SplitBehind(' ', r);
    SplitLength(r);
  }

  // ---------------------------------------------------------------- the weight of a map

  ghost function MapWeight(m: map<string, string>): nat
    decreases |m|
  {
    if |m| == 0 then 0
    else
      var k := Least(m.Keys);
      Weight(k, m[k]) + MapWeight(m - {k})
  }

  lemma {:induction false} WeightWithout(m: map<string, string>, key: string)
    requires key in m
    ensures MapWeight(m) == Weight(key, m[key]) + MapWeight(m - {key})
    decreases |m|
  {
    hide Weight;
    var k := Least(m.Keys);
    if key != k {
      WeightWithout(m - {k}, key);
      assert (m - {k}) - {key} == (m - {key}) - {k};
      WeightWithout(m - {key}, k);
    }
  }

  /** An insertion adds at most the weight of its entry. */
  lemma WeightOfInsertion(m: map<string, string>, key: string, value: string)
    ensures MapWeight(m[key := value]) <= MapWeight(m) + Weight(key, value)
  {
    WeightWithout(m[key := value], key);
    assert m[key := value] - {key} == m - {key};
    if key in m {
      WeightWithout(m, key);
    } else {
      assert m - {key} == m;
    }
  }

  // ---------------------------------------------------------------- what a parser can return at all

  predicate Parseable(arguments: map<string, string>) {
    forall k :: k in arguments ==> ':' !in k && '\n' !in k && '\n' !in arguments[k]
  }

  lemma ParseableUnfold(arguments: map<string, string>, key: string)
    requires Parseable(arguments) && key in arguments
    ensures ':' !in key && '\n' !in key && '\n' !in arguments[key] && Parseable(arguments - {key})
  {
  }

  lemma {:induction false} ParsedIsParseable(s: string, seen: map<string, string>)
    requires Parseable(seen)
    ensures var (r, _) := ParseHeaders(s, seen); r.Ok? ==> Parseable(r.value)
    decreases |s|
  {
    LinesHaveNoLf(s);
    var l := NextLine(s);
    if l.Line? && l.text != "" && SplitValue(l.text).Some? {
      var (key, value) := SplitValue(l.text).value;
      assert forall c :: c in key || c in value ==> c in l.text;
      ParsedIsParseable(l.rest, seen[key := value]);
    }
  }

  lemma ParseReceived(key: string, value: string, rest: string, seen: map<string, string>)
    requires '\n' !in key && '\n' !in value
    ensures var line := Received(key + (": " + value));
            ParseHeaders(HeaderLine(key, value) + rest, seen) ==
            match SplitValue(line)
            case None => (Undefined, rest)
            case Some((k, v)) => ParseHeaders(rest, seen[k := v])
  {
    hide SplitValue;
    var line := key + (": " + value);
    assert HeaderLine(key, value) + rest == line + "\r\n" + rest;
    LineArrives(line, rest);
    assert line != "";
  }

  /** A printed map is parsed into a lighter one, or it is good. */
  lemma {:induction false} HeadersGetLighter(arguments: map<string, string>, seen: map<string, string>, body: string)
    requires Parseable(arguments)
    requires ParseHeaders(HeaderText(arguments) + "\r\n" + body, seen).0.Ok?
    ensures var m := ParseHeaders(HeaderText(arguments) + "\r\n" + body, seen).0.value;
            && MapWeight(m) <= MapWeight(seen) + MapWeight(arguments)
            && (MapWeight(m) < MapWeight(seen) + MapWeight(arguments) || GoodArguments(arguments))
    decreases |arguments|
  {
    if |arguments| == 0 {
      assert "" + "\r\n" + body == "\r\n" + body;
      assert ParseHeaders("\r\n" + body, seen).0 == Ok(seen);
    } else {
      hide NextLine, Parseable, ParseHeaders, SplitValue, Received, HeaderLine, Weight, GoodKey, Sendable, GoodArguments;
      var key := Least(arguments.Keys);
      var value, left := arguments[key], arguments - {key};
      RegroupFour(HeaderLine(key, value), HeaderText(left), "\r\n", body);
      ParseReceived(key, value, HeaderText(left) + "\r\n" + body, seen);
      ParseableUnfold(arguments, key);
      LineGetsLighter(key, value);
      var (k, v) := SplitValue(Received(key + (": " + value))).value;
      WeightOfInsertion(seen, k, v);
      HeadersGetLighter(left, seen[k := v], body);
      GoodWithout(arguments, key);
    }
  }

  lemma GoodWithout(arguments: map<string, string>, key: string)
    requires key in arguments
    ensures GoodArguments(arguments) <==> GoodKey(key) && Sendable(arguments[key]) && GoodArguments(arguments - {key})
  {
    hide GoodKey, Sendable;
    if GoodArguments(arguments - {key}) && GoodKey(key) && Sendable(arguments[key]) {
      forall k | k in arguments
        ensures GoodKey(k) && Sendable(arguments[k])
      {
        assert k == key || k in arguments - {key};
      }
    }
  }

  /** Exactly the good maps are read back as they were printed, whatever follows. */
  lemma HeadersRoundTripIff(arguments: map<string, string>, body: string)
    ensures ParseHeaders(HeaderText(arguments) + "\r\n" + body, map[]) == (Ok(arguments), body)
            <==> GoodArguments(arguments)
  {
    hide ParseHeaders, HeaderText;
    if GoodArguments(arguments) {
      HeadersRoundTrip(arguments, map[], body);
      assert map[] + arguments == arguments;
    } else if ParseHeaders(HeaderText(arguments) + "\r\n" + body, map[]).0 == Ok(arguments) {
      ParsedIsParseable(HeaderText(arguments) + "\r\n" + body, map[]);
      HeadersGetLighter(arguments, map[], body);
    }
  }

  // ---------------------------------------------------------------- requests

  lemma AfterFirstLine(line: string, rest: string)
    requires Sendable(line)
    ensures NextLine(line + "\r\n" + rest) == Line(line, rest)
  {
    LineRoundTrip(line, rest);
  }

  /** Exactly the good requests are read back as they were printed, whatever follows. */
  lemma RequestRoundTripIff(r: Request, body: string)
    ensures ParseRequest(RequestText(r) + body) == (Ok(r), body) <==> GoodRequest(r)
  {
    if GoodRequest(r) {
      RequestRoundTrip(r, body);
    } else if ParseRequest(RequestText(r) + body) == (Ok(r), body) {
      hide ParseHeaders, HeaderText, SplitRequestLine, NextLine, Sendable, RequestLine, GoodArguments;
      var line, rest := RequestLine(r.verb, r.path, r.version), HeaderText(r.arguments) + "\r\n" + body;
      ReassociateMessage(line, HeaderText(r.arguments), body);
      RequestLineRoundTrip(r.verb, r.path, r.version, rest);
      SendableRequestLine(r.verb, r.path, r.version);
      AfterFirstLine(line, rest);
      HeadersRoundTripIff(r.arguments, body);
    }
  }

  // ---------------------------------------------------------------- responses

  function FirstWord(s: string): string {
    s[..IndexOf(s, ' ')]
  }

  lemma FirstWordUnfold(c: char, t: string)
    ensures FirstWord([c] + t) == if c == ' ' then "" else [c] + FirstWord(t)
  {
    var s := [c] + t;
    assert s[1..] == t;
    if c == ' ' {
      IndexOfIs(s, ' ', 0);
    } else {
      assert IndexOf(s, ' ') == IndexOf(t, ' ') + 1;
      assert s[..IndexOf(t, ' ') + 1] == [c] + t[..IndexOf(t, ' ')];
    }
  }

  /** The word in front of a space does not grow, unless it ends with a CR and swallows the space and the
      status behind it. */
  lemma {:induction false} WordArrives(word: string, status: string, t: string)
    requires Word(status) && status != ""
    ensures var w := FirstWord(Received(word + (" " + (status + (" " + t)))));
            |w| <= |word| || (word != "" && word[|word| - 1] == '\r' && w != "" && w[|w| - 1] != '\r')
    decreases |word|
  {
    hide Received, FirstWord;
    var tail := status + (" " + t);
    if word == "" {
      assert word + (" " + tail) == [' '] + tail;
      ReceivedUnfold(' ', tail);
      FirstWordUnfold(' ', Received(tail));
    } else {
      var c, more := word[0], word[1..];
      assert word == [c] + more;
      assert word + (" " + tail) == [c] + (more + (" " + tail));
      ReceivedUnfold(c, more + (" " + tail));
      if c == ' ' {
        FirstWordUnfold(c, Received(more + (" " + tail)));
      } else if c != '\r' {
        FirstWordUnfold(c, Received(more + (" " + tail)));
        WordArrives(more, status, t);
      } else if more == "" {
        assert (more + (" " + tail))[1..] == tail;
        FirstWordUnfold(c, Received(tail));
        StatusArrives(status, t);
      } else {
        assert (more + (" " + tail))[1..] == more[1..] + (" " + tail);
        FirstWordUnfold(c, Received(more[1..] + (" " + tail)));
        WordArrives(more[1..], status, t);
      }
    }
  }

  lemma WordUnfold(s: string)
    requires Word(s) && s != ""
    ensures s[0] != ' ' && s[0] != '\r' && Word(s[1..])
  {
    assert s[0] in s;
  }

  lemma {:induction false} StatusArrives(status: string, t: string)
    requires Word(status)
    ensures Received(status + (" " + t)) == status + (" " + Received(t))
    ensures FirstWord(Received(status + (" " + t))) == status
  {
    hide Received, FirstWord, Word;
    if status == "" {
      assert status + (" " + t) == [' '] + t;
      ReceivedUnfold(' ', t);
      FirstWordUnfold(' ', Received(t));
    } else {
      var c, more := status[0], status[1..];
      WordUnfold(status);
      assert status == [c] + more;
      assert status + (" " + t) == [c] + (more + (" " + t));
      ReceivedUnfold(c, more + (" " + t));
      FirstWordUnfold(c, Received(more + (" " + t)));
      StatusArrives(more, t);
    }
  }

  /** A first word that arrives unchanged holds no CR. */
  lemma {:induction false} UnchangedWordHasNoCr(word: string, status: string, t: string)
    requires Word(status) && status != ""
    requires FirstWord(Received(word + (" " + (status + (" " + t))))) == word
    ensures '\r' !in word
    decreases |word|
  {
    hide Received, FirstWord;
    var tail := status + (" " + t);
    if word != "" {
      var c, more := word[0], word[1..];
      assert word == [c] + more;
      assert word + (" " + tail) == [c] + (more + (" " + tail));
      ReceivedUnfold(c, more + (" " + tail));
      if c != '\r' {
        FirstWordUnfold(c, Received(more + (" " + tail)));
        SameTail(c, FirstWord(Received(more + (" " + tail))), more);
        UnchangedWordHasNoCr(more, status, t);
      } else if more == "" {
        assert (more + (" " + tail))[1..] == tail;
        FirstWordUnfold(c, Received(tail));
        StatusArrives(status, t);
        assert false;
      } else {
        assert (more + (" " + tail))[1..] == more[1..] + (" " + tail);
        FirstWordUnfold(c, Received(more[1..] + (" " + tail)));
        SameTail(c, FirstWord(Received(more[1..] + (" " + tail))), more);
        WordArrives(more[1..], status, t);
        assert false;
      }
    }
  }

  lemma SameTail(c: char, s: string, t: string)
    ensures [c] + s == [c] + t ==> s == t
  {
    assert ([c] + s)[1..] == s && ([c] + t)[1..] == t;
  }

  /** The parts of a received status line that are read back unchanged held nothing that gets lost. */
  lemma StatusLineArrives(version: string, status: string, statusText: string, st: string)
    requires Word(status) && status != "" && '\n' !in version && '\n' !in statusText
    requires SplitRequestLine(Received(RequestLine(version, status, statusText))) == Some((version, st, statusText))
    ensures Word(version) && Sendable(statusText)
  {
    hide Received, Word, Sendable;
    var tail := status + (" " + statusText);
    JoinedLine(version, status, statusText);
    FirstWordIs(Received(version + (" " + tail)));
    UnchangedWordHasNoCr(version, status, statusText);
    WordIs(version);
    WordIs(status);
    StatusArrives(version, tail);
    StatusArrives(status, statusText);
    JoinedLine(version, status, Received(statusText));
    SplitOfRequestLine(version, status, Received(statusText));
    ReceivedUnchanged(statusText);
  }

  lemma FirstWordIs(line: string)
    ensures ' ' !in FirstWord(line)
    ensures SplitRequestLine(line).Some? ==> SplitRequestLine(line).value.0 == FirstWord(line)
  {
  }

  lemma WordIs(s: string)
    ensures Word(s) <==> ' ' !in s && '\r' !in s && '\n' !in s
  {
  }

  /** Parts of a line without LF hold no LF. */
  lemma SplitHasNoLf(line: string)
    requires '\n' !in line && SplitRequestLine(line).Some?
    ensures var (a, b, c) := SplitRequestLine(line).value; '\n' !in a && '\n' !in b && '\n' !in c
  {
    var (a, b, c) := SplitRequestLine(line).value;
    hide IndexOf;
    SplitIsUnique(line, a, b, c);
    assert forall x :: x in a || x in b || x in c ==> x in RequestLine(a, b, c);
  }

  /** A response that is read back as printed has a first line without losses. */
  lemma ReadStatusLine(r: Response, rest: string)
    requires IsInt(r.status)
    requires var s := RequestLine(r.version, FormatInt(r.status), r.statusText) + "\r\n" + rest;
             && FirstLine(s).Some?
             && FirstLine(s).value.0 == r.version && FirstLine(s).value.2 == r.statusText
    ensures Word(r.version) && Sendable(r.statusText)
  {
    hide NextLine, SplitRequestLine, RequestLine, Received, Sendable, Word, FormatInt, ParseUnsigned;
    var status := FormatInt(r.status);
    var line := RequestLine(r.version, status, r.statusText);
    LinesHaveNoLf(line + "\r\n" + rest);
    SplitHasNoLf(NextLine(line + "\r\n" + rest).text);
    StatusRoundTrip(r.status);
    LineOfWords(r.version, status, r.statusText);
    LineArrives(line, rest);
    StatusLineArrives(r.version, status, r.statusText, FirstLine(line + "\r\n" + rest).value.1);
  }

  lemma LineOfWords(a: string, b: string, c: string)
    ensures '\n' !in a && Word(b) && '\n' !in c ==> '\n' !in RequestLine(a, b, c)
  {
  }

  /** Exactly the good responses are read back as they were printed, whatever follows. */
  lemma ResponseRoundTripIff(r: Response, body: string)
    requires r.arguments.Some? && IsInt(r.status)
    ensures ParseResponse(ResponseText(r) + body) == (Ok(r), body) <==> GoodResponse(r)
  {
    if GoodResponse(r) {
      ResponseRoundTrip(r, body);
    } else if ParseResponse(ResponseText(r) + body) == (Ok(r), body) {
      hide ParseHeaders, HeaderText, SplitRequestLine, NextLine, Sendable, Word, RequestLine, GoodArguments, FormatInt, ParseUnsigned;
      var status := FormatInt(r.status);
      var line, rest := RequestLine(r.version, status, r.statusText), HeaderText(r.arguments.value) + "\r\n" + body;
      ReassociateMessage(line, HeaderText(r.arguments.value), body);
      ReadStatusLine(r, rest);
      StatusRoundTrip(r.status);
      SendableStatusLine(r.version, status, r.statusText);
      AfterFirstLine(line, rest);
      HeadersRoundTripIff(r.arguments.value, body);
    }
  }

  lemma SendableStatusLine(version: string, status: string, statusText: string)
    ensures Word(version) && Word(status) && Sendable(statusText) ==> Sendable(RequestLine(version, status, statusText))
  {
    hide Sendable, RequestLine;
    SendableRequestLine(version, status, statusText);
  }
}
