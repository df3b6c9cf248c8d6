/** Which accepted messages are read, printed and read again without change: a condition on the lines that
    were read. */
module HttpNormalisation {
  import opened CText
  import opened LineSource
  import opened HttpHeader
  import opened HttpRequest
  import opened HttpResponse
  import opened HttpExactness

  // ---------------------------------------------------------------- the lines of a header

  predicate AreHeaderLines(lines: seq<string>) {
    forall i :: 0 <= i < |lines| ==> SplitValue(lines[i]).Some? && '\n' !in lines[i]
  }

  /** The header lines in front of the empty one. */
  function HeaderLines(s: string): (lines: seq<string>)
    ensures AreHeaderLines(lines)
    decreases |s|
  {
    LinesHaveNoLf(s);
    match NextLine(s)
    case Tail(_) => []
    case Line(line, rest) => if line == "" || SplitValue(line) == None then [] else [line] + HeaderLines(rest)
  }

  /** What the lines carry. */
  function Fields(lines: seq<string>): (fields: seq<(string, string)>)
    requires AreHeaderLines(lines)
    ensures |fields| == |lines| && forall i :: 0 <= i < |lines| ==> fields[i] == SplitValue(lines[i]).value
  {
    seq(|lines|, i requires 0 <= i < |lines| => SplitValue(lines[i]).value)
  }

  /** The arguments that are read are those of the header lines, the last for each key. */
  lemma {:induction false} ParsedIsLastWins(s: string, seen: map<string, string>)
    requires ParseHeaders(s, seen).0.Ok?
    ensures ParseHeaders(s, seen).0.value == LastWins(seen, Fields(HeaderLines(s)))
    decreases |s|
  {
    hide NextLine, SplitValue;
    var l := NextLine(s);
    if l.text == "" {
      assert Fields(HeaderLines(s)) == [];
    } else {
      var (key, value) := SplitValue(l.text).value;
      ParsedIsLastWins(l.rest, seen[key := value]);
      var lines := HeaderLines(l.rest);
      assert HeaderLines(s) == [l.text] + lines;
      assert Fields([l.text] + lines) == [(key, value)] + Fields(lines);
      LastWinsUnfold(seen, (key, value), Fields(lines));
    }
  }

  lemma LastWinsUnfold(seen: map<string, string>, field: (string, string), more: seq<(string, string)>)
    ensures LastWins(seen, [field] + more) == LastWins(seen[field.0 := field.1], more)
  {
    assert ([field] + more)[1..] == more;
  }

  // ---------------------------------------------------------------- the last field of every key

  predicate IsLastField(fields: seq<(string, string)>, i: nat)
    requires i < |fields|
  {
    forall j :: i < j < |fields| ==> fields[j].0 != fields[i].0
  }

  lemma {:induction false} LastFieldHasLastValue(fields: seq<(string, string)>, i: nat)
    requires i < |fields| && IsLastField(fields, i)
    ensures LastValue(fields, fields[i].0) == Some(fields[i].1)
  {
    var more := fields[1..];
    if i == 0 {
      NoSuchField(more, fields[0].0);
    } else {
      assert forall j :: 0 <= j < |more| ==> more[j] == fields[j + 1];
      LastFieldHasLastValue(more, i - 1);
    }
  }

  lemma {:induction false} NoSuchField(fields: seq<(string, string)>, key: string)
    requires forall j :: 0 <= j < |fields| ==> fields[j].0 != key
    ensures LastValue(fields, key) == None
  {
    if fields != [] {
      assert forall j :: 0 <= j < |fields[1..]| ==> fields[1..][j] == fields[j + 1];
      NoSuchField(fields[1..], key);
    }
  }

  lemma {:induction false} LastValueIsOfLastField(fields: seq<(string, string)>, key: string) returns (i: nat)
    requires LastValue(fields, key).Some?
    ensures i < |fields| && IsLastField(fields, i) && fields[i] == (key, LastValue(fields, key).value)
  {
    var more := fields[1..];
    if LastValue(more, key).Some? {
      i := LastValueIsOfLastField(more, key);
      assert forall j :: 0 <= j < |more| ==> more[j] == fields[j + 1];
      i := i + 1;
    } else {
      i := 0;
      forall j | 0 < j < |fields|
        ensures fields[j].0 != key
      {
        assert fields[j] == more[j - 1];
        SomeSuchField(more, j - 1);
      }
    }
  }

  lemma {:induction false} SomeSuchField(fields: seq<(string, string)>, j: nat)
    requires j < |fields|
    ensures LastValue(fields, fields[j].0).Some?
  {
    if j > 0 {
      assert fields[1..][j - 1] == fields[j];
      SomeSuchField(fields[1..], j - 1);
    }
  }

  /** The last line of every key holds a CR at most at its end. */
  ghost predicate LastLinesSendable(lines: seq<string>)
    requires AreHeaderLines(lines)
  {
    forall i :: 0 <= i < |lines| && IsLastField(Fields(lines), i) ==> Sendable(lines[i])
  }

  /** The arguments of a header can be printed exactly if the last line of every key is sendable. */
  lemma ArgumentsGoodIff(lines: seq<string>)
    requires AreHeaderLines(lines)
    ensures GoodArguments(LastWins(map[], Fields(lines))) <==> LastLinesSendable(lines)
  {
    hide LastWins, LastValue, GoodKey, Sendable, IsLastField, SplitValue;
    var fields := Fields(lines);
    var m := LastWins(map[], fields);
    forall key: string
      ensures Lookup(m, key) == LastValue(fields, key)
    {
      LastWinsAt(map[], fields, key);
      NothingSeen(key);
    }
    if LastLinesSendable(lines) {
      forall k | k in m
        ensures GoodKey(k) && Sendable(m[k])
      {
        assert Lookup(m, k) == Some(m[k]);
        var i := LastValueIsOfLastField(fields, k);
        HeaderLineSendable(lines[i]);
      }
    }
    if GoodArguments(m) {
      forall i | 0 <= i < |lines| && IsLastField(fields, i)
        ensures Sendable(lines[i])
      {
        LastFieldHasLastValue(fields, i);
        assert Lookup(m, fields[i].0) == Some(fields[i].1);
        HeaderLineSendable(lines[i]);
      }
    }
  }

  lemma HeaderLineSendable(line: string)
    requires '\n' !in line && SplitValue(line).Some?
    ensures var (key, value) := SplitValue(line).value; Sendable(line) <==> GoodKey(key) && Sendable(value)
  {
    var (key, value) := SplitValue(line).value;
    var colon := IndexOf(line, ':');
    var at := |line| - |value|;
    assert line == line[..at] + value && at > colon && line[..colon] == key;
    assert forall i :: colon <= i < at ==> line[i] != '\r';
    assert forall i :: 0 <= i < colon ==> line[i] == key[i];
    assert forall i :: 0 <= i < |value| ==> line[at + i] == value[i];
    if Sendable(line) {
      assert forall i :: 0 <= i < |key| ==> line[i] != '\r';
      assert forall i :: 0 <= i < |value| - 1 ==> value[i] == line[at + i] != '\r';
    } else if GoodKey(key) && Sendable(value) {
      forall i | 0 <= i < |line| - 1
        ensures line[i] != '\r'
      {
        if i < colon {
          assert line[i] in key;
        } else if i >= at {
          assert line[i] == value[i - at];
        }
      }
    }
  }

  // ---------------------------------------------------------------- requests and responses

  /** A header whose first line, and whose last line of every key, holds a CR at most at its end. */
  ghost predicate ReadsTheSameAgain(s: string) {
    NextLine(s).Line? && Sendable(NextLine(s).text) && LastLinesSendable(HeaderLines(NextLine(s).rest))
  }

  /** An accepted request is read again, the same, from its printed form if and only if CRs were read in
      harmless places only: the exact condition for normalisation. */
  lemma {:induction false} RequestNormalisesIff(s: string, body: string)
    requires ParseRequest(s).0.Ok?
    ensures ParseRequest(RequestText(ParseRequest(s).0.value) + body) == (ParseRequest(s).0, body)
            <==> ReadsTheSameAgain(s)
  {
    hide ParseHeaders, NextLine, SplitRequestLine, HeaderLines, LastLinesSendable, GoodArguments, Sendable, LastWins, Word, RequestText;
    var l := NextLine(s);
    var r := ParseRequest(s).0.value;
    RequestRoundTripIff(r, body);
    LinesHaveNoLf(s);
    FirstLineSendable(l.text, r.verb, r.path, r.version);
    ParsedIsLastWins(l.rest, map[]);
    ArgumentsGoodIff(HeaderLines(l.rest));
  }

  lemma FirstLineSendable(line: string, verb: string, path: string, version: string)
    requires '\n' !in line && SplitRequestLine(line) == Some((verb, path, version))
    ensures Sendable(line) <==> GoodLine(verb, path, version)
  {
    hide Sendable;
    SplitIsUnique(line, verb, path, version);
    SplitHasNoLf(line);
    SplitOfRequestLine(verb, path, version);
    SendableRequestLine(verb, path, version);
  }

  /** The same for responses. */
  lemma {:induction false} ResponseNormalisesIff(s: string, body: string)
    requires ParseResponse(s).0.Ok?
    ensures ParseResponse(s).0.value.arguments.Some?
    ensures ParseResponse(ResponseText(ParseResponse(s).0.value) + body) == (ParseResponse(s).0, body)
            <==> ReadsTheSameAgain(s)
  {
    hide ParseHeaders, NextLine, SplitRequestLine, HeaderLines, LastLinesSendable, GoodArguments, Sendable, LastWins, Word,
         ParseUnsigned, ResponseText;
    var l := NextLine(s);
    var r := ParseResponse(s).0.value;
    var st := SplitRequestLine(l.text).value.1;
    ResponseRoundTripIff(r, body);
    LinesHaveNoLf(s);
    FirstLineSendable(l.text, r.version, st, r.statusText);
    UnsignedIsWord(st);
    ParsedIsLastWins(l.rest, map[]);
    ArgumentsGoodIff(HeaderLines(l.rest));
  }

  lemma UnsignedIsWord(s: string)
    requires ParseUnsigned(s).Some?
    ensures Word(s)
  {
    var digits := if s[0] == '-' || s[0] == '+' then s[1..] else s;
    assert forall i :: 0 <= i < |s| ==> s[i] == '-' || s[i] == '+' || IsDigit(s[i]) by {
      forall i | 0 < i < |s|
        ensures IsDigit(s[i])
      {
        assert s[i] == if |digits| < |s| then digits[i - 1] else digits[i];
      }
    }
  }
}
