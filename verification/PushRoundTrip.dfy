/** Printed requests in front of the push parser, in any chunks, and how it differs from the pull parser. */
module PushRoundTrip {
  import opened CText
  import opened LineSource
  import opened HttpHeader
  import opened HttpRequest
  import opened RequestParserSink

  /** Between two requests. */
  function Fresh(out: seq<Request>): Machine {
    Machine(Verb, EMPTY_REQUEST, "", "", out)
  }

  /** From here on `m` with `s` ahead is as good as `m1` with `t` ahead. */
  predicate Leads(m: Machine, s: string, m1: Machine, t: string) {
    Feed(m, s) == Feed(m1, t) && (Clean(m1, t) ==> Clean(m, s))
  }

  lemma LeadsOn(m: Machine, s: string, m1: Machine, t: string, m2: Machine, u: string)
    requires Leads(m, s, m1, t) && Leads(m1, t, m2, u)
    ensures Leads(m, s, m2, u)
  {
    hide Feed, Clean;
  }

  // ---------------------------------------------------------------- one piece of text each

  lemma PassText(m: Machine, text: string, rest: string)
    requires ReadsText(m.state) && Delimiter(m.state) !in text && (m.state == Key ==> '\r' !in text)
    ensures Leads(m, text + ([Delimiter(m.state)] + rest), Finish(Collect(m, text)), rest)
  {
    hide Feed, Clean, IndexOf, Collect, Finish, Turn;
    var c := Delimiter(m.state);
    var s := text + ([c] + rest);
    assert s[..|text|] == text && s[|text| + 1..] == rest && s[0] == if text == "" then c else text[0];
    IndexOfIs(s, c, |text|);
    TextTurnIs(m, s);
    FeedUnfold(m, s);
    CleanUnfold(m, s);
  }

  lemma PassOptional(m: Machine, rest: string)
    requires !ReadsText(m.state)
    ensures Leads(m, [Optional(m.state)] + rest, m.(state := Following(m.state)), rest)
  {
    hide Feed, Clean, IndexOf, Collect, Finish;
    var s := [Optional(m.state)] + rest;
    assert s[1..] == rest;
    FeedUnfold(m, s);
    CleanUnfold(m, s);
  }

  lemma PassEnd(m: Machine, rest: string)
    requires m.state == Key
    ensures Leads(m, "\r\n" + rest, Emit(m).(state := Verb), rest)
  {
    hide Feed, Clean, IndexOf, Collect, Finish;
    var s := "\r\n" + rest;
    assert s[1..] == "\n" + rest;
    FeedUnfold(m, s);
    CleanUnfold(m, s);
    PassOptional(Emit(m), rest);
    LeadsOn(m, s, Emit(m), "\n" + rest, Emit(m).(state := Verb), rest);
  }

  // ---------------------------------------------------------------- header fields

  /** Keys and values that reach the push parser as they are sent. */
  predicate PushableField(key: string, value: string) {
    ':' !in key && '\r' !in key && '\r' !in value
  }

  predicate Pushable(fields: seq<(string, string)>) {
    forall i :: 0 <= i < |fields| ==> PushableField(fields[i].0, fields[i].1)
  }

  /** The map that keeps the first value of every key. */
  function FirstWins(seen: map<string, string>, fields: seq<(string, string)>): map<string, string>
    decreases |fields|
  {
    if fields == [] then seen else FirstWins(Inserted(seen, fields[0].0, fields[0].1), fields[1..])
  }

  predicate AtKey(m: Machine) {
    m.state == Key && m.key == "" && m.value == ""
  }

  function WithArguments(m: Machine, arguments: map<string, string>): Machine {
    m.(result := m.result.(arguments := arguments))
  }

  /** A field in any form: the space behind the colon may be missing in front of a value that does not start
      with one. */
  lemma PassRawField(m: Machine, key: string, gap: string, value: string, rest: string)
    requires AtKey(m) && PushableField(key, value)
    requires gap == " " || (gap == "" && value != "" && value[0] != ' ')
    ensures Leads(m, key + (":" + (gap + (value + ("\r" + ("\n" + rest))))),
                  WithArguments(m, Inserted(m.result.arguments, key, value)), rest)
  {
    hide Feed, Clean, Leads, Inserted;
    var m1 := m.(key := key, state := ValueSpace);
    var m2 := m1.(state := Value);
    var m3 := WithArguments(m, Inserted(m.result.arguments, key, value)).(state := ValueLf);
    var m4 := m3.(state := Key);
    var t2 := value + ("\r" + ("\n" + rest));
    var t1 := gap + t2;
    var s := key + (":" + t1);
    assert "" + key == key && "" + value == value;
    PassText(m, key, t1);
    PassGap(m1, gap, t2);
    PassText(m2, value, "\n" + rest);
    PassOptional(m3, rest);
    LeadsOn(m, s, m1, t1, m2, t2);
    LeadsOn(m, s, m2, t2, m3, "\n" + rest);
    LeadsOn(m, s, m3, "\n" + rest, m4, rest);
  }

  lemma PassGap(m: Machine, gap: string, t: string)
    requires m.state == ValueSpace && t != "" && (gap == " " || (gap == "" && t[0] != ' '))
    ensures Leads(m, gap + t, m.(state := Value), t)
  {
    if gap == " " {
      hide Leads;
      PassOptional(m, t);
    } else {
      hide Feed, Clean, IndexOf, Collect, Finish;
      assert gap + t == t;
      FeedUnfold(m, t);
      CleanUnfold(m, t);
    }
  }

  lemma PassField(m: Machine, key: string, value: string, rest: string)
    requires AtKey(m) && PushableField(key, value)
    ensures Leads(m, HeaderLine(key, value) + rest, WithArguments(m, Inserted(m.result.arguments, key, value)), rest)
  {
    hide Leads, Inserted;
    assert HeaderLine(key, value) + rest == key + (":" + (" " + (value + ("\r" + ("\n" + rest)))));
    PassRawField(m, key, " ", value, rest);
  }

  lemma {:induction false} PassFields(m: Machine, fields: seq<(string, string)>, rest: string)
    requires AtKey(m) && Pushable(fields)
    ensures Leads(m, FieldText(fields) + rest, WithArguments(m, FirstWins(m.result.arguments, fields)), rest)
    decreases |fields|
  {
    if fields == [] {
      assert "" + rest == rest;
    } else {
      hide Leads, Inserted, HeaderLine;
      var (key, value) := fields[0];
      var m1 := WithArguments(m, Inserted(m.result.arguments, key, value));
      var more := FieldText(fields[1..]) + rest;
      assert FieldText(fields) + rest == HeaderLine(key, value) + more;
      PassField(m, key, value, more);
      PassFields(m1, fields[1..], rest);
      LeadsOn(m, FieldText(fields) + rest, m1, more, WithArguments(m, FirstWins(m.result.arguments, fields)), rest);
    }
  }

  /** The entries of a map in the order in which they are printed. */
  ghost function Entries(arguments: map<string, string>): seq<(string, string)>
    decreases |arguments|
  {
    if |arguments| == 0 then []
    else
      var k := Least(arguments.Keys);
      [(k, arguments[k])] + Entries(arguments - {k})
  }

  lemma EntriesUnfold(arguments: map<string, string>) returns (k: string)
    requires |arguments| > 0
    ensures k in arguments && Entries(arguments) == [(k, arguments[k])] + Entries(arguments - {k})
    ensures HeaderText(arguments) == HeaderLine(k, arguments[k]) + HeaderText(arguments - {k})
  {
    hide HeaderLine;
    k := Least(arguments.Keys);
  }

  lemma FieldsUnfold(key: string, value: string, more: seq<(string, string)>)
    ensures FieldText([(key, value)] + more) == HeaderLine(key, value) + FieldText(more)
    ensures forall seen :: FirstWins(seen, [(key, value)] + more) == FirstWins(Inserted(seen, key, value), more)
    ensures PushableField(key, value) && Pushable(more) ==> Pushable([(key, value)] + more)
  {
    hide HeaderLine, Inserted, PushableField;
    var fields := [(key, value)] + more;
    assert fields[1..] == more && fields[0] == (key, value);
  }

  lemma {:induction false} EntriesArePrinted(arguments: map<string, string>, seen: map<string, string>)
    requires forall k :: k in arguments ==> PushableField(k, arguments[k])
    ensures FieldText(Entries(arguments)) == HeaderText(arguments) && Pushable(Entries(arguments))
    ensures FirstWins(seen, Entries(arguments)) == arguments + seen
    decreases |arguments|
  {
    if |arguments| == 0 {
      assert arguments == map[];
      assert arguments + seen == seen;
    } else {
      hide *;
      var k := EntriesUnfold(arguments);
      EntriesArePrinted(arguments - {k}, Inserted(seen, k, arguments[k]));
      FieldsUnfold(k, arguments[k], Entries(arguments - {k}));
      InsertedFirst(arguments, seen, k);
    }
  }

  lemma InsertedFirst(arguments: map<string, string>, seen: map<string, string>, k: string)
    requires k in arguments
    ensures (arguments - {k}) + Inserted(seen, k, arguments[k]) == arguments + seen
  {
  }

  // ---------------------------------------------------------------- requests

  predicate PushableRequest(r: Request) {
    && ' ' !in r.verb && ' ' !in r.path && '\r' !in r.version
    && forall k :: k in r.arguments ==> PushableField(k, r.arguments[k])
  }

  lemma PassRequestLine(out: seq<Request>, verb: string, path: string, version: string, rest: string)
    requires ' ' !in verb && ' ' !in path && '\r' !in version
    ensures Leads(Fresh(out), RequestLine(verb, path, version) + "\r\n" + rest,
                  Machine(Key, Request(verb, path, version, map[]), "", "", out), rest)
  {
    hide Leads, RequestLine;
    var m2 := Machine(Version, Request(verb, path, "", map[]), "", "", out);
    var t := version + ("\r" + ("\n" + rest));
    var s := verb + (" " + (path + (" " + t)));
    RequestLineParts(verb, path, version, rest);
    PassWords(out, verb, path, t);
    PassVersion(out, verb, path, version, rest);
    LeadsOn(Fresh(out), s, m2, t, Machine(Key, Request(verb, path, version, map[]), "", "", out), rest);
  }

  lemma RequestLineParts(verb: string, path: string, version: string, rest: string)
    ensures RequestLine(verb, path, version) + "\r\n" + rest
            == verb + (" " + (path + (" " + (version + ("\r" + ("\n" + rest))))))
  {
    assert "\r\n" + rest == "\r" + ("\n" + rest);
  }

  lemma PassWords(out: seq<Request>, verb: string, path: string, t: string)
    requires ' ' !in verb && ' ' !in path
    ensures Leads(Fresh(out), verb + (" " + (path + (" " + t))),
                  Machine(Version, Request(verb, path, "", map[]), "", "", out), t)
  {
    hide Leads;
    var m1 := Machine(Path, Request(verb, "", "", map[]), "", "", out);
    assert "" + verb == verb && "" + path == path;
    PassText(Fresh(out), verb, path + (" " + t));
    PassText(m1, path, t);
    LeadsOn(Fresh(out), verb + (" " + (path + (" " + t))), m1, path + (" " + t),
            Machine(Version, Request(verb, path, "", map[]), "", "", out), t);
  }

  lemma PassVersion(out: seq<Request>, verb: string, path: string, version: string, rest: string)
    requires '\r' !in version
    ensures Leads(Machine(Version, Request(verb, path, "", map[]), "", "", out), version + ("\r" + ("\n" + rest)),
                  Machine(Key, Request(verb, path, version, map[]), "", "", out), rest)
  {
    hide Leads;
    var m2 := Machine(Version, Request(verb, path, "", map[]), "", "", out);
    var m3 := Machine(VersionLf, Request(verb, path, version, map[]), "", "", out);
    assert "" + version == version;
    PassText(m2, version, "\n" + rest);
    PassOptional(m3, rest);
    LeadsOn(m2, version + ("\r" + ("\n" + rest)), m3, "\n" + rest, m3.(state := Key), rest);
  }

  lemma PassRequest(out: seq<Request>, r: Request, rest: string)
    requires PushableRequest(r)
    ensures Leads(Fresh(out), RequestText(r) + rest, Fresh(out + [r]), rest)
  {
    hide Leads, Pushable, FieldText, RequestLine, Entries, PushableField, RequestText;
    var tail := "\r\n" + rest;
    var headers := HeaderText(r.arguments) + tail;
    var s := RequestText(r) + rest;
    var m1 := Machine(Key, Request(r.verb, r.path, r.version, map[]), "", "", out);
    var m2 := Machine(Key, r, "", "", out);
    RequestTextParts(r, rest);
    PassRequestLine(out, r.verb, r.path, r.version, headers);
    PassArguments(m1, r.arguments, tail);
    PassEnd(m2, rest);
    LeadsOn(Fresh(out), s, m1, headers, m2, tail);
    LeadsOn(Fresh(out), s, m2, tail, Fresh(out + [r]), rest);
  }

  lemma RequestTextParts(r: Request, rest: string)
    ensures RequestText(r) + rest
            == RequestLine(r.verb, r.path, r.version) + "\r\n" + (HeaderText(r.arguments) + ("\r\n" + rest))
  {
    hide RequestLine, HeaderText;
    var line, headers := RequestLine(r.verb, r.path, r.version), HeaderText(r.arguments);
    ReassociateMessage(line, headers, rest);
    assert headers + "\r\n" + rest == headers + ("\r\n" + rest);
  }

  lemma PassArguments(m: Machine, arguments: map<string, string>, rest: string)
    requires AtKey(m) && m.result.arguments == map[] && forall k :: k in arguments ==> PushableField(k, arguments[k])
    ensures Leads(m, HeaderText(arguments) + rest, WithArguments(m, arguments), rest)
  {
    hide Leads, PushableField, FieldText, Pushable, Entries;
    EntriesArePrinted(arguments, map[]);
    assert arguments + map[] == arguments;
    PassFields(m, Entries(arguments), rest);
  }

  ghost function RequestTexts(rs: seq<Request>): string {
    if rs == [] then "" else RequestText(rs[0]) + RequestTexts(rs[1..])
  }

  lemma {:induction false} PassRequests(out: seq<Request>, rs: seq<Request>)
    requires forall i :: 0 <= i < |rs| ==> PushableRequest(rs[i])
    ensures Leads(Fresh(out), RequestTexts(rs), Fresh(out + rs), "")
    decreases |rs|
  {
    hide RequestText, Feed, Clean;
    if rs == [] {
      assert out + [] == out;
    } else {
      hide Leads, PushableRequest;
      PassRequest(out, rs[0], RequestTexts(rs[1..]));
      PassRequests(out + [rs[0]], rs[1..]);
      assert out + [rs[0]] + rs[1..] == out + rs;
      LeadsOn(Fresh(out), RequestTexts(rs), Fresh(out + [rs[0]]), RequestTexts(rs[1..]), Fresh(out + rs), "");
    }
  }

  /** Any number of requests, printed one behind the other and cut into any chunks, are passed on as they
      were, in order, and the parser is ready for the next one. */
  lemma {:induction false} PushParserReadsRequests(rs: seq<Request>, chunks: seq<string>)
    requires forall i :: 0 <= i < |rs| ==> PushableRequest(rs[i])
    requires Joined(chunks) == RequestTexts(rs)
    ensures FeedAll(Fresh([]), chunks) == Fresh(rs)
  {
    hide Feed, Clean, PushableRequest;
    PassRequests([], rs);
    assert [] + rs == rs;
    NothingFed(Fresh(rs));
    FeedChunks(Fresh([]), chunks);
  }

  // ---------------------------------------------------------------- no other request survives

  /** No collected text holds what would have ended it. */
  predicate Undelimited(m: Machine) {
    && ' ' !in m.result.verb && ' ' !in m.result.path && '\r' !in m.result.version
    && ':' !in m.key && '\r' !in m.key && '\r' !in m.value
    && (forall k :: k in m.result.arguments ==> PushableField(k, m.result.arguments[k]))
    && (forall i :: 0 <= i < |m.out| ==> PushableRequest(m.out[i]))
  }

  lemma TurnKeepsUndelimited(m: Machine, c: char)
    requires Undelimited(m)
    ensures Undelimited(Turn(m, [c]).0)
    ensures Turn(m, [c]).1 == "" || (Turn(m, [c]).1 == [c] && Rank(Turn(m, [c]).0.state) < Rank(m.state))
  {
    hide IndexOf;
    IndexOfUnfold([c], Delimiter(m.state));
    IndexOfUnfold("", Delimiter(m.state));
    assert [c][1..] == "" && [c][..0] == "";
    if ReadsText(m.state) && !(m.state == Key && c == '\r') {
      CollectKeepsUndelimited(m, c);
    }
  }

  lemma CollectKeepsUndelimited(m: Machine, c: char)
    requires Undelimited(m) && ReadsText(m.state)
    ensures c != Delimiter(m.state) && !(m.state == Key && c == '\r') ==> Undelimited(Collect(m, [c]))
    ensures Undelimited(Finish(Collect(m, "")))
  {
    hide PushableRequest;
    assert Collect(m, "") == m by {
      assert m.result.verb + "" == m.result.verb && m.result.path + "" == m.result.path;
      assert m.result.version + "" == m.result.version && m.key + "" == m.key && m.value + "" == m.value;
    }
  }

  lemma {:induction false} FeedKeepsUndelimited(m: Machine, c: char)
    requires Undelimited(m)
    ensures Undelimited(Feed(m, [c]))
    decreases Rank(m.state)
  {
    hide Undelimited, Turn, Feed;
    TurnKeepsUndelimited(m, c);
    FeedUnfold(m, [c]);
    var (m1, rest) := Turn(m, [c]);
    if rest == "" {
      NothingFed(m1);
    } else {
      FeedKeepsUndelimited(m1, c);
    }
  }

  /** A text in chunks of one character. */
  function Singles(s: string): (chunks: seq<string>)
    ensures Joined(chunks) == s
  {
    if s == "" then [] else
      assert ([[s[0]]] + Singles(s[1..]))[1..] == Singles(s[1..]);
      [[s[0]]] + Singles(s[1..])
  }

  lemma {:induction false} SinglesKeepUndelimited(m: Machine, s: string)
    requires Undelimited(m)
    ensures Undelimited(FeedAll(m, Singles(s)))
    decreases |s|
  {
    hide Undelimited, Feed;
    if s != "" {
      FeedKeepsUndelimited(m, s[0]);
      SinglesKeepUndelimited(Feed(m, [s[0]]), s[1..]);
      assert Singles(s)[0] == [s[0]] && Singles(s)[1..] == Singles(s[1..]);
    }
  }

  /** Fed its printed form in any chunks, the parser passes on exactly this request. */
  ghost predicate ReadInAnyChunks(r: Request) {
    forall chunks: seq<string> :: Joined(chunks) == RequestText(r) ==> FeedAll(Fresh([]), chunks) == Fresh([r])
  }

  /** Exactly the pushable requests come through in whatever chunks they are sent. */
  lemma {:induction false} PushableIff(r: Request)
    ensures PushableRequest(r) <==> ReadInAnyChunks(r)
  {
    hide PushableRequest, FeedAll, Joined, RequestText, Singles;
    if PushableRequest(r) {
      forall chunks: seq<string> | Joined(chunks) == RequestText(r)
        ensures FeedAll(Fresh([]), chunks) == Fresh([r])
      {
        OneRequestText(r);
        PushParserReadsRequests([r], chunks);
      }
    }
    if ReadInAnyChunks(r) {
      SinglesKeepUndelimited(Fresh([]), RequestText(r));
      var m := FeedAll(Fresh([]), Singles(RequestText(r)));
      assert m == Fresh([r]) && m.out[0] == r;
    }
  }

  lemma OneRequestText(r: Request)
    ensures RequestTexts([r]) == RequestText(r)
  {
    hide RequestText;
    assert RequestTexts([r][1..]) == "";
  }

  // ---------------------------------------------------------------- repeated keys

  /** The value of the first field with a key. */
  function FirstValue(fields: seq<(string, string)>, key: string): Option<string> {
    if fields == [] then None
    else if fields[0].0 == key then Some(fields[0].1)
    else FirstValue(fields[1..], key)
  }

  lemma {:induction false} FirstWinsAt(seen: map<string, string>, fields: seq<(string, string)>, key: string)
    ensures Lookup(FirstWins(seen, fields), key) == if key in seen then Some(seen[key]) else FirstValue(fields, key)
    decreases |fields|
  {
    if fields != [] {
      FirstWinsAt(Inserted(seen, fields[0].0, fields[0].1), fields[1..], key);
    }
  }
}
