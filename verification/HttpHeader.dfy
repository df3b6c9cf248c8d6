/** The header fields of HTTP/1.x requests and responses: printing the argument map and reading it back
    (section 3.2 of RFC 7230). */
module HttpHeader {
  import opened CText
  import opened LineSource

  /** A parser either returns a value, or none, or has read past the end of a header line that has no
      byte behind a colon: from there on the behaviour of the program is undefined. */
  datatype Parsed<+T> = Ok(value: T) | Nothing | Undefined

  // ---------------------------------------------------------------- the order of std::map

  predicate LexLeq(a: string, b: string) {
    a == "" || (b != "" && (a[0] < b[0] || (a[0] == b[0] && LexLeq(a[1..], b[1..]))))
  }

  lemma {:induction false} LexTotal(a: string, b: string)
    ensures LexLeq(a, b) || LexLeq(b, a)
    ensures LexLeq(a, b) && LexLeq(b, a) ==> a == b
  {
    if a != "" && b != "" && a[0] == b[0] {
      LexTotal(a[1..], b[1..]);
      assert a == [a[0]] + a[1..] && b == [b[0]] + b[1..];
    }
  }

  lemma {:induction false} LexTransitive(a: string, b: string, c: string)
    requires LexLeq(a, b) && LexLeq(b, c)
    ensures LexLeq(a, c)
  {
    if a != "" && a[0] == b[0] == c[0] {
      LexTransitive(a[1..], b[1..], c[1..]);
    }
  }

  predicate IsLeast(k: string, keys: set<string>) {
    k in keys && forall x :: x in keys ==> LexLeq(k, x)
  }

  lemma {:induction false} LeastExists(keys: set<string>) returns (k: string)
    requires keys != {}
    ensures IsLeast(k, keys)
    decreases |keys|
  {
    var x :| x in keys;
    LexTotal(x, x);
    if keys == {x} {
      return x;
    }
    var y := LeastExists(keys - {x});
    LexTotal(x, y);
    k := if LexLeq(x, y) then x else y;
    forall z | z in keys
      ensures LexLeq(k, z)
    {
      if z != x {
        assert LexLeq(y, z);
        if k == x {
          LexTransitive(x, y, z);
        }
      }
    }
  }

  lemma SomeLeast(keys: set<string>)
    requires keys != {}
    ensures exists k :: IsLeast(k, keys)
  {
    var k := LeastExists(keys);
  }

  ghost function Least(keys: set<string>): (k: string)
    requires keys != {}
    ensures IsLeast(k, keys)
  {
    SomeLeast(keys);
    var k :| IsLeast(k, keys);
    k
  }

  lemma LeastIsUnique(k: string, keys: set<string>)
    requires IsLeast(k, keys)
    ensures k == Least(keys)
  {
    LexTotal(k, Least(keys));
  }

  // ---------------------------------------------------------------- printing

  function HeaderLine(key: string, value: string): string {
    key + ": " + value + "\r\n"
  }

  /** One line per entry, in the order of the keys. */
  ghost function HeaderText(arguments: map<string, string>): string
    decreases |arguments|
  {
    if |arguments| == 0 then ""
    else
      var k := Least(arguments.Keys);
      HeaderLine(k, arguments[k]) + HeaderText(arguments - {k})
  }

  method FinishLine(out: Sink)
    modifies out
    ensures out.text == old(out.text) + "\r\n"
  {
    out.Put("\r\n");
  }

  /** generate_header */
  method GenerateHeader(out: Sink, key: string, value: string)
    modifies out
    ensures out.text == old(out.text) + HeaderLine(key, value)
  {
    out.Put(key);
    out.Put(": ");
    out.Put(value);
    FinishLine(out);
  }

  lemma HeaderTextUnfold(arguments: map<string, string>)
    ensures HeaderText(arguments) ==
            if |arguments| == 0 then ""
            else
              var k := Least(arguments.Keys);
              HeaderLine(k, arguments[k]) + HeaderText(arguments - {k})
  {
    hide HeaderLine;
  }

  /** generate_header_map */
  method GenerateHeaderMap(out: Sink, arguments: map<string, string>)
    modifies out
    ensures out.text == old(out.text) + HeaderText(arguments)
  {
    hide HeaderText, HeaderLine, IsLeast;
    var left := arguments;
    while |left| > 0
      invariant out.text + HeaderText(left) == old(out.text) + HeaderText(arguments)
      decreases |left|
    {
      ghost var before := out.text;
      ghost var w := LeastExists(left.Keys);
      var key :| key in left && IsLeast(key, left.Keys);
      LeastIsUnique(key, left.Keys);
      HeaderTextUnfold(left);
      GenerateHeader(out, key, left[key]);
      Regroup(before, HeaderLine(key, left[key]), HeaderText(left - {key}));
      left := left - {key};
    }
    HeaderTextUnfold(left);
  }

  // ---------------------------------------------------------------- reading

  /** The loop of both parsers over the header lines: a repeated key keeps its last value. */
  function ParseHeaders(s: string, arguments: map<string, string>): (Parsed<map<string, string>>, string)
    decreases |s|
  {
    match NextLine(s)
    case Tail(_) => (Nothing, "")
    case Line(line, rest) =>
      if line == "" then (Ok(arguments), rest)
      else
        match SplitValue(line)
        case None => (Undefined, rest)
        case Some((key, value)) => ParseHeaders(rest, arguments[key := value])
  }

  method ReadHeaders(source: CharSource) returns (r: Parsed<map<string, string>>)
    modifies source
    ensures (r, source.rest) == ParseHeaders(old(source.rest), map[])
  {
    var arguments: map<string, string> := map[];
    ghost var whole := ParseHeaders(source.rest, map[]);
    while true
      invariant ParseHeaders(source.rest, arguments) == whole
      decreases |source.rest|
    {
      var line := GetLine(source);
      if line == None {
        return Nothing;
      }
      if line.value == "" {
        return Ok(arguments);
      }
      var colon := IndexOf(line.value, ':');
      if colon + 1 >= |line.value| {
        return Undefined;
      }
      var name, value := SplitValueLine(line.value);
      arguments := arguments[name := value];
    }
  }

  // ---------------------------------------------------------------- round trip

  predicate GoodKey(key: string) {
    ':' !in key && '\r' !in key && '\n' !in key
  }

  /** The argument maps that can be sent: a value may hold anything but a LF, and a CR only at its end. */
  predicate GoodArguments(arguments: map<string, string>) {
    forall k :: k in arguments ==> GoodKey(k) && Sendable(arguments[k])
  }

  lemma SplitHeaderLine(key: string, value: string)
    requires GoodKey(key) && Sendable(value)
    ensures Sendable(key + ": " + value)
    ensures SplitValue(key + ": " + value) == Some((key, value))
  {
    var line := key + ": " + value;
    assert line[..|key|] == key;
    IndexOfIs(line, ':', |key|);
    assert line[|key| + 2..] == value;
    forall i | 0 <= i < |line| - 1
      ensures line[i] != '\r'
    {
      if i < |key| {
        assert line[i] in key;
      } else if i >= |key| + 2 {
        assert line[i] == value[i - |key| - 2];
      }
    }
  }

  lemma ParseHeaderLine(key: string, value: string, rest: string, seen: map<string, string>)
    requires GoodKey(key) && Sendable(value)
    ensures ParseHeaders(HeaderLine(key, value) + rest, seen) == ParseHeaders(rest, seen[key := value])
  {
    var line := key + ": " + value;
    SplitHeaderLine(key, value);
    LineRoundTrip(line, rest);
    assert HeaderLine(key, value) + rest == line + "\r\n" + rest;
  }

  /** Reading the printed map adds all its entries, and stops right behind the empty line. */
  lemma {:induction false} HeadersRoundTrip(arguments: map<string, string>, seen: map<string, string>, body: string)
    requires GoodArguments(arguments)
    ensures ParseHeaders(HeaderText(arguments) + "\r\n" + body, seen) == (Ok(seen + arguments), body)
    decreases |arguments|
  {
    if |arguments| == 0 {
      assert "" + "\r\n" + body == "\r\n" + body;
      assert seen + arguments == seen;
    } else {
      var k := Least(arguments.Keys);
      var left := arguments - {k};
      var rest := HeaderText(left) + "\r\n" + body;
      RegroupFour(HeaderLine(k, arguments[k]), HeaderText(left), "\r\n", body);
      ParseHeaderLine(k, arguments[k], rest, seen);
      HeadersRoundTrip(left, seen[k := arguments[k]], body);
      AddOneByOne(seen, arguments, k);
    }
  }

  lemma AddOneByOne(seen: map<string, string>, arguments: map<string, string>, k: string)
    requires k in arguments
    ensures seen[k := arguments[k]] + (arguments - {k}) == seen + arguments
  {
  }

  /** Reading headers looks at nothing behind the empty line. */
  lemma {:induction false} ParseHeadersFrame(s: string, seen: map<string, string>, x: string)
    requires ParseHeaders(s, seen).0.Ok?
    ensures var (r, rest) := ParseHeaders(s, seen);
            && |rest| <= |s| && s[|s| - |rest|..] == rest
            && ParseHeaders(s[..|s| - |rest|] + x, seen) == (r, x)
    decreases |s|
  {
    hide NextLine, SplitValue;
    var l := NextLine(s);
    NextLineFrame(s, x);
    if l.text != "" {
      var (key, value) := SplitValue(l.text).value;
      ParseHeadersFrame(l.rest, seen[key := value], x);
      var k := |l.rest| - |ParseHeaders(s, seen).1|;
      var n := |s| - |l.rest|;
      NextLineFrame(s, l.rest[..k] + x);
      assert s[..n + k] + x == s[..n] + (l.rest[..k] + x);
    }
  }

  // ---------------------------------------------------------------- what is read from clean text

  lemma {:induction false} CleanLine(s: string)
    requires NoLoneCr(s)
    ensures var l := NextLine(s);
            '\r' !in l.text && '\n' !in l.text && (l.Line? ==> NoLoneCr(l.rest))
  {
    if s != "" {
      assert forall i :: 0 <= i < |s[1..]| ==> s[1..][i] == s[i + 1];
      if s[0] == '\r' {
        assert forall i :: 0 <= i < |s[2..]| ==> s[2..][i] == s[i + 2];
      } else if s[0] != '\n' {
        CleanLine(s[1..]);
      }
    }
  }

  /** A text without CR and LF can be sent. */
  lemma CleanIsSendable(s: string)
    requires '\r' !in s && '\n' !in s
    ensures Sendable(s)
  {
  }

  /** From a text without lone CRs only arguments are read that can be sent again. */
  lemma {:induction false} ParsedArgumentsAreGood(s: string, seen: map<string, string>)
    requires NoLoneCr(s) && GoodArguments(seen)
    ensures var (r, rest) := ParseHeaders(s, seen); r.Ok? ==> GoodArguments(r.value)
    decreases |s|
  {
    CleanLine(s);
    var l := NextLine(s);
    if l.Line? && l.text != "" && SplitValue(l.text).Some? {
      var (key, value) := SplitValue(l.text).value;
      assert forall c :: c in key || c in value ==> c in l.text;
      CleanIsSendable(value);
      ParsedArgumentsAreGood(l.rest, seen[key := value]);
    }
  }

  // ---------------------------------------------------------------- repeated keys

  function FieldText(fields: seq<(string, string)>): string {
    if fields == [] then "" else HeaderLine(fields[0].0, fields[0].1) + FieldText(fields[1..])
  }

  /** The map that keeps the last value of every key. */
  function LastWins(seen: map<string, string>, fields: seq<(string, string)>): map<string, string>
    decreases |fields|
  {
    if fields == [] then seen else LastWins(seen[fields[0].0 := fields[0].1], fields[1..])
  }

  /** The value of the last field with a key. */
  function LastValue(fields: seq<(string, string)>, key: string): Option<string> {
    if fields == [] then None
    else
      match LastValue(fields[1..], key)
      case Some(v) => Some(v)
      case None => if fields[0].0 == key then Some(fields[0].1) else None
  }

  function Lookup(m: map<string, string>, key: string): Option<string> {
    if key in m then Some(m[key]) else None
  }

  lemma {:induction false} LastWinsAt(seen: map<string, string>, fields: seq<(string, string)>, key: string)
    ensures Lookup(LastWins(seen, fields), key)
            == if LastValue(fields, key).Some? then LastValue(fields, key) else Lookup(seen, key)
    decreases |fields|
  {
    if fields != [] {
      LastWinsAt(seen[fields[0].0 := fields[0].1], fields[1..], key);
    }
  }

  lemma NothingSeen(key: string)
    ensures Lookup(map[], key) == None
  {
  }

  /** Both parsers keep the last value of a key. */
  lemma {:induction false} PullKeepsLast(fields: seq<(string, string)>, seen: map<string, string>, body: string)
    requires forall i :: 0 <= i < |fields| ==> GoodKey(fields[i].0) && Sendable(fields[i].1)
    ensures ParseHeaders(FieldText(fields) + "\r\n" + body, seen) == (Ok(LastWins(seen, fields)), body)
    decreases |fields|
  {
    if fields == [] {
      assert "" + "\r\n" + body == "\r\n" + body;
    } else {
      hide HeaderLine, ParseHeaders;
      var (key, value) := fields[0];
      var rest := FieldText(fields[1..]) + "\r\n" + body;
      RegroupFour(HeaderLine(key, value), FieldText(fields[1..]), "\r\n", body);
      ParseHeaderLine(key, value, rest, seen);
      PullKeepsLast(fields[1..], seen[key := value], body);
    }
  }
}
