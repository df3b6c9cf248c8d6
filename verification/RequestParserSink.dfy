/** The push parser for HTTP requests: it is fed chunks of text and passes on every request it has seen
    completely. */
module RequestParserSink {
  import opened CText
  import opened HttpHeader
  import opened HttpRequest

  datatype State = Verb | Path | Version | VersionLf | Key | ValueSpace | Value | ValueLf | EndLf

  const EMPTY_REQUEST := Request("", "", "", map[])

  /** The members of the sink, and the requests passed on so far. */
  datatype Machine = Machine(state: State, result: Request, key: string, value: string, out: seq<Request>)

  /** std::map::insert keeps an entry that is already there. */
  function Inserted(arguments: map<string, string>, key: string, value: string): map<string, string> {
    if key in arguments then arguments else arguments[key := value]
  }

  /** The character that ends the text read in a state. */
  function Delimiter(state: State): char {
    match state
    case Verb | Path => ' '
    case Key => ':'
    case _ => '\r'
  }

  predicate ReadsText(state: State) {
    state == Verb || state == Path || state == Version || state == Key || state == Value
  }

  /** Text read in a state is appended to its buffer. */
  function Collect(m: Machine, s: string): Machine
    requires ReadsText(m.state)
  {
    match m.state
    case Verb => m.(result := m.result.(verb := m.result.verb + s))
    case Path => m.(result := m.result.(path := m.result.path + s))
    case Version => m.(result := m.result.(version := m.result.version + s))
    case Key => m.(key := m.key + s)
    case Value => m.(value := m.value + s)
  }

  /** What the delimiter does behind the text of a state. */
  function Finish(m: Machine): Machine
    requires ReadsText(m.state)
  {
    match m.state
    case Verb => m.(state := Path)
    case Path => m.(state := Version)
    case Version => m.(state := VersionLf)
    case Key => m.(state := ValueSpace)
    case Value =>
      m.(state := ValueLf, result := m.result.(arguments := Inserted(m.result.arguments, m.key, m.value)), key := "", value := "")
  }

  /** The optional character of the other states, and the state behind it. */
  function Optional(state: State): char {
    if state == ValueSpace then ' ' else '\n'
  }

  function Following(state: State): State {
    match state
    case ValueSpace => Value
    case EndLf => Verb
    case _ => Key
  }

  /** The end of the header: the request is passed on, and the next one starts empty. */
  function Emit(m: Machine): Machine {
    m.(state := EndLf, result := EMPTY_REQUEST, out := m.out + [m.result])
  }

  /** One turn of the loop of append, on what is left of a chunk. */
  function Turn(m: Machine, data: string): (Machine, string)
    requires data != ""
  {
    if m.state == Key && data[0] == '\r' then (Emit(m), data[1..])
    else if ReadsText(m.state) then
      var n := IndexOf(data, Delimiter(m.state));
      if n == |data| then (Collect(m, data), "") else (Finish(Collect(m, data[..n])), data[n + 1..])
    else (m.(state := Following(m.state)), if data[0] == Optional(m.state) then data[1..] else data)
  }

  function Rank(state: State): nat {
    if ReadsText(state) then 0 else 1
  }

  /** append: one chunk of text. */
  function Feed(m: Machine, data: string): Machine
    decreases |data|, Rank(m.state)
  {
    if data == "" then m
    else
      var (m1, rest) := Turn(m, data);
      Feed(m1, rest)
  }

  /** append, when the output reports an error for the requests with the numbers `fails`: such an error is
      returned at once, and what is left of the chunk is not looked at. */
  function FeedUntil(m: Machine, data: string, fails: set<nat>): (Machine, bool)
    decreases |data|, Rank(m.state)
  {
    if data == "" then (m, false)
    else
      var (m1, rest) := Turn(m, data);
      if Emits(m, data) && |m.out| in fails then (m1, true) else FeedUntil(m1, rest, fails)
  }

  /** The turn that passes on a request. */
  predicate Emits(m: Machine, data: string) {
    m.state == Key && data != "" && data[0] == '\r'
  }

  /** Without errors the whole chunk is taken in. */
  lemma {:induction false} FeedUntilNoError(m: Machine, data: string)
    ensures FeedUntil(m, data, {}) == (Feed(m, data), false)
    decreases |data|, Rank(m.state)
  {
    if data != "" {
      var (m1, rest) := Turn(m, data);
      FeedUntilNoError(m1, rest);
    }
  }

  /** An error is returned for the first request that fails, and for no other; the sink is then behind that
      request, with an empty one begun. A key of which something was collected stays: see KeyStaysBehind. */
  lemma {:induction false} FeedUntilError(m: Machine, data: string, fails: set<nat>)
    ensures var (m1, error) := FeedUntil(m, data, fails);
            && |m.out| <= |m1.out|
            && (forall n :: |m.out| <= n < (if error then |m1.out| - 1 else |m1.out|) ==> n !in fails)
            && (error ==> |m.out| < |m1.out| && |m1.out| - 1 in fails && m1.state == EndLf && m1.result == EMPTY_REQUEST)
    decreases |data|, Rank(m.state)
  {
    if data != "" {
      hide IndexOf;
      var (m1, rest) := Turn(m, data);
      assert |m1.out| == |m.out| + if Emits(m, data) then 1 else 0;
      FeedUntilError(m1, rest, fails);
    }
  }

  /** A CR that starts a chunk inside a key ends the request, and what was collected of the key is left for the
      first key of the next one. */
  lemma KeyStaysBehind(m: Machine, fails: set<nat>)
    requires m.state == Key
    ensures FeedUntil(m, "\r", fails) == (Machine(EndLf, EMPTY_REQUEST, m.key, m.value, m.out + [m.result]), |m.out| in fails)
  {
    assert "\r"[1..] == "";
    assert Turn(m, "\r") == (Emit(m), "");
  }

  function FeedAll(m: Machine, chunks: seq<string>): Machine
    decreases chunks
  {
    if chunks == [] then m else FeedAll(Feed(m, chunks[0]), chunks[1..])
  }

  function Joined(chunks: seq<string>): string {
    if chunks == [] then "" else chunks[0] + Joined(chunks[1..])
  }

  class RequestParser {
    var state: State
    var result: Request
    var key: string
    var value: string
    var out: seq<Request>

    ghost function View(): Machine
      reads this
    {
      Machine(state, result, key, value, out)
    }

    constructor ()
      ensures View() == Machine(Verb, EMPTY_REQUEST, "", "", [])
    {
      state, result, key, value, out := Verb, EMPTY_REQUEST, "", "", [];
    }

    /** The states that read up to a delimiter. */
    method TextTurn(data: string) returns (rest: string)
      requires data != "" && ReadsText(state) && !(state == Key && data[0] == '\r')
      modifies this
      ensures (View(), rest) == Turn(old(View()), data)
    {
      hide IndexOf;
      var n := Find(data, 0, Delimiter(state));
      assert data[0..] == data;
      match state {
        case Verb => result := result.(verb := result.verb + data[..n]);
        case Path => result := result.(path := result.path + data[..n]);
        case Version => result := result.(version := result.version + data[..n]);
        case Key => key := key + data[..n];
        case Value => value := value + data[..n];
      }
      if n == |data| {
        assert data[..n] == data;
        return "";
      }
      rest := data[n + 1..];
      match state {
        case Verb => state := Path;
        case Path => state := Version;
        case Version => state := VersionLf;
        case Key => state := ValueSpace;
        case Value =>
          if key !in result.arguments {
            result := result.(arguments := result.arguments[key := value]);
          }
          key, value, state := "", "", ValueLf;
      }
    }

    /** append, on an output that reports an error for the requests with the numbers `fails`. */
    method Append(data: string, fails: set<nat>) returns (error: bool)
      modifies this
      ensures (View(), error) == FeedUntil(old(View()), data, fails)
    {
      hide IndexOf, Collect, Finish;
      var left := data;
      while left != ""
        invariant FeedUntil(View(), left, fails) == FeedUntil(old(View()), data, fails)
        decreases |left|, Rank(state)
      {
        if state == Key && left[0] == '\r' {
          left := left[1..];
          state := EndLf;
          error := |out| in fails;
          out := out + [result];
          result := EMPTY_REQUEST;
          if error {
            return true;
          }
        } else if ReadsText(state) {
          left := TextTurn(left);
        } else {
          if left[0] == Optional(state) {
            left := left[1..];
          }
          state := Following(state);
        }
      }
      return false;
    }
  }

  // ---------------------------------------------------------------- when chunking does not matter

  /** In the whole text as one chunk, no CR is taken into a key. */
  predicate Clean(m: Machine, data: string)
    decreases |data|, Rank(m.state)
  {
    data == "" ||
    (&& (m.state == Key && data[0] != '\r' ==> '\r' !in data[..IndexOf(data, ':')])
     && Clean(Turn(m, data).0, Turn(m, data).1))
  }

  lemma FeedUnfold(m: Machine, data: string)
    requires data != ""
    ensures Feed(m, data) == Feed(Turn(m, data).0, Turn(m, data).1)
  {
    hide Turn;
  }

  lemma NothingFed(m: Machine)
    ensures Feed(m, "") == m && Clean(m, "")
  {
  }

  /** The condition that a clean text meets at every turn. */
  predicate KeyHasNoCr(state: State, data: string) {
    state == Key && data != "" && data[0] != '\r' ==> '\r' !in data[..IndexOf(data, ':')]
  }

  lemma CleanUnfold(m: Machine, data: string)
    requires data != ""
    ensures Clean(m, data) <==> KeyHasNoCr(m.state, data) && Clean(Turn(m, data).0, Turn(m, data).1)
  {
    hide Turn, IndexOf;
  }

  /** A turn that leaves something of its chunk does the same in a longer chunk. */
  lemma TurnInLonger(m: Machine, a: string, b: string)
    requires a != "" && Turn(m, a).1 != ""
    ensures Turn(m, a + b) == (Turn(m, a).0, Turn(m, a).1 + b)
  {
    hide IndexOf, Collect, Finish;
    assert (a + b)[0] == a[0];
    if m.state == Key && a[0] == '\r' {
      assert (a + b)[1..] == a[1..] + b;
    } else if ReadsText(m.state) {
      DelimiterInLonger(a, b, Delimiter(m.state));
    } else {
      assert (a + b)[1..] == a[1..] + b;
    }
  }

  lemma DelimiterInLonger(a: string, b: string, c: char)
    ensures var n := IndexOf(a, c);
            if n < |a| then IndexOf(a + b, c) == n && (a + b)[..n] == a[..n] && (a + b)[n + 1..] == a[n + 1..] + b
            else IndexOf(a + b, c) == |a| + IndexOf(b, c)
  {
    hide IndexOf;
    var n, k := IndexOf(a, c), IndexOf(b, c);
    if n < |a| {
      assert (a + b)[..n] == a[..n];
      IndexOfIs(a + b, c, n);
    } else {
      assert (a + b)[..|a| + k] == a + b[..k];
      assert a[..n] == a;
      IndexOfIs(a + b, c, |a| + k);
    }
  }

  lemma {:induction false} CollectTwice(m: Machine, s: string, t: string)
    requires ReadsText(m.state)
    ensures Collect(m, s).state == m.state && Collect(Collect(m, s), t) == Collect(m, s + t)
  {
    match m.state
    case Verb => assert m.result.verb + s + t == m.result.verb + (s + t);
    case Path => assert m.result.path + s + t == m.result.path + (s + t);
    case Version => assert m.result.version + s + t == m.result.version + (s + t);
    case Key => assert m.key + s + t == m.key + (s + t);
    case Value => assert m.value + s + t == m.value + (s + t);
  }

  /** Whether a turn reads the text of a state up to its delimiter. */
  predicate InText(m: Machine, data: string) {
    data != "" && ReadsText(m.state) && !(m.state == Key && data[0] == '\r')
  }

  lemma TextTurnIs(m: Machine, data: string)
    requires InText(m, data)
    ensures var n := IndexOf(data, Delimiter(m.state));
            Turn(m, data) ==
            if n == |data| then (Collect(m, data), "") else (Finish(Collect(m, data[..n])), data[n + 1..])
  {
    hide IndexOf, Collect, Finish;
  }

  /** A chunk used up within the text of a state can be cut anywhere, unless a CR starts the second part
      of a key. */
  lemma TurnCutInText(m: Machine, a: string, b: string)
    requires InText(m, a) && b != "" && !(m.state == Key && b[0] == '\r')
    requires IndexOf(a, Delimiter(m.state)) == |a|
    ensures Turn(m, a) == (Collect(m, a), "")
    ensures Turn(m, a + b) == Turn(Collect(m, a), b)
  {
    hide IndexOf, Collect, Finish, Turn, Delimiter;
    var c := Delimiter(m.state);
    var k := IndexOf(b, c);
    CollectTwice(m, a, b[..k]);
    DelimiterInLonger(a, b, c);
    CutParts(a, b, k);
    TextTurnIs(m, a);
    TextTurnIs(m, a + b);
    TextTurnIs(Collect(m, a), b);
  }

  lemma CutParts(a: string, b: string, k: nat)
    requires a != "" && k <= |b|
    ensures (a + b)[0] == a[0] && (a + b)[..|a| + k] == a + b[..k]
    ensures k == |b| ==> b[..k] == b
    ensures k < |b| ==> (a + b)[|a| + k + 1..] == b[k + 1..]
  {
  }

  /** A turn that uses up its chunk by its last character does the same in a longer chunk. */
  lemma TurnDone(m: Machine, a: string, b: string)
    requires a != "" && b != "" && Turn(m, a).1 == ""
    requires !(InText(m, a) && IndexOf(a, Delimiter(m.state)) == |a|)
    ensures Turn(m, a + b) == (Turn(m, a).0, b)
  {
    hide IndexOf, Collect, Finish, Delimiter;
    assert (a + b)[0] == a[0];
    if InText(m, a) {
      TextTurnIs(m, a);
      TextTurnIs(m, a + b);
      DelimiterInLonger(a, b, Delimiter(m.state));
      var n := IndexOf(a, Delimiter(m.state));
      assert a[n + 1..] + b == b;
    } else {
      assert |a| == 1 && (a + b)[1..] == b;
    }
  }

  /** Cutting a clean chunk in two makes no difference, and both parts are clean. */
  lemma {:induction false} FeedInTwoParts(m: Machine, a: string, b: string)
    requires Clean(m, a + b)
    ensures Feed(m, a + b) == Feed(Feed(m, a), b)
    ensures Clean(m, a) && Clean(Feed(m, a), b)
    decreases |a|, Rank(m.state)
  {
    hide Feed, Clean, Turn, Collect, Finish, IndexOf, KeyHasNoCr;
    if a == "" {
      NothingFed(m);
      assert a + b == b;
    } else if b == "" {
      NothingFed(Feed(m, a));
      assert a + b == a;
    } else {
      FeedUnfold(m, a);
      FeedUnfold(m, a + b);
      CleanUnfold(m, a);
      CleanUnfold(m, a + b);
      KeyCut(m, a, b);
      var (m1, rest) := Turn(m, a);
      if rest != "" {
        TurnInLonger(m, a, b);
        TurnShrinks(m, a);
        FeedInTwoParts(m1, rest, b);
      } else {
        NothingFed(m1);
        if InText(m, a) && IndexOf(a, Delimiter(m.state)) == |a| {
          TurnCutInText(m, a, b);
          FeedUnfold(m1, b);
          CleanUnfold(m1, b);
          CollectTwice(m, a, b);
        } else {
          TurnDone(m, a, b);
        }
      }
    }
  }

  /** The key of a clean text can be cut, and no part of it starts with a CR. */
  lemma KeyCut(m: Machine, a: string, b: string)
    requires a != "" && b != "" && KeyHasNoCr(m.state, a + b)
    ensures KeyHasNoCr(m.state, a)
    ensures InText(m, a) && IndexOf(a, Delimiter(m.state)) == |a| ==> KeyHasNoCr(m.state, b) && !(m.state == Key && b[0] == '\r')
  {
    hide IndexOf;
    assert (a + b)[0] == a[0];
    if m.state == Key && a[0] != '\r' {
      KeySegments(a, b);
    }
  }

  lemma KeySegments(a: string, b: string)
    requires b != "" && '\r' !in (a + b)[..IndexOf(a + b, ':')]
    ensures '\r' !in a[..IndexOf(a, ':')]
    ensures IndexOf(a, ':') == |a| ==> '\r' !in b[..IndexOf(b, ':')] && b[0] != '\r'
  {
    hide IndexOf;
    DelimiterInLonger(a, b, ':');
    if IndexOf(a, ':') == |a| {
      NoCrInParts(a, b, IndexOf(b, ':'));
      IndexOfUnfold(b, ':');
    }
  }

  lemma NoCrInParts(a: string, b: string, k: nat)
    requires k <= |b| && '\r' !in (a + b)[..|a| + k]
    ensures '\r' !in a && a[..|a|] == a && '\r' !in b[..k] && (k > 0 ==> b[0] != '\r')
  {
    var key := (a + b)[..|a| + k];
    assert key == a + b[..k];
    assert forall c :: c in a || c in b[..k] ==> c in key;
    assert k > 0 ==> b[0] in b[..k];
  }

  lemma TurnShrinks(m: Machine, a: string)
    requires a != ""
    ensures var (m1, rest) := Turn(m, a);
            && (|rest| < |a| || (|rest| == |a| && Rank(m1.state) < Rank(m.state)))
            && a[..|a| - |rest|] + rest == a
  {
    hide IndexOf, Collect, Finish;
  }

  // ---------------------------------------------------------------- when chunking matters

  /** The first part of a turn is all that decides it. */
  lemma TurnOnPrefix(m: Machine, data: string, y: string)
    requires data != "" && y != ""
    requires var rest := Turn(m, data).1; rest != "" && y <= rest && |rest| <= |data|
    ensures var (m1, rest) := Turn(m, data); Turn(m, data[..|data| - |rest|] + y) == (m1, y)
  {
    hide Turn, InText;
    var rest := Turn(m, data).1;
    var head := data[..|data| - |rest|];
    if InText(m, data) {
      TextTurnOnPrefix(m, data, y, head);
    } else {
      OtherTurnOnPrefix(m, data, y, head);
    }
  }

  lemma TextTurnOnPrefix(m: Machine, data: string, y: string, head: string)
    requires InText(m, data) && y != ""
    requires Turn(m, data).1 != "" && |Turn(m, data).1| <= |data| && head == data[..|data| - |Turn(m, data).1|]
    ensures Turn(m, head + y) == (Turn(m, data).0, y)
  {
    hide IndexOf, Collect, Finish, Delimiter, Turn;
    var c := Delimiter(m.state);
    var n := IndexOf(data, c);
    TextTurnIs(m, data);
    DelimiterOnPrefix(data, c, head, y);
    TextTurnIs(m, head + y);
  }

  lemma DelimiterOnPrefix(data: string, c: char, head: string, y: string)
    requires IndexOf(data, c) < |data| && head == data[..IndexOf(data, c) + 1]
    ensures var n, s := IndexOf(data, c), head + y;
            s != "" && s[0] == data[0] && IndexOf(s, c) == n < |s| && s[..n] == data[..n] && s[n + 1..] == y
  {
    hide IndexOf;
    var n, s := IndexOf(data, c), head + y;
    assert s[..n] == data[..n] && s[n] == data[n] == c;
    IndexOfIs(s, c, n);
  }

  lemma OtherTurnOnPrefix(m: Machine, data: string, y: string, head: string)
    requires data != "" && !InText(m, data) && y != "" && Turn(m, data).1 != "" && y <= Turn(m, data).1
    requires |Turn(m, data).1| <= |data| && head == data[..|data| - |Turn(m, data).1|]
    ensures Turn(m, head + y) == (Turn(m, data).0, y)
  {
    hide IndexOf, Collect, Finish, Delimiter;
    var rest := Turn(m, data).1;
    assert data == head + rest && (head + y)[0] == data[0];
    assert head == "" || (head + y)[1..] == y;
    assert head == "" ==> head + y == y;
  }

  /** A text that is not clean has a place where cutting it changes the result. */
  lemma {:induction false} UncleanCut(m: Machine, data: string) returns (a: string)
    requires !Clean(m, data)
    ensures a != "" && a + "\r" <= data
    ensures Feed(m, a + "\r") != Feed(Feed(m, a), "\r")
    decreases |data|, Rank(m.state)
  {
    hide Feed, Clean, Turn, Collect, Finish, KeyHasNoCr;
    NothingFed(m);
    CleanUnfold(m, data);
    if !KeyHasNoCr(m.state, data) {
      a := CutBeforeCr(m, data);
    } else {
      var (m1, rest) := Turn(m, data);
      NothingFed(m1);
      TurnShrinks(m, data);
      var tail := UncleanCut(m1, rest);
      var head := data[..|data| - |rest|];
      a := head + tail;
      assert a + "\r" == head + (tail + "\r");
      TurnOnPrefix(m, data, tail);
      TurnOnPrefix(m, data, tail + "\r");
      FeedUnfold(m, head + tail);
      FeedUnfold(m, head + (tail + "\r"));
    }
  }

  lemma CutBeforeCr(m: Machine, data: string) returns (a: string)
    requires data != "" && !KeyHasNoCr(m.state, data)
    ensures a != "" && a + "\r" <= data
    ensures Feed(m, a + "\r") != Feed(Feed(m, a), "\r")
  {
    hide IndexOf, Feed, Turn, Collect;
    var n := IndexOf(data, ':');
    var i :| 0 <= i < n && data[i] == '\r';
    a := data[..i];
    assert a + "\r" == data[..i + 1];
    assert ':' !in a + "\r" by {
      assert forall c :: c in data[..i + 1] ==> c in data[..n];
    }
    KeepsCollecting(m, a);
    KeepsCollecting(m, a + "\r");
    CollectTwice(m, a, "");
    CollectTwice(m, a + "\r", "");
    FeedUnfold(Collect(m, a), "\r");
    EmitsOnCr(Collect(m, a));
  }

  lemma KeepsCollecting(m: Machine, s: string)
    requires m.state == Key && s != "" && s[0] != '\r' && ':' !in s
    ensures Feed(m, s) == Collect(m, s)
  {
    hide IndexOf, Collect;
    assert s[..|s|] == s;
    IndexOfIs(s, ':', |s|);
    TextTurnIs(m, s);
  }

  lemma EmitsOnCr(m: Machine)
    requires m.state == Key
    ensures Turn(m, "\r").1 == "" && Feed(Turn(m, "\r").0, "").state == EndLf
  {
  }

  /** Every prefix of the text has the same effect in one chunk and in any two. */
  ghost predicate ChunkingIsInvisible(m: Machine, data: string) {
    forall a: string, b: string :: a + b <= data ==> Feed(m, a + b) == Feed(Feed(m, a), b)
  }

  /** Chunking makes no difference anywhere in a text if and only if no CR is taken into a key. */
  lemma {:induction false} ChunkingIsInvisibleIffClean(m: Machine, data: string)
    ensures Clean(m, data) <==> ChunkingIsInvisible(m, data)
  {
    hide Feed, Clean;
    if Clean(m, data) {
      forall a: string, b: string | a + b <= data
        ensures Feed(m, a + b) == Feed(Feed(m, a), b)
      {
        var tail := data[|a + b|..];
        assert data == (a + b) + tail;
        FeedInTwoParts(m, a + b, tail);
        FeedInTwoParts(m, a, b);
      }
    } else {
      var a := UncleanCut(m, data);
      assert a + "\r" <= data;
    }
  }

  /** Feeding the chunks of a clean text is feeding the text. */
  lemma {:induction false} FeedChunks(m: Machine, chunks: seq<string>)
    requires Clean(m, Joined(chunks))
    ensures FeedAll(m, chunks) == Feed(m, Joined(chunks))
    decreases |chunks|
  {
    hide Feed, Clean;
    if chunks == [] {
      NothingFed(m);
    } else {
      FeedInTwoParts(m, chunks[0], Joined(chunks[1..]));
      FeedChunks(Feed(m, chunks[0]), chunks[1..]);
    }
  }
}
