/** The line splitter under the HTTP parsers, and the split of a header line at its colon. */
module LineSource {
  import opened CText

  /** A stream that is read one character at a time. */
  class CharSource {
    var rest: string

    constructor (text: string)
      ensures rest == text
    {
      rest := text;
    }

    method Get() returns (c: Option<char>)
      modifies this
      ensures old(rest) == "" ==> c == None && rest == ""
      ensures old(rest) != "" ==> c == Some(old(rest)[0]) && rest == old(rest)[1..]
    {
      if rest == "" {
        return None;
      }
      c := Some(rest[0]);
      rest := rest[1..];
    }
  }

  /** What reading a line from a text finds: a terminated line and what follows it, or, with the text
      used up, a tail without terminator. */
  datatype Line = Line(text: string, rest: string) | Tail(text: string)

  function Prepend(c: char, l: Line): Line {
    match l
    case Line(text, rest) => Line([c] + text, rest)
    case Tail(text) => Tail([c] + text)
  }

  /** A CR that is not followed by LF is kept, and the character behind it is lost. */
  function NextLine(s: string): (l: Line)
    ensures l.Line? ==> |l.rest| < |s|
  {
    if s == "" then Tail("")
    else if s[0] == '\r' then
      if |s| == 1 then Tail("")
      else if s[1] == '\n' then Line("", s[2..])
      else Prepend('\r', NextLine(s[2..]))
    else if s[0] == '\n' then Line("", s[1..])
    else Prepend(s[0], NextLine(s[1..]))
  }

  /** Reading as many lines as there are slots; a slot keeps what it held in front of its line. */
  function CopyLines(slots: seq<string>, s: string): (seq<string>, nat, string) {
    if slots == [] then ([], 0, s)
    else
      match NextLine(s)
      case Tail(t) => ([slots[0] + t] + slots[1..], 0, "")
      case Line(t, rest) =>
        var (more, n, r) := CopyLines(slots[1..], rest);
        ([slots[0] + t] + more, n + 1, r)
  }

  lemma {:induction false} CopyLinesLength(slots: seq<string>, s: string)
    ensures |CopyLines(slots, s).0| == |slots| && CopyLines(slots, s).1 <= |slots|
  {
    if slots != [] {
      var l := NextLine(s);
      if l.Line? {
        CopyLinesLength(slots[1..], l.rest);
      }
    }
  }

  /** The inner loop of copy_next for one slot; `done` when the line was terminated. */
  method CopyLine(source: CharSource, slot: string) returns (line: string, done: bool)
    modifies source
    ensures match NextLine(old(source.rest))
            case Line(t, rest) => done && line == slot + t && source.rest == rest
            case Tail(t) => !done && line == slot + t && source.rest == ""
  {
    hide NextLine;
    line := slot;
    ghost var whole := WithPrefix("", NextLine(source.rest));
    ghost var read := "";
    NoPrefix(NextLine(source.rest));
    assert slot + read == line;
    while true
      invariant line == slot + read
      invariant WithPrefix(read, NextLine(source.rest)) == whole
      decreases |source.rest|
    {
      NextLineUnfold(source.rest);
      assert read + "" == read;
      var c := source.Get();
      if c == None {
        return line, false;
      }
      if c == Some('\r') {
        var lf := source.Get();
        if lf == None {
          return line, false;
        }
        if lf == Some('\n') {
          return line, true;
        }
      }
      if c == Some('\n') {
        return line, true;
      }
      MovePrefix(read, c.value, NextLine(source.rest));
      line := line + [c.value];
      read := read + [c.value];
    }
  }

  function WithPrefix(prefix: string, l: Line): Line {
    match l
    case Line(text, rest) => Line(prefix + text, rest)
    case Tail(text) => Tail(prefix + text)
  }

  lemma NoPrefix(l: Line)
    ensures WithPrefix("", l) == l
  {
    assert "" + l.text == l.text;
  }

  lemma MovePrefix(prefix: string, c: char, l: Line)
    ensures WithPrefix(prefix, Prepend(c, l)) == WithPrefix(prefix + [c], l)
  {
    assert prefix + ([c] + l.text) == prefix + [c] + l.text;
  }

  lemma NextLineUnfold(s: string)
    ensures NextLine(s) ==
            if s == "" then Tail("")
            else if s[0] == '\r' then
              if |s| == 1 then Tail("")
              else if s[1] == '\n' then Line("", s[1..][1..])
              else Prepend('\r', NextLine(s[1..][1..]))
            else if s[0] == '\n' then Line("", s[1..])
            else Prepend(s[0], NextLine(s[1..]))
  {
    if |s| > 1 {
      assert s[1..][1..] == s[2..];
    }
  }

  /** copy_next: the result is the number of slots that hold a whole line. */
  method CopyNext(source: CharSource, destination: array<string>) returns (i: nat)
    modifies source, destination
    ensures i <= destination.Length
    ensures (destination[..], i, source.rest) == old(CopyLines(destination[..], source.rest))
  {
    hide CopyLines, NextLine;
    ghost var slots, text := destination[..], source.rest;
    i := 0;
    NothingCopied(slots, text);
    while i < destination.Length
      invariant i <= destination.Length && |slots| == destination.Length
      invariant Copied(slots, text, destination[..], i, source.rest)
    {
      ghost var at, before := source.rest, destination[..];
      var line, done := CopyLine(source, destination[i]);
      destination[i] := line;
      assert destination[..] == before[i := line];
      OneMoreCopied(slots, text, before, i, at);
      if !done {
        return i;
      }
      i := i + 1;
    }
    AllCopied(slots, text, destination[..], source.rest);
  }

  /** After `i` slots: they are filled, the others untouched, and `rest` is left to read. */
  ghost predicate Copied(slots: seq<string>, text: string, now: seq<string>, i: nat, rest: string) {
    && i <= |slots| == |now| && now[i..] == slots[i..]
    && var (more, n, r) := CopyLines(slots[i..], rest);
       CopyLines(slots, text) == (now[..i] + more, i + n, r)
  }

  lemma NothingCopied(slots: seq<string>, text: string)
    ensures Copied(slots, text, slots, 0, text)
  {
    hide CopyLines;
    assert slots[0..] == slots;
    assert slots[..0] + CopyLines(slots, text).0 == CopyLines(slots, text).0;
  }

  lemma AllCopied(slots: seq<string>, text: string, now: seq<string>, rest: string)
    requires Copied(slots, text, now, |slots|, rest)
    ensures CopyLines(slots, text) == (now, |slots|, rest)
  {
    assert slots[|slots|..] == [] && now[..|slots|] + [] == now;
  }

  lemma OneMoreCopied(slots: seq<string>, text: string, now: seq<string>, i: nat, at: string)
    requires Copied(slots, text, now, i, at) && i < |slots|
    ensures match NextLine(at)
            case Line(t, rest) => Copied(slots, text, now[i := now[i] + t], i + 1, rest)
            case Tail(t) => CopyLines(slots, text) == (now[i := now[i] + t], i, "")
  {
    hide CopyLines, NextLine;
    CopyLinesUnfold(slots, i, at);
    assert now[i] == now[i..][0] == slots[i];
    var l := NextLine(at);
    var x, next := now[i] + l.text, now[i := now[i] + l.text];
    UpdatedSlots(slots, now, i, x);
    if l.Line? {
      Regroup(now[..i], [x], CopyLines(slots[i + 1..], l.rest).0);
    }
  }

  lemma UpdatedSlots(slots: seq<string>, now: seq<string>, i: nat, x: string)
    requires i < |slots| == |now| && now[i..] == slots[i..]
    ensures now[i := x][i + 1..] == slots[i + 1..]
    ensures now[i := x][..i + 1] == now[..i] + [x]
    ensures now[..i] + ([x] + slots[i + 1..]) == now[i := x]
  {
    assert now[i := x][i + 1..] == now[i..][1..] && slots[i + 1..] == slots[i..][1..];
  }

  lemma CopyLinesUnfold(slots: seq<string>, i: nat, at: string)
    requires i < |slots|
    ensures CopyLines(slots[i..], at) ==
            match NextLine(at)
            case Tail(t) => ([slots[i] + t] + slots[i + 1..], 0, "")
            case Line(t, rest) =>
              var (more, n, r) := CopyLines(slots[i + 1..], rest);
              ([slots[i] + t] + more, n + 1, r)
  {
    hide NextLine;
    assert slots[i..][1..] == slots[i + 1..];
  }

  /** get on a line source: one fresh slot. */
  method GetLine(source: CharSource) returns (line: Option<string>)
    modifies source
    ensures match NextLine(old(source.rest))
            case Line(t, rest) => line == Some(t) && source.rest == rest
            case Tail(_) => line == None && source.rest == ""
  {
    var slot := new string[1];
    slot[0] := "";
    assert slot[..] == [""];
    assert "" + NextLine(source.rest).text == NextLine(source.rest).text;
    var i := CopyNext(source, slot);
    if i == 0 {
      return None;
    }
    return Some(slot[0]);
  }

  // ---------------------------------------------------------------- what the lines of a text are

  /** Every CR stands in front of a LF. */
  predicate NoLoneCr(s: string) {
    forall i :: 0 <= i < |s| && s[i] == '\r' ==> i + 1 < |s| && s[i + 1] == '\n'
  }

  /** Without lone CRs a line is what stands in front of the next LF, less a CR. */
  lemma {:induction false} NextLineIsSegment(s: string)
    requires NoLoneCr(s)
    ensures var n := IndexOf(s, '\n');
            NextLine(s) == if n == |s| then Tail(s) else Line(WithoutCr(s[..n]), s[n + 1..])
  {
    hide NextLine, IndexOf, NoLoneCr, WithoutCr;
    NextLineUnfold(s);
    IndexOfUnfold(s, '\n');
    WithoutCrAlone();
    assert s[..0] == "";
    if s != "" && s[0] != '\n' {
      NoLoneCrUnfold(s);
      var tail := s[1..];
      var n := IndexOf(tail, '\n');
      assert s[..n + 1] == [s[0]] + tail[..n];
      if s[0] == '\r' {
        IndexOfUnfold(tail, '\n');
        assert s[..1] == "\r" && s[2..] == tail[1..];
      } else {
        NextLineIsSegment(tail);
        WithoutCrBehind(s[0], tail[..n]);
        if n < |tail| {
          assert s[n + 2..] == tail[n + 1..];
        }
      }
    }
  }

  lemma NoLoneCrUnfold(s: string)
    requires NoLoneCr(s) && s != ""
    ensures s[0] == '\r' ==> |s| > 1 && s[1] == '\n'
    ensures NoLoneCr(s[1..])
  {
    assert forall i :: 0 <= i < |s[1..]| ==> s[1..][i] == s[i + 1];
  }

  lemma WithoutCrAlone()
    ensures WithoutCr("") == "" && WithoutCr("\r") == ""
  {
  }

  lemma WithoutCrBehind(c: char, t: string)
    requires c != '\r'
    ensures WithoutCr([c] + t) == [c] + WithoutCr(t)
  {
    assert t != "" ==> ([c] + t)[..|t|] == [c] + t[..|t| - 1];
  }

  /** Reading a line looks at nothing behind it. */
  lemma {:induction false} NextLineFrame(s: string, x: string)
    requires NextLine(s).Line?
    ensures var n := |s| - |NextLine(s).rest|;
            && 0 < n <= |s| && s[n..] == NextLine(s).rest
            && NextLine(s[..n] + x) == Line(NextLine(s).text, x)
    decreases |s|
  {
    hide NextLine;
    NextLineUnfold(s);
    var n := |s| - |NextLine(s).rest|;
    var t := s[..n] + x;
    NextLineUnfold(t);
    if s[0] == '\n' {
      assert t == "\n" + x;
    } else if s[0] == '\r' && s[1] == '\n' {
      assert t == "\r" + ("\n" + x) && t[1..][1..] == x;
    } else if s[0] == '\r' {
      NextLineFrame(s[1..][1..], x);
      assert t[1..][1..] == s[1..][1..][..n - 2] + x;
    } else {
      NextLineFrame(s[1..], x);
      assert t[1..] == s[1..][..n - 1] + x;
    }
  }

  /** All terminated lines of a text. */
  function Lines(s: string): seq<string>
    decreases |s|
  {
    match NextLine(s)
    case Tail(_) => []
    case Line(t, rest) => [t] + Lines(rest)
  }

  /** The text with LF in place of every CR LF. */
  function ToLf(s: string): string {
    if s == "" then "" else (if s[0] == '\r' && |s| > 1 && s[1] == '\n' then "" else [s[0]]) + ToLf(s[1..])
  }

  lemma {:induction false} NextLineOfLf(s: string)
    requires NoLoneCr(s)
    ensures match NextLine(s)
            case Line(t, rest) => NextLine(ToLf(s)) == Line(t, ToLf(rest)) && NoLoneCr(rest)
            case Tail(t) => NextLine(ToLf(s)) == Tail(t)
  {
    hide NextLine, ToLf, NoLoneCr;
    NextLineUnfold(s);
    NextLineUnfold(ToLf(s));
    ToLfUnfold(s);
    if s != "" {
      NoLoneCrUnfold(s);
      if s[0] == '\r' {
        NoLoneCrUnfold(s[1..]);
      } else if s[0] != '\n' {
        NextLineOfLf(s[1..]);
      }
    }
  }

  lemma ToLfUnfold(s: string)
    requires NoLoneCr(s)
    ensures s == "" ==> ToLf(s) == ""
    ensures s != "" && s[0] != '\r' ==> ToLf(s) != "" && ToLf(s)[0] == s[0] && ToLf(s)[1..] == ToLf(s[1..])
    ensures s != "" && s[0] == '\r' ==> ToLf(s) != "" && ToLf(s)[0] == '\n' && ToLf(s)[1..] == ToLf(s[1..][1..])
  {
    if s != "" && s[0] == '\r' {
      assert ToLf(s) == ToLf(s[1..]) == [s[1]] + ToLf(s[1..][1..]);
    }
  }

  /** CR LF and LF line ends give the same lines. */
  lemma {:induction false} LinesOfLf(s: string)
    requires NoLoneCr(s)
    ensures Lines(ToLf(s)) == Lines(s)
    decreases |s|
  {
    NextLineOfLf(s);
    var l := NextLine(s);
    if l.Line? {
      LinesOfLf(l.rest);
    }
  }

  /** A batch of fresh slots holds the next lines, in order, and only whole lines are counted. */
  lemma {:induction false} CopyLinesIntoFresh(slots: seq<string>, s: string)
    requires forall i :: 0 <= i < |slots| ==> slots[i] == ""
    ensures var (out, n, rest) := CopyLines(slots, s);
            && n == (if |slots| <= |Lines(s)| then |slots| else |Lines(s)|)
            && |out| == |slots| && out[..n] == Lines(s)[..n]
    decreases |slots|
  {
    if slots != [] {
      var l := NextLine(s);
      if l.Line? {
        CopyLinesIntoFresh(slots[1..], l.rest);
        var (more, n, rest) := CopyLines(slots[1..], l.rest);
        assert "" + l.text == l.text;
        assert ([l.text] + more)[..n + 1] == [l.text] + more[..n];
        assert ([l.text] + Lines(l.rest))[..n + 1] == [l.text] + Lines(l.rest)[..n];
      }
    }
  }

  /** A batch is the same as two batches one after the other, as long as the first is filled. */
  lemma {:induction false} CopyLinesInTwoSteps(a: seq<string>, b: seq<string>, s: string)
    ensures var (outA, n, mid) := CopyLines(a, s);
            CopyLines(a + b, s) == if n == |a| then (var (outB, m, rest) := CopyLines(b, mid); (outA + outB, n + m, rest))
                                   else (outA + b, n, mid)
    decreases |a|
  {
    hide NextLine;
    CopyLinesLength(a, s);
    if a == [] {
      assert a + b == b;
      assert forall outB: seq<string> :: [] + outB == outB;
    } else {
      assert (a + b)[1..] == a[1..] + b;
      var l := NextLine(s);
      if l.Line? {
        CopyLinesInTwoSteps(a[1..], b, l.rest);
        CopyLinesLength(a[1..], l.rest);
        var outA := CopyLines(a[1..], l.rest).0;
        var x := [a[0] + l.text];
        assert forall t: seq<string> :: x + (outA + t) == (x + outA) + t;
      } else {
        assert [a[0] + l.text] + (a[1..] + b) == [a[0] + l.text] + a[1..] + b;
      }
    }
  }

  // ---------------------------------------------------------------- which texts survive as one line

  /** No LF, and a CR at most as the last character. */
  predicate Sendable(x: string) {
    '\n' !in x && forall i :: 0 <= i < |x| - 1 ==> x[i] != '\r'
  }

  /** A text without LF as it arrives when it is sent as a CR LF line. */
  function Received(x: string): (r: string)
    ensures |r| <= |x|
  {
    if x == "" then ""
    else if x[0] == '\r' then "\r" + (if |x| == 1 then "" else Received(x[2..]))
    else [x[0]] + Received(x[1..])
  }

  lemma {:induction false} LineArrives(x: string, rest: string)
    requires '\n' !in x
    ensures NextLine(x + "\r\n" + rest) == Line(Received(x), rest)
  {
    var s := x + "\r\n" + rest;
    if x == "" {
      assert s == "\r\n" + rest;
    } else if x[0] == '\r' {
      if |x| == 1 {
        assert s == "\r\r\n" + rest;
        assert s[2..] == "\n" + rest;
      } else {
        assert x[1] in x;
        assert s[2..] == x[2..] + "\r\n" + rest;
        LineArrives(x[2..], rest);
      }
    } else {
      assert x[0] in x;
      assert s[1..] == x[1..] + "\r\n" + rest;
      LineArrives(x[1..], rest);
    }
  }

  lemma {:induction false} ReceivedUnchanged(x: string)
    requires '\n' !in x
    ensures Received(x) == x <==> Sendable(x)
  {
    if x != "" {
      assert x == [x[0]] + x[1..];
      if x[0] == '\r' {
        if |x| > 1 {
          assert |Received(x)| < |x|;
        }
      } else {
        ReceivedUnchanged(x[1..]);
        assert Received(x) == x <==> Received(x[1..]) == x[1..] by {
          assert Received(x)[1..] == Received(x[1..]);
        }
        assert forall i :: 0 <= i < |x[1..]| ==> x[1..][i] == x[i + 1];
        assert Sendable(x) <==> Sendable(x[1..]) by {
          if Sendable(x[1..]) {
            forall i | 0 <= i < |x| - 1
              ensures x[i] != '\r'
            {
              if i > 0 {
                assert x[1..][i - 1] != '\r';
              }
            }
          }
        }
      }
    }
  }

  lemma {:induction false} LinesHaveNoLf(s: string)
    ensures '\n' !in NextLine(s).text
  {
    if s != "" && s[0] == '\r' && |s| > 1 && s[1] != '\n' {
      LinesHaveNoLf(s[2..]);
    } else if s != "" && s[0] != '\r' && s[0] != '\n' {
      LinesHaveNoLf(s[1..]);
    }
  }

  /** Exactly the sendable texts arrive unchanged when sent as a line. */
  lemma LineRoundTrip(x: string, rest: string)
    ensures NextLine(x + "\r\n" + rest) == Line(x, rest) <==> Sendable(x)
  {
    if '\n' in x {
      LinesHaveNoLf(x + "\r\n" + rest);
    } else {
      LineArrives(x, rest);
      ReceivedUnchanged(x);
    }
  }

  // ---------------------------------------------------------------- split_value_line

  /** Name and value of a header line; None when the line has no byte behind a colon, where
      split_value_line would read past its end. */
  function SplitValue(line: string): Option<(string, string)> {
    var colon := IndexOf(line, ':');
    if colon + 1 >= |line| then None
    else Some((line[..colon], line[if line[colon + 1] == ' ' then colon + 2 else colon + 1..]))
  }

  /** split_value_line, on the lines it can be called with. */
  method SplitValueLine(line: string) returns (name: string, value: string)
    requires SplitValue(line).Some?
    ensures SplitValue(line) == Some((name, value))
  {
    var colon := 0;
    while colon < |line| && line[colon] != ':'
      invariant colon <= |line| && ':' !in line[..colon]
    {
      assert line[..colon + 1] == line[..colon] + [line[colon]];
      colon := colon + 1;
    }
    IndexOfIs(line, ':', colon);
    var second := colon + 1;
    if line[second] == ' ' {
      second := second + 1;
    }
    return line[..colon], line[second..];
  }
}
