/** The tokenizer at the start of do_meta_command: it cuts the line into NUL-terminated arguments in
    place and resolves the backslashes of each of them in place. */
module Tokenizer {
  import opened CText
  import opened CommandText
  import opened CommandLine

  const MAX_ARGS := 50

  /** A NUL-terminated argument at `p`. */
  ghost predicate ArgAt(buf: seq<char>, p: nat, q: nat, arg: string) {
    p <= q < |buf| && buf[p..q] == arg && buf[q] == '\0' && NulFree(arg)
  }

  lemma ArgAtIsCString(buf: seq<char>, p: nat, q: nat, arg: string)
    requires ArgAt(buf, p, q, arg)
    ensures UpToNul(buf[p..]) == arg
  {
    assert buf[p..][..q - p] == arg;
    UpToNulIsPrefix(buf[p..], q - p);
  }

  lemma {:induction false} UpToNulSplits(d: string)
    ensures var n := |UpToNul(d)|;
            n <= |d| && UpToNul(d) == d[..n] && NulFree(d[..n]) && (n < |d| ==> d[n] == '\0')
  {
    if d != "" && d[0] != '\0' {
      UpToNulSplits(d[1..]);
      var n := |UpToNul(d[1..])|;
      assert d[..n + 1] == [d[0]] + d[1..][..n];
    }
  }

  /** A resolved string is an argument, cut at a NUL that an octal escape may have produced. */
  lemma ReplacedIsArg(was: seq<char>, now: seq<char>, start: nat, end: nat, d: string) returns (q: nat)
    requires Replaced(was, now, start, end, d)
    ensures q <= end && ArgAt(now, start, q, UpToNul(d))
  {
    UpToNulSplits(d);
    var n := |UpToNul(d)|;
    q := start + n;
    assert now[start..q] == d[..n];
  }

  /** What taking one argument at `h` leaves behind: the argument, and a buffer that differs only between
      `h` and the new position. */
  ghost predicate Taken(was: seq<char>, now: seq<char>, h: nat, end: nat, start: nat, stop: nat, h1: nat) {
    && h <= end < |was| == |now| && was[h..end] != "" && !IsSpace(was[h])
    && var (arg, n) := FirstArg(was[h..end]);
    && h1 == h + n && h <= start && ArgAt(now, start, stop, arg)
    && (stop < h1 || (stop == end && h1 == end))
    && (forall k :: 0 <= k < |now| && (k < h || h1 <= k) ==> now[k] == was[k])
  }

  lemma MakeTaken(was: seq<char>, now: seq<char>, h: nat, end: nat, start: nat, stop: nat, h1: nat, arg: string)
    requires h < end < |was| == |now| && !IsSpace(was[h]) && FirstArg(was[h..end]) == (arg, h1 - h)
    requires h <= start && ArgAt(now, start, stop, arg) && (stop < h1 || (stop == end && h1 == end))
    requires forall k :: 0 <= k < |now| && (k < h || h1 <= k) ==> now[k] == was[k]
    ensures Taken(was, now, h, end, start, stop, h1)
  {
    hide FirstArg, ArgAt;
  }

  lemma ReplacedElsewhere(was: seq<char>, now: seq<char>, start: nat, end: nat, d: string)
    requires Replaced(was, now, start, end, d) && was[end] == '\0'
    ensures |now| == |was| && forall k :: 0 <= k < |now| && (k < start || end <= k) ==> now[k] == was[k]
  {
  }

  lemma CStringBounds(buf: seq<char>, from: nat, end: nat)
    requires CStringIn(buf, from, end)
    ensures from <= end < |buf| && buf[end] == '\0'
  {
  }

  /** One turn of the scan for the closing quote. */
  lemma QuotedStep(buf: seq<char>, from: nat, end: nat, h: nat, delim: char)
    requires CStringIn(buf, from, end) && from <= h <= end && IsQuote(delim)
    ensures end < |buf| && (buf[h] == '\0' <==> h == end)
    ensures h < end ==> (buf[h + 1] == '\0' <==> h + 1 == end)
    ensures QuotedLength(buf[h..end], delim) ==
            if h == end || buf[h] == delim then 0
            else if buf[h] == '\\' && delim == '"' && h + 1 < end then 2 + QuotedLength(buf[h + 2..end], delim)
            else 1 + QuotedLength(buf[h + 1..end], delim)
  {
    CStringTail(buf, from, end, h);
    if h < end {
      CStringTail(buf, from, end, h + 1);
      var s := buf[h..end];
      assert s[1..] == buf[h + 1..end];
      if h + 1 < end {
        assert s[2..] == buf[h + 2..end];
      }
    }
  }

  /** The scan for the closing quote. */
  method FindQuote(zLine: array<char>, from: nat, delim: char, ghost end: nat) returns (h: nat)
    requires CStringIn(zLine[..], from, end) && IsQuote(delim)
    ensures h == from + QuotedLength(zLine[from..end], delim)
    ensures zLine[h] == if h == end then '\0' else delim
  {
    hide QuotedLength, CStringIn;
    h := from;
    CStringBounds(zLine[..], from, end);
    while zLine[h] != '\0' && zLine[h] != delim
      invariant from <= h <= end < zLine.Length
      invariant QuotedLength(zLine[from..end], delim) == h - from + QuotedLength(zLine[h..end], delim)
      decreases end - h
    {
      QuotedStep(zLine[..], from, end, h, delim);
      if zLine[h] == '\\' && delim == '"' && zLine[h + 1] != '\0' {
        h := h + 1;
      }
      h := h + 1;
    }
    QuotedStep(zLine[..], from, end, h, delim);
  }

  method FindSpace(zLine: array<char>, from: nat, ghost end: nat) returns (h: nat)
    requires CStringIn(zLine[..], from, end)
    ensures h == from + WordLength(zLine[from..end])
    ensures h < end ==> zLine[h] != '\0'
  {
    h := from;
    while zLine[h] != '\0' && !IsSpace(zLine[h])
      invariant from <= h <= end
      invariant WordLength(zLine[from..end]) == h - from + WordLength(zLine[h..end])
      decreases end - h
    {
      CStringTail(zLine[..], from, end, h);
      assert zLine[h..end][1..] == zLine[h + 1..end];
      h := h + 1;
    }
    CStringTail(zLine[..], from, end, h);
  }

  lemma NulFreePart(buf: seq<char>, from: nat, end: nat, start: nat, stop: nat)
    requires CStringIn(buf, from, end) && from <= start <= stop <= end
    ensures NulFree(buf[start..stop])
  {
    assert forall k :: start <= k < stop ==> buf[k] in buf[from..end];
  }

  lemma FirstArgIsQuoted(t: string)
    requires t != "" && IsQuote(t[0])
    ensures !IsSpace(t[0])
    ensures var n := QuotedLength(t[1..], t[0]);
            FirstArg(t) == (if t[0] == '"' then UpToNul(Unescape(t[1..n + 1])) else t[1..n + 1],
                            if n + 1 < |t| then n + 2 else n + 1)
  {
    hide QuotedLength, Unescape, UpToNul;
  }

  /** The closing quote at `stop` is overwritten; the bytes in front of it are as they were. */
  ghost predicate QuoteCut(was: seq<char>, now: seq<char>, h: nat, end: nat, stop: nat, h1: nat) {
    && h + 1 <= stop <= end < |was| == |now| && IsQuote(was[h])
    && stop == h + 1 + QuotedLength(was[h + 1..end], was[h])
    && h1 == (if stop < end then stop + 1 else stop)
    && now[stop] == '\0' && was[end] == '\0' && NulFree(was[h + 1..stop])
    && (forall k :: 0 <= k < |now| && k != stop ==> now[k] == was[k])
  }

  method CutQuoted(zLine: array<char>, h: nat, ghost end: nat) returns (start: nat, h1: nat, ghost stop: nat)
    requires CStringIn(zLine[..], h, end) && IsQuote(zLine[h])
    modifies zLine
    ensures start == h + 1 && QuoteCut(old(zLine[..]), zLine[..], h, end, stop, h1)
  {
    hide QuotedLength, NulFree;
    ghost var was := zLine[..];
    var delim := zLine[h];
    start := h + 1;
    CStringTail(was, h, end, start);
    h1 := FindQuote(zLine, start, delim, end);
    stop := h1;
    assert was[start..end] == zLine[start..end];
    if zLine[h1] == delim {
      zLine[h1] := '\0';
      h1 := h1 + 1;
    }
    NulFreePart(was, h, end, start, stop);
  }

  /** A cut string is the argument as it stands; between double quotes it is resolved first. */
  lemma QuotedIsTaken(was: seq<char>, now: seq<char>, h: nat, end: nat, stop: nat, h1: nat)
    requires QuoteCut(was, now, h, end, stop, h1) && was[h] != '"'
    ensures Taken(was, now, h, end, h + 1, stop, h1)
  {
    hide QuotedLength;
    ArgOfCut(was, now, h, end, stop, h1);
    assert now[h + 1..stop] == was[h + 1..stop];
    MakeTaken(was, now, h, end, h + 1, stop, h1, was[h + 1..stop]);
  }

  lemma ResolvedIsTaken(was: seq<char>, cut: seq<char>, now: seq<char>, h: nat, end: nat, stop: nat, h1: nat) returns (q: nat)
    requires QuoteCut(was, cut, h, end, stop, h1) && was[h] == '"'
    requires Replaced(cut, now, h + 1, stop, Unescape(was[h + 1..stop]))
    ensures Taken(was, now, h, end, h + 1, q, h1)
  {
    hide QuotedLength, Unescape, UpToNul, Replaced, ArgAt;
    var d := Unescape(was[h + 1..stop]);
    ArgOfCut(was, cut, h, end, stop, h1);
    ReplacedElsewhere(cut, now, h + 1, stop, d);
    q := ReplacedIsArg(cut, now, h + 1, stop, d);
    MakeTaken(was, now, h, end, h + 1, q, h1, UpToNul(d));
  }

  lemma ArgOfCut(was: seq<char>, now: seq<char>, h: nat, end: nat, stop: nat, h1: nat)
    requires QuoteCut(was, now, h, end, stop, h1)
    ensures !IsSpace(was[h])
    ensures FirstArg(was[h..end]) ==
            (if was[h] == '"' then UpToNul(Unescape(was[h + 1..stop])) else was[h + 1..stop], h1 - h)
  {
    hide QuotedLength, Unescape, UpToNul, FirstArg;
    var t := was[h..end];
    var n := QuotedLength(was[h + 1..end], was[h]);
    assert t[1..] == was[h + 1..end];
    assert t[1..n + 1] == t[1..][..n] == was[h + 1..end][..n] == was[h + 1..stop];
    FirstArgIsQuoted(t);
  }

  /** The quoted branch of the tokenizer loop. */
  method TakeQuoted(zLine: array<char>, h: nat, ghost end: nat) returns (start: nat, h1: nat, ghost stop: nat)
    requires CStringIn(zLine[..], h, end) && IsQuote(zLine[h])
    modifies zLine
    ensures Taken(old(zLine[..]), zLine[..], h, end, start, stop, h1)
  {
    hide QuotedLength, Unescape, UpToNul, Replaced, FirstArg, Taken, ArgAt;
    ghost var was := zLine[..];
    var delim := zLine[h];
    start, h1, stop := CutQuoted(zLine, h, end);
    ghost var cut := zLine[..];
    if delim == '"' {
      assert cut[start..stop] == was[start..stop] && zLine[start..stop] == was[start..stop];
      ResolveBackslashes(zLine, start, stop);
      stop := ResolvedIsTaken(was, cut, zLine[..], h, end, stop, h1);
    } else {
      QuotedIsTaken(was, cut, h, end, stop, h1);
    }
  }

  /** The branch for a word without quotes. */
  method TakeWord(zLine: array<char>, h: nat, ghost end: nat) returns (start: nat, h1: nat, ghost stop: nat)
    requires CStringIn(zLine[..], h, end) && h < end && !IsQuote(zLine[h]) && !IsSpace(zLine[h])
    modifies zLine
    ensures Taken(old(zLine[..]), zLine[..], h, end, start, stop, h1)
  {
    hide WordLength, Unescape, UpToNul, Replaced;
    ghost var was := zLine[..];
    start := h;
    h1 := FindSpace(zLine, h, end);
    ghost var raw := was[h..h1];
    assert was[h..end][..h1 - h] == raw;
    stop := h1;
    if zLine[h1] != '\0' {
      zLine[h1] := '\0';
      h1 := h1 + 1;
    }
    ghost var cut := zLine[..];
    assert cut[h..stop] == raw && cut[stop] == '\0';
    NulFreePart(was, h, end, h, stop);
    ResolveBackslashes(zLine, start, stop);
    stop := ReplacedIsArg(cut, zLine[..], start, stop, Unescape(raw));
  }

  method FindNonSpace(zLine: array<char>, from: nat, ghost end: nat) returns (h: nat)
    requires CStringIn(zLine[..], from, end)
    ensures from <= h <= end && zLine[h..end] == SkipSpaces(zLine[from..end])
    ensures zLine[h] == '\0' <==> h == end
  {
    h := from;
    while IsSpace(zLine[h])
      invariant from <= h <= end
      invariant SkipSpaces(zLine[h..end]) == SkipSpaces(zLine[from..end])
      decreases end - h
    {
      assert zLine[h..end][1..] == zLine[h + 1..end];
      h := h + 1;
    }
    CStringTail(zLine[..], from, end, h);
  }

  /** One turn of the tokenizer loop behind the spaces. */
  method TakeArg(zLine: array<char>, h: nat, ghost end: nat) returns (start: nat, h1: nat, ghost stop: nat)
    requires CStringIn(zLine[..], h, end) && h < end && !IsSpace(zLine[h])
    modifies zLine
    ensures Taken(old(zLine[..]), zLine[..], h, end, start, stop, h1)
  {
    if zLine[h] == '\'' || zLine[h] == '"' {
      start, h1, stop := TakeQuoted(zLine, h, end);
    } else {
      start, h1, stop := TakeWord(zLine, h, end);
    }
  }

  /** The arguments taken so far, and that the line behind `h` has not been touched. */
  ghost predicate Cut(was: seq<char>, now: seq<char>, h: nat, end: nat, at: seq<nat>, stops: seq<nat>, args: seq<string>) {
    && h <= end < |was| == |now| && |at| == |stops| == |args|
    && (forall k :: h <= k < |now| ==> now[k] == was[k])
    && (forall k :: 0 <= k < |at| ==> ArgAt(now, at[k], stops[k], args[k]) && (stops[k] < h || stops[k] == h == end))
  }

  /** Taking one more argument disturbs none of those before it. */
  lemma CutOneMore(was: seq<char>, now: seq<char>, next: seq<char>, h: nat, end: nat, at: seq<nat>, stops: seq<nat>,
                   args: seq<string>, start: nat, stop: nat, h1: nat)
    requires Cut(was, now, h, end, at, stops, args) && was[end] == '\0'
    requires Taken(now, next, h, end, start, stop, h1)
    ensures was[h..end] == now[h..end]
    ensures var arg := FirstArg(was[h..end]).0;
            Cut(was, next, h1, end, at + [start], stops + [stop], args + [arg])
  {
    assert was[h..end] == now[h..end];
    forall k | 0 <= k < |at|
      ensures ArgAt(next, at[k], stops[k], args[k]) && stops[k] < h1
    {
      assert next[at[k]..stops[k]] == now[at[k]..stops[k]];
    }
  }

  /** Skipping spaces leaves all arguments where they are. */
  lemma CutLater(was: seq<char>, now: seq<char>, from: nat, h: nat, end: nat, at: seq<nat>, stops: seq<nat>, args: seq<string>)
    requires Cut(was, now, from, end, at, stops, args) && from <= h < end
    ensures end < |was| == |now| && |at| == |stops| == |args|
    ensures Cut(was, now, h, end, at, stops, args) && was[from..end] == now[from..end]
  {
    hide ArgAt;
  }

  lemma TakenBytes(was: seq<char>, now: seq<char>, h: nat, end: nat, start: nat, stop: nat, h1: nat)
    requires Taken(was, now, h, end, start, stop, h1)
    ensures h <= end < |was| && was[h..end] != "" && !IsSpace(was[h..end][0])
    ensures h1 == h + FirstArg(was[h..end]).1
  {
    hide FirstArg, ArgAt;
  }

  /** Before the loop test: what is cut, and that the rest of the line holds the arguments still missing. */
  ghost predicate Underway(was: seq<char>, now: seq<char>, h: nat, end: nat, at: seq<nat>, stops: seq<nat>, args: seq<string>) {
    && 1 <= h && |at| <= MAX_ARGS
    && Cut(was, now, h, end, at, stops, args) && CStringIn(was, 1, end)
    && args + Tokens(was[h..end], MAX_ARGS - |at|) == Tokens(was[1..end], MAX_ARGS)
  }

  lemma UnderwayOneMore(was: seq<char>, now: seq<char>, next: seq<char>, from: nat, h: nat, end: nat, at: seq<nat>,
                        stops: seq<nat>, args: seq<string>, start: nat, stop: nat, h1: nat)
    requires Underway(was, now, from, end, at, stops, args) && |at| < MAX_ARGS
    requires from <= h < end && now[h..end] == SkipSpaces(now[from..end])
    requires Taken(now, next, h, end, start, stop, h1)
    ensures Underway(was, next, h1, end, at + [start], stops + [stop], args + [FirstArg(now[h..end]).0])
  {
    hide Cut, Taken, Tokens, FirstArg, SkipSpaces, NulFree;
    CutLater(was, now, from, h, end, at, stops, args);
    TakenBytes(now, next, h, end, start, stop, h1);
    CutOneMore(was, now, next, h, end, at, stops, args, start, stop, h1);
    TokensSkipping(was, from, h, h1, end, MAX_ARGS - |at|);
    Regroup(args, [FirstArg(was[h..end]).0], Tokens(was[h1..end], MAX_ARGS - |at| - 1));
  }

  lemma TokensSkipping(was: seq<char>, from: nat, h: nat, h1: nat, end: nat, room: nat)
    requires from <= h < end < |was| && room > 0 && was[h..end] == SkipSpaces(was[from..end])
    requires h1 == h + FirstArg(was[h..end]).1
    ensures Tokens(was[from..end], room) == [FirstArg(was[h..end]).0] + Tokens(was[h1..end], room - 1)
  {
    hide Tokens, FirstArg, SkipSpaces;
    assert was[h..end][h1 - h..] == was[h1..end];
    TokensUnfold(was[from..end], was[h..end], room);
  }

  lemma TokensUnfold(s: string, t: string, room: nat)
    requires room > 0 && t == SkipSpaces(s) && t != ""
    ensures Tokens(s, room) == [FirstArg(t).0] + Tokens(t[FirstArg(t).1..], room - 1)
  {
  }

  lemma UnderwayDone(was: seq<char>, now: seq<char>, h: nat, end: nat, at: seq<nat>, stops: seq<nat>, args: seq<string>)
    requires Underway(was, now, h, end, at, stops, args) && (|at| == MAX_ARGS || SkipSpaces(was[h..end]) == "")
    ensures ArgsAt(now, at, Tokens(was[1..end], MAX_ARGS))
  {
    assert Tokens(was[h..end], MAX_ARGS - |at|) == [];
    assert args + [] == args;
    forall k | 0 <= k < |at|
      ensures at[k] < |now| && UpToNul(now[at[k]..]) == args[k]
    {
      ArgAtIsCString(now, at[k], stops[k], args[k]);
    }
  }

  /** Each pointer leads to its argument. */
  ghost predicate ArgsAt(buf: seq<char>, at: seq<nat>, args: seq<string>) {
    |at| == |args| && forall k :: 0 <= k < |at| ==> at[k] < |buf| && UpToNul(buf[at[k]..]) == args[k]
  }

  /** The body of the tokenizer loop; nothing is found behind trailing spaces. */
  method TakeNext(zLine: array<char>, from: nat, ghost was: seq<char>, ghost end: nat, ghost at: seq<nat>,
                  ghost stops: seq<nat>, ghost args: seq<string>)
    returns (found: bool, start: nat, h: nat, ghost stop: nat, ghost arg: string)
    requires Underway(was, zLine[..], from, end, at, stops, args) && |at| < MAX_ARGS
    modifies zLine
    ensures !found ==> Underway(was, zLine[..], from, end, at, stops, args) && SkipSpaces(was[from..end]) == ""
    ensures found ==> from < h <= end && Underway(was, zLine[..], h, end, at + [start], stops + [stop], args + [arg])
  {
    ghost var now := zLine[..];
    CStringTail(was, 1, end, from);
    assert now[from..end] == was[from..end] && now[end] == was[end];
    h := FindNonSpace(zLine, from, end);
    start, stop, arg := 0, 0, "";
    if zLine[h] == '\0' {
      return false, start, h, stop, arg;
    }
    CStringTail(now, from, end, h);
    ghost var first := h;
    arg := FirstArg(now[h..end]).0;
    start, h, stop := TakeArg(zLine, h, end);
    UnderwayOneMore(was, now, zLine[..], from, first, end, at, stops, args, start, stop, h);
    found := true;
  }

  /** The whole tokenizer, from behind the dot: every slot of azArg in use points at one argument of the
      line, also after all later arguments have been cut and resolved. */
  method Tokenize(zLine: array<char>, ghost end: nat) returns (azArg: array<nat>, nArg: nat)
    requires CStringIn(zLine[..], 1, end)
    modifies zLine
    ensures fresh(azArg) && azArg.Length == MAX_ARGS
    ensures nArg <= MAX_ARGS && ArgsAt(zLine[..], azArg[..nArg], Tokens(old(zLine[..])[1..end], MAX_ARGS))
  {
    hide Tokens, ArgsAt;
    ghost var was, stops, args := zLine[..], [], [];
    var h := 1;
    azArg := new nat[MAX_ARGS];
    nArg := 0;
    assert [] + Tokens(was[1..end], MAX_ARGS) == Tokens(was[1..end], MAX_ARGS);
    while zLine[h] != '\0' && nArg < MAX_ARGS
      invariant nArg <= MAX_ARGS && Underway(was, zLine[..], h, end, azArg[..nArg], stops, args)
      decreases end - h
    {
      ghost var at := azArg[..nArg];
      var found, start, next; ghost var stop, arg;
      found, start, next, stop, arg := TakeNext(zLine, h, was, end, at, stops, args);
      if !found {
        break;
      }
      h := next;
      azArg[nArg] := start;
      nArg := nArg + 1;
      assert azArg[..nArg] == at + [start];
      stops, args := stops + [stop], args + [arg];
    }
    EndOfLine(was, zLine[..], h, end);
    UnderwayDone(was, zLine[..], h, end, azArg[..nArg], stops, args);
  }

  lemma EndOfLine(was: seq<char>, now: seq<char>, h: nat, end: nat)
    requires CStringIn(was, 1, end) && 1 <= h <= end && |now| == |was| && now[h] == was[h]
    ensures now[h] == '\0' ==> SkipSpaces(was[h..end]) == ""
  {
    CStringTail(was, 1, end, h);
  }

  lemma {:induction false} EscapeHasNoNul(s: string)
    requires IsBytes(s)
    ensures NulFree(Escape(s))
  {
    if s != "" {
      EscapeHasNoNul(s[1..]);
      assert NulFree(EscapeChar(s[0]));
    }
  }

  lemma {:induction false} TclRowHasNoNul(args: seq<string>, colSep: string, rowSep: string)
    requires forall i :: 0 <= i < |args| ==> IsBytes(args[i])
    requires AllSpaces(colSep) && AllSpaces(rowSep)
    ensures NulFree(TclRow(args, colSep, rowSep))
  {
    if args != [] {
      EscapeHasNoNul(args[0]);
      TclRowHasNoNul(args[1..], colSep, rowSep);
      assert NulFree(CString(args[0]));
      assert NulFree(if |args| > 1 then colSep else "");
    }
  }

  /** Arguments printed the TCL way behind a dot, with any white space between and behind them, make a line
      that the tokenizer takes apart into the same arguments, as many as azArg has slots. */
  lemma {:induction false} CommandLineRoundTrip(args: seq<string>, colSep: string, rowSep: string)
    requires forall i :: 0 <= i < |args| ==> IsBytes(args[i]) && NulFree(args[i])
    requires AllSpaces(colSep) && AllSpaces(rowSep)
    ensures var line := "." + TclRow(args, colSep, rowSep) + "\0";
            CStringIn(line, 1, |line| - 1) && Tokens(line[1..|line| - 1], MAX_ARGS) == AtMost(args, MAX_ARGS)
  {
    var row := TclRow(args, colSep, rowSep);
    var line := "." + row + "\0";
    assert line[1..|line| - 1] == row;
    TclRowHasNoNul(args, colSep, rowSep);
    assert "" + row == row;
    TokensOfTclRow("", args, colSep, rowSep, MAX_ARGS);
  }
}
