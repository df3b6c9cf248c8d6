/** The shell's printer of C strings, its in-place tokenizer and its in-place backslash resolver. */
module CommandLine {
  import opened CText
  import opened CommandText

  lemma {:induction false} EscapeAppend(s: string, c: char)
    requires IsBytes(s) && c as int < 256
    ensures IsBytes(s + [c]) && Escape(s + [c]) == Escape(s) + EscapeChar(c)
  {
    hide EscapeChar;
    if s == "" {
      assert s + [c] == [c];
      assert Escape([c][1..]) == "";
    } else {
      assert (s + [c])[1..] == s[1..] + [c];
      EscapeAppend(s[1..], c);
    }
  }

  lemma EmptyEscape()
    ensures Escape("") == ""
  {
  }

  /** output_c_string */
  method OutputCString(out: Sink, z: string)
    requires IsBytes(z) && NulFree(z)
    modifies out
    ensures out.text == old(out.text) + CString(z)
  {
    hide Escape, EscapeChar;
    EmptyEscape();
    out.Put("\"");
    var i := 0;
    while i < |z|
      invariant 0 <= i <= |z|
      invariant IsBytes(z[..i]) && out.text == old(out.text) + ("\"" + Escape(z[..i]))
    {
      var c := z[i];
      assert z[..i + 1] == z[..i] + [c];
      EscapeAppend(z[..i], c);
      PutEscaped(out, c);
      i := i + 1;
    }
    assert z[..i] == z;
    out.Put("\"");
  }

  method PutEscaped(out: Sink, c: char)
    requires c as int < 256
    modifies out
    ensures out.text == old(out.text) + EscapeChar(c)
  {
    if c == '\\' {
      out.Put([c, c]);
    } else if c == '"' {
      out.Put("\\\"");
    } else if c == '\t' {
      out.Put("\\t");
    } else if c == '\n' {
      out.Put("\\n");
    } else if c == '\r' {
      out.Put("\\r");
    } else if !IsPrint(c) {
      var n := c as int;
      out.Put(['\\', OctalDigit(n / 64), OctalDigit(n / 8 % 8), OctalDigit(n % 8)]);
    } else {
      out.Put([c]);
    }
  }

  /** One line of MODE_Tcl. */
  method PutTclRow(out: Sink, azArg: seq<string>, colSep: string, rowSep: string)
    requires forall i :: 0 <= i < |azArg| ==> IsBytes(azArg[i]) && NulFree(azArg[i])
    modifies out
    ensures out.text == old(out.text) + TclRow(azArg, colSep, rowSep)
  {
    hide CString, IsBytes, NulFree;
    var i := 0;
    while i < |azArg|
      invariant 0 <= i <= |azArg|
      invariant out.text + TclRow(azArg[i..], colSep, rowSep) == old(out.text) + TclRow(azArg, colSep, rowSep)
    {
      assert azArg[i..][1..] == azArg[i + 1..];
      OutputCString(out, azArg[i]);
      if i < |azArg| - 1 {
        out.Put(colSep);
      }
      i := i + 1;
    }
    out.Put(rowSep);
  }

  /** The strings that stand for the columns of a row: a null pointer prints `missing`. */
  function Shown(fields: seq<Option<string>>, missing: string): (row: seq<string>)
    ensures |row| == |fields|
    ensures forall i :: 0 <= i < |fields| ==> row[i] == if fields[i].None? then missing else fields[i].value
  {
    seq(|fields|, i requires 0 <= i < |fields| => if fields[i].None? then missing else fields[i].value)
  }

  predicate AreByteStrings(fields: seq<Option<string>>) {
    forall i :: 0 <= i < |fields| && fields[i].Some? ==> IsBytes(fields[i].value) && NulFree(fields[i].value)
  }

  /** The MODE_Tcl branch of shell_callback: in front of the first row the header line, if wanted; then the row,
      if there is one. `cnt` counts the calls. */
  method OutputTclRow(out: Sink, azCol: seq<Option<string>>, azArg: Option<seq<Option<string>>>, cnt: nat, showHeader: bool,
                      colSep: string, rowSep: string, nullValue: string) returns (cnt1: nat)
    requires AreByteStrings(azCol) && (azArg.Some? ==> AreByteStrings(azArg.value)) && IsBytes(nullValue) && NulFree(nullValue)
    modifies out
    ensures cnt1 == cnt + 1
    ensures out.text == old(out.text)
                        + (if cnt == 0 && showHeader then TclRow(Shown(azCol, ""), colSep, rowSep) else "")
                        + (if azArg.None? then "" else TclRow(Shown(azArg.value, nullValue), colSep, rowSep))
  {
    hide TclRow;
    cnt1 := cnt + 1;
    if cnt == 0 && showHeader {
      PutTclRow(out, Shown(azCol, ""), colSep, rowSep);
    }
    if azArg.Some? {
      PutTclRow(out, Shown(azArg.value, nullValue), colSep, rowSep);
    }
  }

  /** A NUL-terminated string lies between `start` and `end`. */
  ghost predicate CStringIn(buf: seq<char>, start: nat, end: nat) {
    start <= end < |buf| && buf[end] == '\0' && NulFree(buf[start..end])
  }

  /** The escape behind the backslash at `i`: the character, and the index of its last byte. */
  method DecodeEscape(z: array<char>, i: nat, ghost end: nat) returns (c: char, last: nat)
    requires CStringIn(z[..], i, end) && i + 1 < end && z[i] == '\\'
    ensures last < end && (c, last + 1 - i) == FirstChar(z[i..end])
  {
    hide NulFree;
    assert z[i + 1] == z[i..end][1] && z[i] == z[i..end][0];
    last := i + 1;
    c := z[last];
    if '0' <= c <= '7' {
      c, last := DecodeOctal(z, i, end);
    } else if c == 'a' {
      c := 7 as char;
    } else if c == 'b' {
      c := 8 as char;
    } else if c == 't' {
      c := '\t';
    } else if c == 'n' {
      c := '\n';
    } else if c == 'v' {
      c := 11 as char;
    } else if c == 'f' {
      c := 12 as char;
    } else if c == 'r' {
      c := '\r';
    }
  }

  /** Digit by digit, in eight bits. */
  lemma OctalFirst(s: string)
    requires |s| > 1 && s[0] == '\\' && IsOctal(s[1])
    ensures FirstChar(s) ==
            var n := OctalValue(s[1]);
            if |s| == 2 || !IsOctal(s[2]) then (n as char, 2)
            else
              var n2 := (n * 8 + OctalValue(s[2])) % 256;
              if |s| == 3 || !IsOctal(s[3]) then (n2 as char, 3)
              else (((n2 * 8 + OctalValue(s[3])) % 256) as char, 4)
  {
    hide NamedEscape;
    var n := OctalValue(s[1]);
    if |s| > 2 && IsOctal(s[2]) {
      OctalDigits(n, OctalValue(s[2]), if |s| > 3 && IsOctal(s[3]) then OctalValue(s[3]) else 0);
    }
  }

  lemma OctalDigits(a: nat, b: nat, c: nat)
    requires a < 8 && b < 8
    ensures (a * 8 + b) % 256 == a * 8 + b && (a * 8 + b) * 8 + c == a * 64 + b * 8 + c
  {
  }

  /** One to three octal digits behind the backslash at `i`, in the eight bits of a `char`. */
  method DecodeOctal(z: array<char>, i: nat, ghost end: nat) returns (c: char, last: nat)
    requires CStringIn(z[..], i, end) && i + 1 < end && z[i] == '\\' && '0' <= z[i + 1] <= '7'
    ensures last < end && (c, last + 1 - i) == FirstChar(z[i..end])
  {
    hide NulFree, FirstChar;
    ghost var s := z[i..end];
    assert forall k :: i <= k < end ==> z[k] == s[k - i];
    OctalFirst(s);
    last := i + 1;
    var n := OctalValue(z[last]);
    if '0' <= z[last + 1] <= '7' {
      last := last + 1;
      n := (n * 8 + OctalValue(z[last])) % 256;
      if '0' <= z[last + 1] <= '7' {
        last := last + 1;
        n := (n * 8 + OctalValue(z[last])) % 256;
      }
    }
    c := n as char;
  }

  /** The state of a buffer in which the string from `start` to `end` was replaced by `d`: a NUL stands
      behind the new text, and nothing behind that NUL has changed. */
  ghost predicate Replaced(was: seq<char>, now: seq<char>, start: nat, end: nat, d: string) {
    && |was| == |now| && start + |d| <= end < |now|
    && (forall k :: 0 <= k < |d| ==> now[start + k] == d[k])
    && now[start + |d|] == '\0'
    && (forall k :: 0 <= k < |now| && (k < start || start + |d| < k) ==> now[k] == was[k])
  }

  /** One turn of the rewriting loop: the next character and the index behind its bytes. */
  method NextChar(z: array<char>, i: nat, ghost end: nat) returns (c: char, next: nat)
    requires CStringIn(z[..], i, end) && i < end
    ensures i < next <= end && (c, next - i) == FirstChar(z[i..end])
  {
    c := z[i];
    assert c == z[i..end][0];
    next := i + 1;
    if c == '\\' && z[i + 1] != '\0' {
      var last;
      c, last := DecodeEscape(z, i, end);
      next := last + 1;
    }
  }

  /** The rewriting loop half way: up to `i` the old string is read, up to `j` the new one written. */
  ghost predicate HalfWay(was: seq<char>, now: seq<char>, start: nat, end: nat, i: nat, j: nat) {
    && start <= j <= i <= end < |was| == |now|
    && now[j..] == was[j..] && now[..start] == was[..start]
    && now[start..j] + Unescape(was[i..end]) == Unescape(was[start..end])
  }

  lemma HalfWayStep(was: seq<char>, now: seq<char>, start: nat, end: nat, i: nat, j: nat, c: char, next: nat)
    requires HalfWay(was, now, start, end, i, j) && i < next <= end
    requires (c, next - i) == FirstChar(was[i..end])
    ensures HalfWay(was, now[j := c], start, end, next, j + 1)
  {
    hide Unescape, FirstChar;
    var now1 := now[j := c];
    assert now1[j + 1..] == was[j + 1..] by {
      assert now1[j + 1..] == now[j..][1..] && was[j + 1..] == was[j..][1..];
    }
    assert now1[..start] == now[..start];
    var tail := was[i..end];
    assert tail[next - i..] == was[next..end];
    UnescapeUnfold(tail);
    var done, more := now[start..j], Unescape(was[next..end]);
    assert now1[start..j + 1] == done + [c];
    Regroup(done, [c], more);
  }

  lemma UnescapeUnfold(s: string)
    ensures Unescape(s) == if s == "" then "" else [FirstChar(s).0] + Unescape(s[FirstChar(s).1..])
  {
    hide FirstChar;
  }

  lemma HalfWayDone(was: seq<char>, now: seq<char>, start: nat, end: nat, j: nat)
    requires HalfWay(was, now, start, end, end, j) && was[end] == '\0'
    ensures Replaced(was, if j < end then now[j := '\0'] else now, start, end, Unescape(was[start..end]))
  {
    hide Unescape;
    UnescapeUnfold("");
    assert was[end..end] == "" && now[start..j] == Unescape(was[start..end]);
    assert forall k :: 0 <= k < start ==> now[k] == now[..start][k];
    assert forall k :: j <= k < |now| ==> now[k] == now[j..][k - j];
  }

  lemma HalfWayStart(was: seq<char>, start: nat, end: nat)
    requires CStringIn(was, start, end)
    ensures HalfWay(was, was, start, end, start, start) && start <= end < |was|
  {
    hide Unescape;
    assert was[start..start] + Unescape(was[start..end]) == Unescape(was[start..end]);
  }

  /** What is still to be read has not been written. */
  lemma HalfWayReads(was: seq<char>, now: seq<char>, start: nat, end: nat, i: nat, j: nat)
    requires HalfWay(was, now, start, end, i, j) && CStringIn(was, start, end)
    ensures |now| == |was| && i <= end < |was| && was[end] == '\0'
    ensures now[i..end] == was[i..end] && CStringIn(now, i, end)
    ensures now[i] == '\0' <==> i == end
  {
    hide Unescape;
    CStringTail(was, start, end, i);
    assert forall k :: i <= k < |now| ==> now[k] == now[j..][k - j] && was[k] == was[j..][k - j];
    assert now[i..end] == was[i..end];
  }

  /** One turn of the rewriting loop. */
  method ResolveTurn(z: array<char>, ghost was: seq<char>, ghost start: nat, ghost end: nat, i: nat, j: nat) returns (next: nat)
    requires HalfWay(was, z[..], start, end, i, j) && CStringIn(was, start, end)
    requires j <= i < end < z.Length
    modifies z
    ensures i < next <= end && j < next && HalfWay(was, z[..], start, end, next, j + 1)
  {
    hide HalfWay, Unescape, CStringIn, FirstChar;
    ghost var before := z[..];
    HalfWayReads(was, before, start, end, i, j);
    assert z[i..end] == before[i..end];
    var c;
    c, next := NextChar(z, i, end);
    HalfWayStep(was, before, start, end, i, j, c, next);
    z[j] := c;
    assert z[..] == before[j := c];
  }

  /** The rewriting loop of resolve_backslashes: the write index never passes the read index. */
  method ResolveFrom(z: array<char>, start: nat, ghost end: nat)
    requires CStringIn(z[..], start, end)
    modifies z
    ensures Replaced(old(z[..]), z[..], start, end, Unescape(old(z[start..end])))
  {
    hide HalfWay, Unescape, Replaced, CStringIn;
    ghost var was := z[..];
    var i, j := start, start;
    HalfWayStart(was, start, end);
    assert was[start..end] == z[start..end];
    while z[i] != '\0'
      invariant start <= j <= i <= end < z.Length && HalfWay(was, z[..], start, end, i, j)
      decreases end - i
    {
      HalfWayReads(was, z[..], start, end, i, j);
      i := ResolveTurn(z, was, start, end, i, j);
      j := j + 1;
    }
    HalfWayReads(was, z[..], start, end, i, j);
    HalfWayDone(was, z[..], start, end, j);
    if j < i {
      ghost var before := z[..];
      z[j] := '\0';
      assert z[..] == before[j := '\0'];
    }
  }

  /** A prefix without backslashes stands for itself. */
  lemma ReplacedBehindPrefix(was: seq<char>, now: seq<char>, start: nat, p: nat, end: nat)
    requires start <= p <= end < |was| && '\\' !in was[start..p]
    requires Replaced(was, now, p, end, Unescape(was[p..end]))
    ensures Replaced(was, now, start, end, Unescape(was[start..end]))
  {
    hide Unescape;
    var d, prefix := Unescape(was[p..end]), was[start..p];
    UnescapePlainPrefix(prefix, was[p..end]);
    assert was[start..end] == prefix + was[p..end];
    forall k | 0 <= k < |prefix + d|
      ensures now[start + k] == (prefix + d)[k]
    {
      if k < |prefix| {
        assert now[start + k] == was[start + k];
      } else {
        assert now[p + (k - |prefix|)] == d[k - |prefix|];
      }
    }
  }

  lemma CStringTail(buf: seq<char>, start: nat, end: nat, i: nat)
    requires CStringIn(buf, start, end) && start <= i <= end
    ensures CStringIn(buf, i, end) && (buf[i] == '\0' ==> i == end)
  {
    assert forall k :: i <= k < end ==> buf[k] in buf[start..end];
  }

  /** resolve_backslashes on the string at `start`. */
  method ResolveBackslashes(z: array<char>, start: nat, ghost end: nat)
    requires CStringIn(z[..], start, end)
    modifies z
    ensures Replaced(old(z[..]), z[..], start, end, Unescape(old(z[start..end])))
  {
    ghost var was := z[..];
    var p := start;
    while z[p] != '\0' && z[p] != '\\'
      invariant start <= p <= end && z[..] == was
      invariant '\\' !in was[start..p]
      decreases end - p
    {
      CStringTail(was, start, end, p);
      assert z[p] == was[p];
      assert was[start..p + 1] == was[start..p] + [was[p]];
      p := p + 1;
    }
    CStringTail(was, start, end, p);
    ResolveFrom(z, p, end);
    ReplacedBehindPrefix(was, z[..], start, p, end);
    assert was[start..end] == old(z[start..end]);
  }
}
