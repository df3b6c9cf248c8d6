/** The text of a shell command line, as functions: printing an argument the C or TCL way, splitting a
    line into arguments, and resolving the backslashes of one argument. */
module CommandText {
  import opened CText

  // ---------------------------------------------------------------- output_c_string

  function OctalDigit(n: nat): (c: char)
    requires n < 8
    ensures IsOctal(c) && OctalValue(c) == n
  {
    '0' + n as char
  }

  function EscapeChar(c: char): string
    requires c as int < 256
  {
    if c == '\\' then "\\\\"
    else if c == '"' then "\\\""
    else if c == '\t' then "\\t"
    else if c == '\n' then "\\n"
    else if c == '\r' then "\\r"
    else if !IsPrint(c) then
      var n := c as int;
      ['\\', OctalDigit(n / 64), OctalDigit(n / 8 % 8), OctalDigit(n % 8)]
    else [c]
  }

  function Escape(s: string): string
    requires IsBytes(s)
  {
    if s == "" then "" else EscapeChar(s[0]) + Escape(s[1..])
  }

  function CString(s: string): string
    requires IsBytes(s)
  {
    "\"" + Escape(s) + "\""
  }

  /** One row of the TCL output mode. */
  function TclRow(args: seq<string>, colSep: string, rowSep: string): string
    requires forall i :: 0 <= i < |args| ==> IsBytes(args[i])
  {
    if args == [] then rowSep
    else CString(args[0]) + (if |args| > 1 then colSep else "") + TclRow(args[1..], colSep, rowSep)
  }

  // ---------------------------------------------------------------- resolve_backslashes

  predicate IsOctal(c: char) {
    '0' <= c <= '7'
  }

  function OctalValue(c: char): nat
    requires IsOctal(c)
  {
    c as int - '0' as int
  }

  /** The character for the single letter behind a backslash. */
  function NamedEscape(c: char): char {
    if c == 'a' then 7 as char
    else if c == 'b' then 8 as char
    else if c == 't' then '\t'
    else if c == 'n' then '\n'
    else if c == 'v' then 11 as char
    else if c == 'f' then 12 as char
    else if c == 'r' then '\r'
    else c
  }

  /** The character that `s` starts with after resolving, and the bytes it is written with. A lone
      backslash at the end stands for itself; octal values wrap at 256. */
  function FirstChar(s: string): (r: (char, nat))
    requires s != ""
    ensures 1 <= r.1 <= |s|
  {
    if s[0] != '\\' || |s| == 1 then (s[0], 1)
    else if !IsOctal(s[1]) then (NamedEscape(s[1]), 2)
    else if |s| == 2 || !IsOctal(s[2]) then (OctalValue(s[1]) as char, 2)
    else if |s| == 3 || !IsOctal(s[3]) then ((OctalValue(s[1]) * 8 + OctalValue(s[2])) as char, 3)
    else (((OctalValue(s[1]) * 64 + OctalValue(s[2]) * 8 + OctalValue(s[3])) % 256) as char, 4)
  }

  function Unescape(s: string): (r: string)
    ensures |r| <= |s|
  {
    if s == "" then "" else
    var (c, n) := FirstChar(s);
    [c] + Unescape(s[n..])
  }

  lemma {:induction false} UnescapePlainPrefix(s: string, t: string)
    requires '\\' !in s
    ensures Unescape(s + t) == s + Unescape(t)
  {
    if s == "" {
      assert s + t == t;
    } else {
      assert (s + t)[1..] == s[1..] + t;
      UnescapePlainPrefix(s[1..], t);
    }
  }

  // ---------------------------------------------------------------- the tokenizer of do_meta_command

  function SkipSpaces(s: string): (t: string)
    ensures |t| <= |s| && (t != "" ==> !IsSpace(t[0]))
  {
    if s != "" && IsSpace(s[0]) then SkipSpaces(s[1..]) else s
  }

  /** Bytes in front of the closing quote, or all of them when there is none. */
  function QuotedLength(s: string, delim: char): (n: nat)
    ensures n <= |s|
  {
    if s == "" || s[0] == delim then 0
    else if s[0] == '\\' && delim == '"' && |s| > 1 then 2 + QuotedLength(s[2..], delim)
    else 1 + QuotedLength(s[1..], delim)
  }

  function WordLength(s: string): (n: nat)
    ensures n <= |s|
  {
    if s == "" || IsSpace(s[0]) then 0 else 1 + WordLength(s[1..])
  }

  predicate IsQuote(c: char) {
    c == '\'' || c == '"'
  }

  /** The argument that `t` starts with, and the bytes used up by it. */
  function FirstArg(t: string): (r: (string, nat))
    requires t != "" && !IsSpace(t[0])
    ensures 1 <= r.1 <= |t|
  {
    if IsQuote(t[0]) then
      var n := QuotedLength(t[1..], t[0]);
      var raw := t[1..n + 1];
      (if t[0] == '"' then UpToNul(Unescape(raw)) else raw, if n + 1 < |t| then n + 2 else n + 1)
    else
      var n := WordLength(t);
      (UpToNul(Unescape(t[..n])), if n < |t| then n + 1 else n)
  }

  /** The arguments of a line, as many as fit `room`. */
  function Tokens(s: string, room: nat): (r: seq<string>)
    ensures |r| <= room
    decreases room
  {
    var t := SkipSpaces(s);
    if room == 0 || t == "" then []
    else
      var (arg, n) := FirstArg(t);
      [arg] + Tokens(t[n..], room - 1)
  }

  // ---------------------------------------------------------------- printed arguments are read back

  lemma EscapedCharResolves(c: char, t: string)
    requires c as int < 256 && c != '\0'
    ensures FirstChar(EscapeChar(c) + t) == (c, |EscapeChar(c)|)
  {
    var e, n := EscapeChar(c), c as int;
    if |e| == 4 {
      OctalResolves(n, t);
    }
  }

  lemma OctalResolves(n: nat, t: string)
    requires n < 256
    ensures FirstChar("\\" + [OctalDigit(n / 64), OctalDigit(n / 8 % 8), OctalDigit(n % 8)] + t) == (n as char, 4)
  {
    var s := "\\" + [OctalDigit(n / 64), OctalDigit(n / 8 % 8), OctalDigit(n % 8)] + t;
    assert s[1] == OctalDigit(n / 64) && s[2] == OctalDigit(n / 8 % 8) && s[3] == OctalDigit(n % 8);
    assert n / 64 * 64 + n / 8 % 8 * 8 + n % 8 == n;
  }

  lemma BytesUnfold(s: string)
    requires s != "" && IsBytes(s)
    ensures s[0] as int < 256 && IsBytes(s[1..])
  {
  }

  /** resolve_backslashes undoes output_c_string. */
  lemma {:induction false} UnescapeEscape(s: string)
    requires IsBytes(s) && NulFree(s)
    ensures Unescape(Escape(s)) == s
  {
    hide EscapeChar, FirstChar, IsBytes;
    if s != "" {
      BytesUnfold(s);
      var e, rest := EscapeChar(s[0]), Escape(s[1..]);
      EscapedCharResolves(s[0], rest);
      assert (e + rest)[|e|..] == rest;
      UnescapeEscape(s[1..]);
      assert [s[0]] + s[1..] == s;
    }
  }

  lemma QuotedLengthStep(c: char, t: string)
    requires c != '"' && c != '\\'
    ensures QuotedLength([c] + t, '"') == 1 + QuotedLength(t, '"')
  {
    assert ([c] + t)[1..] == t;
  }

  lemma QuotedLengthOfEscapedChar(c: char, t: string)
    requires c as int < 256
    ensures QuotedLength(EscapeChar(c) + t, '"') == |EscapeChar(c)| + QuotedLength(t, '"')
  {
    var e := EscapeChar(c);
    if |e| == 1 {
      QuotedLengthStep(c, t);
    } else if |e| == 2 {
      assert (e + t)[2..] == t;
    } else {
      assert (e + t)[2..] == [e[2]] + ([e[3]] + t);
      QuotedLengthStep(e[2], [e[3]] + t);
      QuotedLengthStep(e[3], t);
    }
  }

  /** The closing quote of a printed argument is the one behind it. */
  lemma {:induction false} QuotedLengthOfEscape(s: string, rest: string)
    requires IsBytes(s)
    ensures QuotedLength(Escape(s) + "\"" + rest, '"') == |Escape(s)|
  {
    if s == "" {
      assert Escape(s) + "\"" + rest == "\"" + rest;
    } else {
      var more := Escape(s[1..]) + "\"" + rest;
      QuotedLengthOfEscape(s[1..], rest);
      assert Escape(s) + "\"" + rest == EscapeChar(s[0]) + more;
      QuotedLengthOfEscapedChar(s[0], more);
    }
  }

  lemma FirstArgOfCString(s: string, rest: string)
    requires IsBytes(s) && NulFree(s)
    ensures FirstArg(CString(s) + rest) == (s, |CString(s)|)
  {
    var t := CString(s) + rest;
    assert t[1..] == Escape(s) + "\"" + rest;
    QuotedLengthOfEscape(s, rest);
    assert t[1..|Escape(s)| + 1] == Escape(s);
    UnescapeEscape(s);
    UpToNulIsPrefix(s, |s|);
    assert s[..|s|] == s;
  }

  predicate AllSpaces(s: string) {
    forall i :: 0 <= i < |s| ==> IsSpace(s[i])
  }

  lemma {:induction false} SkipSpacesPrefix(s: string, t: string)
    requires AllSpaces(s)
    ensures SkipSpaces(s + t) == SkipSpaces(t)
  {
    if s == "" {
      assert s + t == t;
    } else {
      assert (s + t)[1..] == s[1..] + t;
      SkipSpacesPrefix(s[1..], t);
    }
  }

  lemma TokensStep(gap: string, arg: string, rest: string, room: nat)
    requires IsBytes(arg) && NulFree(arg) && AllSpaces(gap) && room > 0
    ensures Tokens(gap + (CString(arg) + rest), room) == [arg] + Tokens(rest, room - 1)
  {
    var t := CString(arg) + rest;
    SkipSpacesPrefix(gap, t);
    FirstArgOfCString(arg, rest);
    assert t[|CString(arg)|..] == rest;
  }

  lemma NoTokens(s: string, room: nat)
    requires SkipSpaces(s) == SkipSpaces("")
    ensures Tokens(s, room) == []
  {
  }

  lemma TclRowUnfold(args: seq<string>, colSep: string, rowSep: string)
    requires forall i :: 0 <= i < |args| ==> IsBytes(args[i])
    ensures TclRow(args, colSep, rowSep) ==
            if args == [] then rowSep
            else CString(args[0]) + ((if |args| > 1 then colSep else "") + TclRow(args[1..], colSep, rowSep))
  {
    hide CString, IsBytes;
  }

  lemma NoRoom(s: string)
    ensures Tokens(s, 0) == []
  {
  }

  function AtMost<T>(s: seq<T>, room: nat): seq<T> {
    if |s| <= room then s else s[..room]
  }

  /** A printed TCL row, read as a command line, gives back its arguments, or the first `room` of them. */
  lemma {:induction false} TokensOfTclRow(gap: string, args: seq<string>, colSep: string, rowSep: string, room: nat)
    requires forall i :: 0 <= i < |args| ==> IsBytes(args[i]) && NulFree(args[i])
    requires AllSpaces(gap) && AllSpaces(colSep) && AllSpaces(rowSep)
    ensures Tokens(gap + TclRow(args, colSep, rowSep), room) == AtMost(args, room)
    decreases |args|, room
  {
    hide CString, SkipSpaces, FirstArg, IsBytes, NulFree, Tokens, TclRow;
    TclRowUnfold(args, colSep, rowSep);
    if room == 0 {
      NoRoom(gap + TclRow(args, colSep, rowSep));
    } else if args == [] {
      SkipSpacesPrefix(gap + rowSep, "");
      assert gap + rowSep + "" == gap + rowSep;
      NoTokens(gap + rowSep, room);
    } else {
      var sep := if |args| > 1 then colSep else "";
      var rest := sep + TclRow(args[1..], colSep, rowSep);
      TokensStep(gap, args[0], rest, room);
      TokensOfTclRow(sep, args[1..], colSep, rowSep, room - 1);
      assert AtMost(args, room) == [args[0]] + AtMost(args[1..], room - 1);
    }
  }
}
