/** Command lines as they are typed: bare words, quoted arguments and white space. */
module CommandWords {
  import opened CText
  import opened CommandText
  import opened CommandLine
  import opened Tokenizer

  datatype Word =
    | Bare(text: string)
    | Quoted(text: string)
    | Verbatim(text: string)

  /** How a word is typed: as it is, the way output_c_string prints it, or between apostrophes. */
  function Typed(w: Word): string {
    match w
    case Bare(text) => text
    case Quoted(text) => if IsBytes(text) then CString(text) else ""
    case Verbatim(text) => "'" + text + "'"
  }

  /** What it stands for: backslashes are resolved in bare words, but not between apostrophes. */
  function Meaning(w: Word): string {
    match w
    case Bare(text) => UpToNul(Unescape(text))
    case Quoted(text) => text
    case Verbatim(text) => text
  }

  predicate IsWhite(c: char) {
    c == ' ' || c == '\t' || c == '\n' || c as int == 11 || c as int == 12 || c == '\r'
  }

  /** A bare word has no white space in it and no quote in front. */
  predicate IsWord(w: Word) {
    match w
    case Bare(text) =>
      text != "" && NulFree(text) && text[0] != '"' && text[0] != '\'' && forall i :: 0 <= i < |text| ==> !IsWhite(text[i])
    case Quoted(text) => IsBytes(text) && NulFree(text)
    case Verbatim(text) => NulFree(text) && '\'' !in text
  }

  predicate IsGap(s: string) {
    forall i :: 0 <= i < |s| ==> IsWhite(s[i])
  }

  /** Words, each behind a gap. */
  predicate AreWords(ws: seq<(string, Word)>) {
    && (forall i :: 0 <= i < |ws| ==> IsGap(ws[i].0) && IsWord(ws[i].1))
    && (forall i :: 0 < i < |ws| && ws[i - 1].1.Bare? ==> ws[i].0 != "")
  }

  function Line(ws: seq<(string, Word)>, tail: string): string {
    if ws == [] then tail else ws[0].0 + (Typed(ws[0].1) + Line(ws[1..], tail))
  }

  function Meanings(ws: seq<(string, Word)>): seq<string> {
    if ws == [] then [] else [Meaning(ws[0].1)] + Meanings(ws[1..])
  }

  // ---------------------------------------------------------------- one word

  lemma WhiteIsSpace(c: char)
    ensures IsWhite(c) <==> IsSpace(c)
  {
  }

  lemma {:induction false} WordLengthIs(text: string, rest: string)
    requires forall i :: 0 <= i < |text| ==> !IsWhite(text[i])
    requires rest == "" || IsWhite(rest[0])
    ensures WordLength(text + rest) == |text|
  {
    if text == "" {
      assert text + rest == rest;
    } else {
      assert (text + rest)[1..] == text[1..] + rest;
      WordLengthIs(text[1..], rest);
    }
  }

  lemma {:induction false} QuotedLengthIs(text: string, rest: string)
    requires '\'' !in text
    ensures QuotedLength(text + ("'" + rest), '\'') == |text|
  {
    var s := text + ("'" + rest);
    if text != "" {
      assert s[1..] == text[1..] + ("'" + rest) && text[0] in text;
      QuotedLengthIs(text[1..], rest);
    }
  }

  /** The separator behind a bare word is overwritten with its terminator. */
  function Behind(w: Word, rest: string): string {
    if w.Bare? && rest != "" then rest[1..] else rest
  }

  lemma FirstArgIs(w: Word, rest: string)
    requires IsWord(w) && (w.Bare? ==> rest == "" || IsWhite(rest[0]))
    ensures var t := Typed(w) + rest;
            && t != "" && !IsSpace(t[0])
            && FirstArg(t).0 == Meaning(w) && t[FirstArg(t).1..] == Behind(w, rest)
  {
    hide UpToNul, Unescape, FirstArg, CString, NulFree, IsBytes;
    match w
    case Bare(text) =>
      BareArg(text, rest);
    case Quoted(text) =>
      QuotedArg(text, rest);
    case Verbatim(text) =>
      VerbatimArg(text, rest);
  }

  lemma BareArg(text: string, rest: string)
    requires IsWord(Bare(text)) && (rest == "" || IsWhite(rest[0]))
    ensures var t := text + rest;
            && t != "" && !IsSpace(t[0])
            && FirstArg(t) == (UpToNul(Unescape(text)), if rest == "" then |text| else |text| + 1)
            && t[if rest == "" then |text| else |text| + 1..] == if rest == "" then "" else rest[1..]
  {
    hide UpToNul, Unescape, WordLength, QuotedLength, NulFree;
    var t := text + rest;
    WordLengthIs(text, rest);
    WhiteIsSpace(t[0]);
    assert t[..|text|] == text && t[0] == text[0];
    assert rest != "" ==> t[|text| + 1..] == rest[1..];
  }

  lemma VerbatimArg(text: string, rest: string)
    requires '\'' !in text
    ensures var t := "'" + text + "'" + rest;
            FirstArg(t) == (text, |text| + 2) && t[|text| + 2..] == rest
  {
    hide UpToNul, Unescape, WordLength, QuotedLength;
    var t := "'" + text + "'" + rest;
    assert t[1..] == text + ("'" + rest);
    QuotedLengthIs(text, rest);
    assert t[1..|text| + 1] == text && t[|text| + 2..] == rest;
  }

  lemma QuotedArg(text: string, rest: string)
    requires IsBytes(text) && NulFree(text)
    ensures var t := CString(text) + rest;
            t != "" && !IsSpace(t[0]) && FirstArg(t).0 == text && t[FirstArg(t).1..] == rest
  {
    hide FirstArg;
    FirstArgOfCString(text, rest);
    var t := CString(text) + rest;
    assert t[|CString(text)|..] == rest;
  }

  lemma GapIsSpaces(gap: string)
    requires IsGap(gap)
    ensures AllSpaces(gap)
  {
    forall i | 0 <= i < |gap|
      ensures IsSpace(gap[i])
    {
      WhiteIsSpace(gap[i]);
    }
  }

  lemma NextWord(gap: string, w: Word, rest: string, room: nat)
    requires IsGap(gap) && IsWord(w) && (w.Bare? ==> rest == "" || IsWhite(rest[0])) && room > 0
    ensures Tokens(gap + (Typed(w) + rest), room) == [Meaning(w)] + Tokens(rest, room - 1)
  {
    hide Tokens, FirstArg, SkipSpaces, Meaning, Typed, IsWord;
    var t := Typed(w) + rest;
    GapIsSpaces(gap);
    FirstArgIs(w, rest);
    SkipSpacesPrefix(gap, t);
    NoSpaceToSkip(t);
    TokensUnfold(gap + t, t, room);
    if w.Bare? && rest != "" {
      GapBehindWord(rest, room - 1);
    }
  }

  lemma NoSpaceToSkip(t: string)
    requires t != "" && !IsSpace(t[0])
    ensures SkipSpaces(t) == t
  {
  }

  lemma GapBehindWord(rest: string, room: nat)
    requires rest != "" && IsWhite(rest[0])
    ensures Tokens(rest[1..], room) == Tokens(rest, room)
  {
    WhiteIsSpace(rest[0]);
    assert SkipSpaces(rest) == SkipSpaces(rest[1..]);
  }

  // ---------------------------------------------------------------- lines

  /** The tokens of a line are the meanings of its words, as many as there is room for. */
  lemma {:induction false} TokensOfLine(ws: seq<(string, Word)>, tail: string, room: nat)
    requires AreWords(ws) && IsGap(tail)
    ensures Tokens(Line(ws, tail), room) == AtMost(Meanings(ws), room)
    decreases |ws|
  {
    hide Tokens, Meaning, Typed, IsWord, IsGap;
    if room == 0 {
      NoRoom(Line(ws, tail));
    } else if ws == [] {
      GapHasNoTokens(tail, room);
    } else {
      var (gap, w) := ws[0];
      var rest := Line(ws[1..], tail);
      RestIsSeparated(ws, tail);
      NextWord(gap, w, rest, room);
      RestAreWords(ws);
      TokensOfLine(ws[1..], tail, room - 1);
      assert AtMost(Meanings(ws), room) == [Meaning(w)] + AtMost(Meanings(ws[1..]), room - 1);
    }
  }

  lemma GapHasNoTokens(gap: string, room: nat)
    requires IsGap(gap)
    ensures Tokens(gap, room) == []
  {
    GapIsSpaces(gap);
    SkipSpacesPrefix(gap, "");
    assert gap + "" == gap;
    NoTokens(gap, room);
  }

  lemma RestAreWords(ws: seq<(string, Word)>)
    requires AreWords(ws) && ws != []
    ensures AreWords(ws[1..])
  {
    hide IsWord, IsGap;
    var t := ws[1..];
    assert forall i :: 0 <= i < |t| ==> t[i] == ws[i + 1];
  }

  lemma RestIsSeparated(ws: seq<(string, Word)>, tail: string)
    requires AreWords(ws) && ws != [] && IsGap(tail)
    ensures var rest := Line(ws[1..], tail); ws[0].1.Bare? ==> rest == "" || IsWhite(rest[0])
  {
    hide IsWord, Typed;
    if |ws| > 1 {
      assert ws[1..][0] == ws[1];
    }
  }

  /** A typed line behind its dot, as the tokenizer takes it apart. */
  lemma {:induction false} TypedLine(ws: seq<(string, Word)>, tail: string)
    requires AreWords(ws) && IsGap(tail)
    ensures var line := "." + Line(ws, tail) + "\0";
            CStringIn(line, 1, |line| - 1) && Tokens(line[1..|line| - 1], MAX_ARGS) == AtMost(Meanings(ws), 50)
  {
    hide Tokens, IsGap, IsWord, Line, Meanings;
    var text := Line(ws, tail);
    var line := "." + text + "\0";
    assert line[1..|line| - 1] == text;
    LineHasNoNul(ws, tail);
    TokensOfLine(ws, tail, MAX_ARGS);
  }

  lemma {:induction false} LineHasNoNul(ws: seq<(string, Word)>, tail: string)
    requires AreWords(ws) && IsGap(tail)
    ensures NulFree(Line(ws, tail))
    decreases |ws|
  {
    hide Typed, IsWord;
    if ws == [] {
      assert forall i :: 0 <= i < |tail| ==> tail[i] != '\0';
    } else {
      TypedHasNoNul(ws[0].1);
      RestAreWords(ws);
      LineHasNoNul(ws[1..], tail);
      assert forall i :: 0 <= i < |ws[0].0| ==> ws[0].0[i] != '\0';
    }
  }

  lemma TypedHasNoNul(w: Word)
    requires IsWord(w)
    ensures NulFree(Typed(w))
  {
    hide IsBytes, Escape;
    if w.Quoted? {
      EscapeHasNoNul(w.text);
    }
  }

  /** A word without backslashes stands for itself. */
  lemma PlainWord(text: string)
    requires NulFree(text) && '\\' !in text
    ensures Meaning(Bare(text)) == text
  {
    UnescapePlainPrefix(text, "");
    assert text + "" == text;
    UpToNulIsPrefix(text, |text|);
    assert text[..|text|] == text;
  }

  /** Words without backslashes, between gaps, stand for themselves. */
  lemma {:induction false} PlainWords(ws: seq<(string, Word)>)
    requires AreWords(ws) && forall i :: 0 <= i < |ws| ==> ws[i].1.Bare? && '\\' !in ws[i].1.text
    ensures |Meanings(ws)| == |ws| && forall i :: 0 <= i < |ws| ==> Meanings(ws)[i] == ws[i].1.text
  {
    if ws != [] {
      PlainWord(ws[0].1.text);
      RestAreWords(ws);
      PlainWords(ws[1..]);
      assert forall i :: 0 < i < |ws| ==> ws[i] == ws[1..][i - 1];
    }
  }

  /** An argument whose quote is never closed reaches to the end of the line. */
  lemma OpenArgument(text: string, room: nat)
    requires IsBytes(text) && NulFree(text) && room > 0
    ensures Tokens("\"" + Escape(text), room) == [text]
  {
    hide Tokens, SkipSpaces, FirstArg, Escape, IsBytes, NulFree;
    var t := "\"" + Escape(text);
    OpenArg(text);
    NoSpaceToSkip(t);
    TokensUnfold(t, t, room);
    assert t[|t|..] == "";
    GapHasNoTokens("", room - 1);
  }

  lemma OpenArg(text: string)
    requires IsBytes(text) && NulFree(text)
    ensures var t := "\"" + Escape(text); FirstArg(t) == (text, |t|)
  {
    hide Unescape, Escape, QuotedLength, IsBytes, UpToNul;
    var t := "\"" + Escape(text);
    QuotedLengthOfOpen(text);
    assert t[1..] == Escape(text) && t[1..|Escape(text)| + 1] == Escape(text);
    UnescapeEscape(text);
    UpToNulIsPrefix(text, |text|);
    assert text[..|text|] == text;
    FirstArgIsQuoted(t);
  }

  lemma {:induction false} QuotedLengthOfOpen(text: string)
    requires IsBytes(text)
    ensures QuotedLength(Escape(text), '"') == |Escape(text)|
  {
    hide QuotedLength;
    if text == "" {
      NothingQuoted();
    } else {
      BytesUnfold(text);
      QuotedLengthOfEscapedChar(text[0], Escape(text[1..]));
      QuotedLengthOfOpen(text[1..]);
    }
  }

  lemma NothingQuoted()
    ensures QuotedLength("", '"') == 0
  {
  }
}
