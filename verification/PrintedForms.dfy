/** What is printed and read, byte by byte: the small tables behind the printers and readers, spelled out. */
module PrintedForms {
  import opened CText
  import CommandText
  import opened LineSource
  import opened HttpHeader
  import opened HttpRequest
  import opened HttpResponse
  import opened RequestParserSink
  import HtmlText
  import HtmlGenerator
  import SqlQuoting
  import Recognisers
  import TableLayout

  // ---------------------------------------------------------------- character classes

  /** The classes of the "C" locale by their codes. */
  lemma CharClasses(c: char)
    ensures IsSpace(c) <==> c as int in {9, 10, 11, 12, 13, 32}
    ensures IsDigit(c) <==> 48 <= c as int <= 57
    ensures IsAlpha(c) <==> 65 <= c as int <= 90 || 97 <= c as int <= 122
    ensures IsAlnum(c) <==> IsAlpha(c) || IsDigit(c)
    ensures IsPrint(c) <==> 32 <= c as int <= 126
  {
  }

  // ---------------------------------------------------------------- C strings

  /** What output_c_string prints for one byte: five named escapes, three octal digits for what cannot be
      printed, and anything else as it is. */
  lemma PrintedByte(c: char)
    requires c as int < 256
    ensures var e, n := CommandText.EscapeChar(c), c as int;
            if n == 92 then e == "\\\\"
            else if n == 34 then e == "\\\""
            else if n == 9 then e == "\\t"
            else if n == 10 then e == "\\n"
            else if n == 13 then e == "\\r"
            else if 32 <= n <= 126 then e == [c]
            else
              && |e| == 4 && e[0] == '\\' && (forall i :: 1 <= i < 4 ==> '0' <= e[i] <= '7')
              && (e[1] as int - 48) * 64 + (e[2] as int - 48) * 8 + (e[3] as int - 48) == n
  {
    var n := c as int;
    assert n / 64 * 64 + n / 8 % 8 * 8 + n % 8 == n;
  }

  /** Quotes stand around it, and separators between the strings of a row only. */
  lemma PrintedTclRow(a: string, b: string, colSep: string, rowSep: string)
    requires IsBytes(a) && IsBytes(b)
    ensures CommandText.TclRow([a, b], colSep, rowSep)
            == "\"" + CommandText.Escape(a) + "\"" + colSep + "\"" + CommandText.Escape(b) + "\"" + rowSep
    ensures CommandText.TclRow([], colSep, rowSep) == rowSep
  {
    hide CommandText.Escape, IsBytes;
    assert [a, b][1..] == [b] && [b][1..] == [];
    assert CommandText.TclRow([b], colSep, rowSep) == CommandText.CString(b) + "" + rowSep;
  }

  /** The letter behind a backslash. */
  lemma LetterEscapes(c: char, rest: string)
    requires !('0' <= c <= '7')
    ensures var n := c as int;
            CommandText.FirstChar(['\\', c] + rest) ==
            (if n == 97 then 7 as char
             else if n == 98 then 8 as char
             else if n == 116 then 9 as char
             else if n == 110 then 10 as char
             else if n == 118 then 11 as char
             else if n == 102 then 12 as char
             else if n == 114 then 13 as char
             else c, 2)
  {
  }

  function Octal(n: nat): char
    requires n < 8
  {
    "01234567"[n]
  }

  lemma OctalIs(n: nat)
    requires n < 8
    ensures CommandText.IsOctal(Octal(n)) && CommandText.OctalValue(Octal(n)) == n
  {
  }

  /** One to three octal digits, as many as there are, modulo 256. */
  lemma ThreeOctals(a: nat, b: nat, c: nat, rest: string)
    requires a < 8 && b < 8 && c < 8
    ensures CommandText.FirstChar(['\\', Octal(a), Octal(b), Octal(c)] + rest) == (((a * 64 + b * 8 + c) % 256) as char, 4)
  {
    hide Octal, CommandText.OctalValue, CommandText.IsOctal;
    OctalIs(a);
    OctalIs(b);
    OctalIs(c);
  }

  lemma FewerOctals(a: nat, b: nat, rest: string)
    requires a < 8 && b < 8 && (rest == "" || !('0' <= rest[0] <= '7'))
    ensures CommandText.FirstChar(['\\', Octal(a), Octal(b)] + rest) == ((a * 8 + b) as char, 3)
    ensures CommandText.FirstChar(['\\', Octal(a)] + rest) == (a as char, 2)
  {
    hide Octal, CommandText.OctalValue;
    OctalIs(a);
    OctalIs(b);
  }

  /** A backslash at the end stands for itself, and so does any other byte. */
  lemma OtherChars(c: char, rest: string)
    ensures CommandText.FirstChar("\\") == ('\\', 1)
    ensures c != '\\' ==> CommandText.FirstChar([c] + rest) == (c, 1)
  {
  }

  // ---------------------------------------------------------------- lines

  /** What is left in a slot when the text ends without a line end: a CR at the end is dropped. */
  lemma {:induction false} UnfinishedLine(x: string)
    requires '\r' !in x && '\n' !in x
    ensures NextLine(x) == Tail(x) && NextLine(x + "\r") == Tail(x)
  {
    if x == "" {
      assert x + "\r" == "\r";
    } else {
      assert x[0] in x && (x + "\r")[1..] == x[1..] + "\r" && x == [x[0]] + x[1..];
      UnfinishedLine(x[1..]);
    }
  }

  /** A line goes behind what its slot held, whole or unfinished; only whole lines are counted. */
  lemma FilledSlot(slot: string, more: seq<string>, x: string, rest: string)
    requires '\r' !in x && '\n' !in x
    ensures CopyLines([slot] + more, x) == ([slot + x] + more, 0, "")
    ensures var (slots, n, left) := CopyLines(more, rest);
            CopyLines([slot] + more, x + "\r\n" + rest) == ([slot + x] + slots, n + 1, left)
  {
    hide NextLine, Received, Sendable;
    UnfinishedLine(x);
    CleanIsSendable(x);
    LineRoundTrip(x, rest);
    assert ([slot] + more)[1..] == more;
  }

  // ---------------------------------------------------------------- messages

  predicate NoLineEnd(x: string) {
    '\r' !in x && '\n' !in x
  }

  lemma WholeLine(x: string, rest: string)
    requires NoLineEnd(x)
    ensures NextLine(x + "\r\n" + rest) == Line(x, rest)
  {
    hide NextLine, Sendable;
    CleanIsSendable(x);
    LineRoundTrip(x, rest);
  }

  /** Where header parsing gives up: at the end of the text, and at a line without a byte behind a colon. */
  lemma RefusedHeaders(x: string, rest: string, seen: map<string, string>)
    requires NoLineEnd(x)
    ensures ParseHeaders(x, seen) == (Nothing, "")
    ensures x != "" && (forall i :: 0 <= i < |x| - 1 ==> x[i] != ':') ==> ParseHeaders(x + "\r\n" + rest, seen) == (Undefined, rest)
  {
    hide NextLine;
    UnfinishedLine(x);
    WholeLine(x, rest);
    if x != "" && forall i :: 0 <= i < |x| - 1 ==> x[i] != ':' {
      assert IndexOf(x, ':') + 1 >= |x|;
    }
  }

  /** Where the first line is refused: it does not end, or has fewer than two spaces; the rest of the text stays
      unread. */
  lemma RefusedRequests(x: string, y: string, rest: string)
    requires NoLineEnd(x) && NoLineEnd(y) && ' ' !in x && ' ' !in y
    ensures ParseRequest(x) == (Nothing, "") && ParseResponse(x) == (Nothing, "")
    ensures ParseRequest(x + "\r\n" + rest) == (Nothing, rest) && ParseResponse(x + "\r\n" + rest) == (Nothing, rest)
    ensures ParseRequest(x + " " + y + "\r\n" + rest) == (Nothing, rest)
    ensures ParseResponse(x + " " + y + "\r\n" + rest) == (Nothing, rest)
  {
    hide NextLine, IndexOf, ParseHeaders, ParseUnsigned;
    var line := x + " " + y;
    UnfinishedLine(x);
    WholeLine(x, rest);
    WholeLine(line, rest);
    IndexOfIs(x, ' ', |x|);
    assert line[..|x|] == x && line[|x| + 1..] == y;
    IndexOfIs(line, ' ', |x|);
    IndexOfIs(y, ' ', |y|);
  }

  /** A status that is no number is refused, the header lines unread. */
  lemma RefusedStatus(version: string, status: string, statusText: string, rest: string)
    requires Word(version) && Word(status) && NoLineEnd(statusText) && ParseUnsigned(status) == None
    ensures ParseResponse(version + " " + status + " " + statusText + "\r\n" + rest) == (Nothing, rest)
  {
    hide NextLine, SplitRequestLine, ParseHeaders, ParseUnsigned;
    SplitOfRequestLine(version, status, statusText);
    WholeLine(version + " " + status + " " + statusText, rest);
  }

  lemma PrintedHeader(key: string, value: string)
    ensures HeaderLine(key, value) == key + ": " + value + "\r\n"
  {
  }

  lemma PrintedTwoFields()
    ensures HeaderText(map["Accept" := "x", "Host" := "y"]) == "Accept: x\r\nHost: y\r\n"
  {
    hide HeaderText;
    var m, n := map["Accept" := "x", "Host" := "y"], map["Host" := "y"];
    assert m.Keys == {"Accept", "Host"} && |m| == 2;
    assert IsLeast("Accept", m.Keys);
    LeastIsUnique("Accept", m.Keys);
    assert m - {"Accept"} == n;
    HeaderTextUnfold(m);
    PrintedOneField("Host", "y");
  }

  lemma PrintedOneField(key: string, value: string)
    ensures HeaderText(map[key := value]) == HeaderLine(key, value)
  {
    hide HeaderText, HeaderLine;
    var m: map<string, string> := map[key := value];
    LexTotal(key, key);
    assert m.Keys == {key} && |m| == 1;
    assert IsLeast(key, m.Keys);
    LeastIsUnique(key, m.Keys);
    assert m - {key} == map[];
    HeaderTextUnfold(m);
    HeaderTextUnfold(map[]);
  }

  /** A whole request and a whole response. */
  lemma PrintedRequest(verb: string, path: string, version: string)
    ensures RequestText(Request(verb, path, version, map["Accept" := "x", "Host" := "y"]))
            == verb + " " + path + " " + version + "\r\n" + ("Accept: x\r\nHost: y\r\n" + "\r\n")
  {
    hide HeaderText;
    PrintedTwoFields();
  }

  lemma PrintedResponse(version: string, statusText: string, key: string, value: string)
    ensures ResponseText(Response(version, 404, statusText, Some(map[key := value])))
            == version + " " + "404" + " " + statusText + "\r\n" + (key + ": " + value + "\r\n" + "\r\n")
  {
    hide HeaderText, Decimal;
    PrintedOneField(key, value);
    Decimal404();
  }

  lemma Decimal404()
    ensures Decimal(404) == "404"
  {
    assert Decimal(4) == "4" && Decimal(40) == "40";
  }

  /** Which numbers a status can be, and how signs are read: a minus sign counts down from 2 to the 32. */
  lemma ReadNumber(n: nat)
    ensures ParseUnsigned(Decimal(n)) == if n < 4294967296 then Some(n) else None
    ensures ParseUnsigned("+" + Decimal(n)) == if n < 4294967296 then Some(n) else None
    ensures ParseUnsigned("-" + Decimal(n)) == if n < 4294967296 then Some((4294967296 - n) % 4294967296) else None
  {
    hide Decimal, DigitsValue;
    DecimalRoundTrip(n);
    assert ("+" + Decimal(n))[1..] == Decimal(n) && ("-" + Decimal(n))[1..] == Decimal(n);
    assert IsDigit(Decimal(n)[0]);
  }

  lemma NoNumbers(c: char)
    requires !IsDigit(c)
    ensures ParseUnsigned("") == None && ParseUnsigned([c]) == None && ParseUnsigned(['1', c]) == None
  {
    assert [c][1..] == "";
    assert ['1', c][1] == c;
  }

  /** In the push parser the LF behind a CR may be missing, and so may the space behind a colon. */
  lemma OptionalCharacters(m: Machine, c: char, rest: string)
    ensures m.state == VersionLf || m.state == ValueLf ==>
              Feed(m, [c] + rest) == Feed(m.(state := Key), if c == '\n' then rest else [c] + rest)
    ensures m.state == EndLf ==> Feed(m, [c] + rest) == Feed(m.(state := Verb), if c == '\n' then rest else [c] + rest)
    ensures m.state == ValueSpace ==> Feed(m, [c] + rest) == Feed(m.(state := Value), if c == ' ' then rest else [c] + rest)
  {
    hide Feed, Collect, Finish, IndexOf;
    var s := [c] + rest;
    assert s[1..] == rest;
    FeedUnfold(m, s);
  }

  // ---------------------------------------------------------------- HTML

  lemma PrintedEntities(apos: string)
    ensures HtmlText.Escape("&", apos) == "&amp;" && HtmlText.Escape("<", apos) == "&lt;" && HtmlText.Escape(">", apos) == "&gt;"
    ensures HtmlText.Escape("\"", apos) == "&quot;" && HtmlText.Escape("'", apos) == apos
    ensures HtmlGenerator.APOS == "&apos;"
  {
    hide HtmlText.Escape;
    HtmlText.EscapeOne('&', apos);
    HtmlText.EscapeOne('<', apos);
    HtmlText.EscapeOne('>', apos);
    HtmlText.EscapeOne('"', apos);
    HtmlText.EscapeOne('\'', apos);
  }

  lemma {:induction false} PrintedInOrder(a: seq<HtmlGenerator.Html>, b: seq<HtmlGenerator.Html>)
    ensures HtmlGenerator.RenderAll(a + b) == HtmlGenerator.RenderAll(a) + HtmlGenerator.RenderAll(b)
  {
    hide HtmlGenerator.Render;
    if a == [] {
      assert a + b == b;
    } else {
      assert (a + b)[0] == a[0] && (a + b)[1..] == a[1..] + b;
      PrintedInOrder(a[1..], b);
    }
  }

  /** Raw text stands as it is, wherever it is written. */
  lemma RawStands(before: seq<HtmlGenerator.Html>, text: string, after: seq<HtmlGenerator.Html>)
    ensures HtmlGenerator.RenderAll(before + [HtmlGenerator.Raw(text)] + after)
            == HtmlGenerator.RenderAll(before) + text + HtmlGenerator.RenderAll(after)
  {
    hide HtmlGenerator.RenderAll;
    PrintedInOrder(before + [HtmlGenerator.Raw(text)], after);
    PrintedInOrder(before, [HtmlGenerator.Raw(text)]);
    RawAlone(text);
  }

  lemma RawAlone(text: string)
    ensures HtmlGenerator.RenderAll([HtmlGenerator.Raw(text)]) == text
  {
    assert HtmlGenerator.RenderAll([HtmlGenerator.Raw(text)][1..]) == "";
  }

  /** The tags of an element and of its single form. */
  lemma PrintedTags(content: seq<HtmlGenerator.Html>)
    ensures HtmlGenerator.Render(HtmlGenerator.Element("p", content)) == "<p>" + HtmlGenerator.RenderAll(content) + "</p>"
    ensures HtmlGenerator.Render(HtmlGenerator.EmptyElement("hr")) == "<hr/>"
  {
    hide HtmlText.Escape, HtmlGenerator.RenderAttributes, HtmlGenerator.RenderAll;
    HtmlText.EscapePlain("p", HtmlGenerator.APOS);
    NoAttributes();
    assert HtmlGenerator.OpenTag("p", []) == "<p>";
  }

  lemma PrintedTextElement()
    ensures HtmlGenerator.Render(HtmlGenerator.TextElement("i", "x")) == "<i>x</i>"
  {
    hide HtmlText.Escape, HtmlGenerator.RenderAttributes;
    HtmlText.EscapePlain("i", HtmlGenerator.APOS);
    HtmlText.EscapePlain("x", HtmlGenerator.APOS);
    NoAttributes();
    assert HtmlGenerator.OpenTag("i", []) == "<i>" && HtmlGenerator.CloseTag("i") == "</i>";
  }

  /** Attributes with and without a value, in both kinds of tag. */
  lemma PrintedAttributedTags(content: seq<HtmlGenerator.Html>)
    ensures var attributes := [HtmlGenerator.Attribute("k", Some("v")), HtmlGenerator.Attribute("b", None)];
            && HtmlGenerator.Render(HtmlGenerator.AttributedElement("p", attributes, content))
               == "<p k=\"v\" b>" + HtmlGenerator.RenderAll(content) + "</p>"
            && HtmlGenerator.Render(HtmlGenerator.EmptyAttributedElement("p", attributes)) == "<p k=\"v\" b/>"
  {
    hide HtmlText.Escape, HtmlGenerator.RenderAttributes, HtmlGenerator.RenderAll;
    HtmlText.EscapePlain("p", HtmlGenerator.APOS);
    PrintedAttributes();
    var attributes := [HtmlGenerator.Attribute("k", Some("v")), HtmlGenerator.Attribute("b", None)];
    assert HtmlGenerator.OpenTag("p", attributes) == "<p k=\"v\" b>" && HtmlGenerator.CloseTag("p") == "</p>";
    assert "<" + "p" + " k=\"v\" b" + "/>" == "<p k=\"v\" b/>";
  }

  lemma NoAttributes()
    ensures HtmlGenerator.RenderAttributes([]) == ""
  {
  }

  lemma PrintedAttributes()
    ensures HtmlGenerator.RenderAttributes([HtmlGenerator.Attribute("k", Some("v")), HtmlGenerator.Attribute("b", None)])
            == " k=\"v\" b"
  {
    hide HtmlText.Escape;
    HtmlText.EscapePlain("v", HtmlGenerator.APOS);
    var a, b := HtmlGenerator.Attribute("k", Some("v")), HtmlGenerator.Attribute("b", None);
    assert [a, b][1..] == [b] && [b][1..] == [];
    assert HtmlGenerator.RenderAttributes([b]) == " b";
  }

  // ---------------------------------------------------------------- SQL

  /** A table name is left alone if it starts with a letter or underscore and has digits, letters and
      underscores only. */
  lemma PrintedTableName(s: string)
    ensures var letters := forall i :: 0 <= i < |s| ==>
                             s[i] == '_' || '0' <= s[i] <= '9' || 'A' <= s[i] <= 'Z' || 'a' <= s[i] <= 'z';
            SqlQuoting.TableName(s) ==
            if s != "" && letters && !('0' <= s[0] <= '9') then s else "'" + Doubled(s, '\'') + "'"
  {
    hide Doubled;
  }

  lemma PrintedAppend(s: string, quote: char)
    ensures SqlQuoting.Appended(s, quote) == if quote == '\0' then s else [quote] + Doubled(s, quote) + [quote]
    ensures Doubled("a" + [quote] + "b", quote) == (if quote == 'a' then "aa" else "a") + [quote, quote] + (if quote == 'b' then "bb" else "b")
  {
    var t := "a" + [quote] + "b";
    assert t[1..] == [quote] + "b" && t[1..][1..] == "b" && "b"[1..] == "";
    assert Doubled("b", quote) == if quote == 'b' then "bb" else "b";
    assert Doubled([quote] + "b", quote) == [quote, quote] + Doubled("b", quote);
  }

  // ---------------------------------------------------------------- numbers and blank lines

  lemma SomeNumbers()
    ensures Recognisers.Recognise("7") == Some(false)
    ensures Recognisers.Recognise("-7.5") == Some(true)
    ensures Recognisers.Recognise("+7e4") == Some(true)
    ensures Recognisers.Recognise("7.5E-4") == Some(true)
  {
    hide Recognisers.Recognise;
    Recognisers.NumeralIsRecognised("", "7", "", "");
    Recognisers.NumeralIsRecognised("-", "7", ".5", "");
    Recognisers.NumeralIsRecognised("+", "7", "", "e4");
    Recognisers.NumeralIsRecognised("", "7", ".5", "E-4");
    assert "" + "7" + "" + "" == "7" && "-" + "7" + ".5" + "" == "-7.5";
    assert "+" + "7" + "" + "e4" == "+7e4" && "" + "7" + ".5" + "E-4" == "7.5E-4";
  }

  lemma NotNumbers()
    ensures Recognisers.Recognise("") == None
    ensures Recognisers.Recognise(".5") == None
    ensures Recognisers.Recognise("--7") == None
    ensures Recognisers.Recognise("7.") == None
    ensures Recognisers.Recognise("7e") == None
    ensures Recognisers.Recognise("7 ") == None
  {
    hide Recognisers.DigitRun;
    DigitRuns();
    assert "--7"[1..] == "-7" && "7."[1..] == "." && "."[1..] == "" && "7e"[1..] == "e" && "e"[1..] == "" && "7 "[1..] == " ";
    assert Recognisers.SkipDigits("7.") == Some(".") && Recognisers.SkipFraction(".") == None;
    assert Recognisers.SkipDigits("7e") == Some("e") && Recognisers.SkipExponent("e") == None;
    assert Recognisers.SkipDigits("7 ") == Some(" ");
  }

  lemma DigitRuns()
    ensures Recognisers.DigitRun("") == 0 && Recognisers.DigitRun(".5") == 0 && Recognisers.DigitRun("-7") == 0
    ensures Recognisers.DigitRun("7.") == 1 && Recognisers.DigitRun("7e") == 1 && Recognisers.DigitRun("7 ") == 1
  {
    assert "7."[1..] == "." && "7e"[1..] == "e" && "7 "[1..] == " ";
  }

  lemma SomeBlankLines()
    ensures Recognisers.AllWhite(" /* x */-- y")
    ensures Recognisers.AllWhite("--\n")
    ensures !Recognisers.AllWhite("x") && !Recognisers.AllWhite("/* x") && !Recognisers.AllWhite("/") && !Recognisers.AllWhite("-")
  {
    hide Recognisers.AllWhite, IndexOf, Recognisers.BlockLength;
    var blank, block := Recognisers.Blank(' '), Recognisers.Block(" x ");
    BlockIsPiece();
    assert [blank, block][1..] == [block] && [block][1..] == [];
    assert Recognisers.PrintAll([block]) == "/* x */";
    assert Recognisers.PrintAll([blank, block]) == " /* x */";
    assert "-- y"[2..] == " y";
    Recognisers.PiecesAreWhite([blank, block], "-- y");
    assert " /* x */" + "-- y" == " /* x */-- y" && "--\n" + "" == "--\n";
    var comment := Recognisers.LineComment("");
    assert [comment][1..] == [] && Recognisers.PrintAll([comment]) == "--\n";
    Recognisers.PiecesAreWhite([comment], "");
    Recognisers.WhiteUnfold("x");
    Recognisers.WhiteUnfold("/* x");
    Recognisers.WhiteUnfold("/");
    Recognisers.WhiteUnfold("-");
    OpenBlock();
  }

  lemma BlockIsPiece()
    ensures Recognisers.IsPiece(Recognisers.Block(" x "))
  {
    assert " x " + "*/" == " x */";
    assert " x */"[0..][0] == ' ' && " x */"[1..][0] == 'x' && " x */"[2..][0] == ' ';
  }

  lemma OpenBlock()
    ensures "/* x"[2..] == " x" && Recognisers.BlockLength(" x") == 2
  {
    assert " x"[1..] == "x" && "x"[1..] == "";
  }

  // ---------------------------------------------------------------- tables

  lemma PrintedListing()
    ensures TableLayout.PrintRows(3, 2) == 1
    ensures TableLayout.Listing(["a", "bb", "c"], 0, 1, 2) == "a   bb  c \n"
  {
    hide TableLayout.LineText, TableLayout.Spaces;
    var names := ["a", "bb", "c"];
    TableLayout.LineTextUnfold(names, 0, 1, 2);
    TableLayout.LineTextUnfold(names, 1, 1, 2);
    TableLayout.LineTextUnfold(names, 2, 1, 2);
    TableLayout.LineTextUnfold(names, 3, 1, 2);
    FewSpaces();
    assert TableLayout.Cell("a", 0, 1, 2) == "a ";
    assert TableLayout.Cell("bb", 1, 1, 2) == "  bb";
    assert TableLayout.Cell("c", 2, 1, 2) == "  c ";
    assert TableLayout.LineText(names, 0, 1, 2) == "a   bb  c ";
    assert TableLayout.Listing(names, 1, 1, 2) == "";
  }

  lemma FewSpaces()
    ensures TableLayout.Spaces(0) == "" && TableLayout.Spaces(1) == " "
  {
  }
}
