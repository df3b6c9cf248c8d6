/** What the field reader of `.import` makes of text that the CSV printer never writes. */
module CsvUnusual {
  import opened CText
  import opened CsvFormat
  import opened CsvImport
  import opened CsvRoundTrip

  // ---------------------------------------------------------------- separators and bindings

  /** The value of a C int. */
  function IntValue(c: Code): int {
    match c
    case Eof => -1
    case Byte(b) => b as int
    case Negative(n) => n
  }

  lemma ConvertedIs(b: char, signed: bool)
    requires b as int < 256
    ensures IntValue(Converted(b, signed)) == if signed && b as int >= 128 then b as int - 256 else b as int
  {
  }

  /** Behind a NUL nothing of a field is bound. */
  lemma BoundUpToNul(x: string, y: string)
    requires NulFree(x)
    ensures Bound(Some(x + "\0" + y)) == Some(x) && Bound(Some(x)) == Some(x) && Bound(None) == None
  {
    hide UpToNul;
    var s := x + "\0" + y;
    assert s[..|x|] == x && x[..|x|] == x;
    UpToNulIsPrefix(s, |x|);
    UpToNulIsPrefix(x, |x|);
  }

  // ---------------------------------------------------------------- quoted fields

  /** A field behind its opening quote. */
  function Opened(r: Reader, s: string): Reader {
    r.(input := s)
  }

  lemma OpenField(r: Reader, s: string, seps: Separators)
    requires r.input == "\"" + s
    ensures var field := ReadQuoted(Opened(r, s), "", '\0', '\0', r.line, seps); ReadField(r, seps) == (Some(field.0), field.1)
  {
    hide ReadQuoted, ReadPlain;
    assert r.input[1..] == s;
  }

  lemma EndingAtEof(r: Reader, text: string, ppc: char, start: int, seps: Separators)
    requires r.input == ""
    ensures Lookback(text + "\"", '"', ppc)
    ensures ReadQuoted(r, text + "\"", '"', ppc, start, seps) == (text, r.(line := NextLine(r.line, Eof, seps), term := Eof))
  {
    hide BeforeLastQuote;
    var acc := text + "\"";
    assert acc[|text|] == '"';
    BeforeLastQuoteIs(acc, |text|);
    assert acc[..|text|] == text;
    assert QuotedTurn(r, acc, '"', ppc, start, seps).Break?;
  }

  /** A closing quote at the end of the file ends the field like one in front of a separator. */
  lemma ClosedAtEof(r: Reader, x: string, seps: Separators)
    requires seps.row != Byte('"') && seps.row != Eof && r.input == "\"" + (Doubled(x, '"') + "\"")
    ensures ReadField(r, seps) == (Some(x), Reader("", r.line + CountCode(x, seps.row), Eof, r.log))
  {
    hide ReadQuoted, ReadPlain, QuotedTurn, Doubled, ReadField, CountCode;
    OpenField(r, Doubled(x, '"') + "\"", seps);
    var pc, ppc, r1 := ReadDoubled(Opened(r, Doubled(x, '"') + "\""), x, "\"", "", '\0', '\0', r.line, seps);
    assert "" + x == x;
    StoringTurn(r1, '"', "", x, pc, ppc, r.line, seps);
    EndingAtEof(r1.(input := ""), x, pc, r.line, seps);
  }

  /** A field that is never closed is everything up to the end of the file, and is reported with the line it
      starts on. */
  lemma NeverClosed(r: Reader, x: string, seps: Separators)
    requires seps.row != Byte('"') && seps.row != Eof && r.input == "\"" + Doubled(x, '"')
    ensures ReadField(r, seps) == (Some(x), Reader("", r.line + CountCode(x, seps.row), Eof, r.log + [UnterminatedField(r.line)]))
  {
    hide ReadQuoted, ReadPlain, QuotedTurn, Doubled, ReadField, CountCode;
    OpenField(r, Doubled(x, '"'), seps);
    assert Doubled(x, '"') + "" == Doubled(x, '"');
    var pc, ppc, r1 := ReadDoubled(Opened(r, Doubled(x, '"')), x, "", "", '\0', '\0', r.line, seps);
    assert "" + x == x;
    UnclosedTurn(r1, x, pc, ppc, r.line, seps);
  }

  lemma UnclosedTurn(r: Reader, acc: string, pc: char, ppc: char, start: int, seps: Separators)
    requires Lookback(acc, pc, ppc) && pc != '"' && r.input == "" && seps.row != Eof
    ensures ReadQuoted(r, acc, pc, ppc, start, seps) == (acc, r.(term := Eof, log := r.log + [UnterminatedField(start)]))
  {
    hide BeforeLastQuote;
    assert QuotedTurn(r, acc, pc, ppc, start, seps).Break?;
  }

  /** The rest of a field: text, closing quote and separator. */
  lemma RestOfField(r: Reader, y: string, end: char, rest: string, acc: string, pc: char, ppc: char, start: int, seps: Separators)
    requires Lookback(acc, pc, ppc) && pc != '"' && !(pc == '\r' && ppc == '"') && seps.row != Byte('"')
    requires (Byte(end) == seps.col || Byte(end) == seps.row) && end != '"'
    requires r.input == Doubled(y, '"') + ("\"" + ([end] + rest))
    ensures var (text, r1) := ReadQuoted(r, acc, pc, ppc, start, seps);
            text == acc + y && r1.input == rest && r1.term == Byte(end) && r1.log == r.log
  {
    hide ReadQuoted, QuotedTurn, Doubled, CountCode;
    var pc1, ppc1, r1 := ReadDoubled(r, y, "\"" + ([end] + rest), acc, pc, ppc, start, seps);
    StoringTurn(r1, '"', [end] + rest, acc + y, pc1, ppc1, start, seps);
    var r2 := r1.(input := [end] + rest);
    EndingTurn(r2, end, rest, acc + y, acc + y + "\"", '"', pc1, start, seps);
  }

  /** A single quote in front of any other byte is kept, the field goes on, and the line is reported. */
  lemma SingleQuote(r: Reader, x: string, c: char, y: string, end: char, rest: string, seps: Separators)
    requires seps.row != Byte('"') && c != '"' && c != '\r' && Byte(c) != seps.col && Byte(c) != seps.row
    requires (Byte(end) == seps.col || Byte(end) == seps.row) && end != '"'
    requires r.input == "\"" + (Doubled(x, '"') + ("\"" + ([c] + (Doubled(y, '"') + ("\"" + ([end] + rest))))))
    ensures var (text, r1) := ReadField(r, seps);
            && text == Some(x + "\"" + [c] + y) && r1.input == rest && r1.term == Byte(end)
            && r1.log == r.log + [UnescapedQuote(r.line + CountCode(x, seps.row))]
  {
    hide ReadQuoted, ReadPlain, QuotedTurn, Doubled, ReadField, CountCode;
    var s3 := Doubled(y, '"') + ("\"" + ([end] + rest));
    var s1 := "\"" + ([c] + s3);
    OpenField(r, Doubled(x, '"') + s1, seps);
    var pc, ppc, r1 := ReadDoubled(Opened(r, Doubled(x, '"') + s1), x, s1, "", '\0', '\0', r.line, seps);
    assert "" + x == x;
    StoringTurn(r1, '"', [c] + s3, x, pc, ppc, r.line, seps);
    var r2 := r1.(input := [c] + s3);
    ReportedTurn(r2, c, s3, x + "\"", pc, r.line, seps);
    var r3 := r2.(input := s3, log := r.log + [UnescapedQuote(r2.line)]);
    RestOfField(r3, y, end, rest, x + "\"" + [c], c, '"', r.line, seps);
  }

  lemma ReportedTurn(r: Reader, c: char, rest: string, acc: string, ppc: char, start: int, seps: Separators)
    requires Lookback(acc, '"', ppc) && r.input == [c] + rest
    requires c != '"' && c != '\r' && Byte(c) != seps.col && Byte(c) != seps.row
    ensures Lookback(acc + [c], c, '"')
    ensures ReadQuoted(r, acc, '"', ppc, start, seps)
            == ReadQuoted(r.(input := rest, log := r.log + [UnescapedQuote(r.line)]), acc + [c], c, '"', start, seps)
  {
    hide BeforeLastQuote;
    assert After(r.input) == rest;
    assert QuotedTurn(r, acc, '"', ppc, start, seps)
        == Continue(r.(input := rest, log := r.log + [UnescapedQuote(r.line)]), acc + [c], c, '"');
  }

  /** Quote and CR in front of anything but the end of the row are kept, and nothing is reported, not even in
      front of a column separator. */
  lemma QuoteAndCr(r: Reader, x: string, c: char, y: string, end: char, rest: string, seps: Separators)
    requires seps.row != Byte('"') && seps.row != Byte('\r') && seps.col != Byte('\r') && c != '"' && Byte(c) != seps.row
    requires (Byte(end) == seps.col || Byte(end) == seps.row) && end != '"'
    requires r.input == "\"" + (Doubled(x, '"') + ("\"" + ("\r" + ([c] + (Doubled(y, '"') + ("\"" + ([end] + rest)))))))
    ensures var (text, r1) := ReadField(r, seps);
            text == Some(x + "\"" + "\r" + [c] + y) && r1.input == rest && r1.term == Byte(end) && r1.log == r.log
  {
    hide ReadQuoted, ReadPlain, QuotedTurn, Doubled, ReadField, CountCode;
    var s3 := Doubled(y, '"') + ("\"" + ([end] + rest));
    var s2 := [c] + s3;
    var s1 := "\"" + ("\r" + s2);
    OpenField(r, Doubled(x, '"') + s1, seps);
    var pc, ppc, r1 := ReadDoubled(Opened(r, Doubled(x, '"') + s1), x, s1, "", '\0', '\0', r.line, seps);
    assert "" + x == x;
    StoringTurn(r1, '"', "\r" + s2, x, pc, ppc, r.line, seps);
    var r2 := r1.(input := "\r" + s2);
    CrBehindQuote(r2, s2, x + "\"", pc, r.line, seps);
    var r3 := r2.(input := s2);
    UnreportedTurn(r3, c, s3, x + "\"" + "\r", r.line, seps);
    RestOfField(r3.(input := s3), y, end, rest, x + "\"" + "\r" + [c], c, '\r', r.line, seps);
  }

  lemma CrBehindQuote(r: Reader, rest: string, acc: string, ppc: char, start: int, seps: Separators)
    requires Lookback(acc, '"', ppc) && r.input == "\r" + rest && Byte('\r') != seps.col && Byte('\r') != seps.row
    ensures Lookback(acc + "\r", '\r', '"')
    ensures ReadQuoted(r, acc, '"', ppc, start, seps) == ReadQuoted(r.(input := rest), acc + "\r", '\r', '"', start, seps)
  {
    hide BeforeLastQuote;
    assert After(r.input) == rest;
    assert QuotedTurn(r, acc, '"', ppc, start, seps) == Continue(r.(input := rest), acc + "\r", '\r', '"');
  }

  lemma UnreportedTurn(r: Reader, c: char, rest: string, acc: string, start: int, seps: Separators)
    requires Lookback(acc, '\r', '"') && r.input == [c] + rest && c != '"' && Byte(c) != seps.row
    ensures Lookback(acc + [c], c, '\r')
    ensures ReadQuoted(r, acc, '\r', '"', start, seps) == ReadQuoted(r.(input := rest), acc + [c], c, '\r', start, seps)
  {
    hide BeforeLastQuote;
    assert After(r.input) == rest;
    assert QuotedTurn(r, acc, '\r', '"', start, seps) == Continue(r.(input := rest), acc + [c], c, '\r');
  }

  // ---------------------------------------------------------------- plain fields

  predicate NoSeparator(x: string, seps: Separators) {
    forall i :: 0 <= i < |x| ==> Byte(x[i]) != seps.col && Byte(x[i]) != seps.row
  }

  /** A field that does not start with a quote is taken as it stands, quotes in it included; a CR is dropped in
      front of the end of a row, and only there. */
  lemma PlainField(r: Reader, x: string, end: char, rest: string, seps: Separators)
    requires NoSeparator(x, seps) && (x == "" || x[0] != '"') && end != '"'
    requires (Byte(end) == seps.col || Byte(end) == seps.row) && r.input == x + ([end] + rest)
    ensures var (text, r1) := ReadField(r, seps);
            && text == Some(if Byte(end) == seps.row && x != "" && x[|x| - 1] == '\r' then x[..|x| - 1] else x)
            && r1 == Reader(rest, if Byte(end) == seps.row then r.line + 1 else r.line, Byte(end), r.log)
  {
    hide ReadPlain;
    assert r.input[0] == if x == "" then end else x[0];
    ReadPlainText(r, x, [end] + rest, "", seps);
    assert "" + x == x;
    var r1 := r.(input := [end] + rest);
    assert After(r1.input) == rest;
    ReadPlainUnfold(r1, x, seps);
  }

  lemma PlainFieldAtEof(r: Reader, x: string, seps: Separators)
    requires NoSeparator(x, seps) && x != "" && x[0] != '"' && seps.row != Eof && r.input == x
    ensures ReadField(r, seps) == (Some(x), Reader("", r.line, Eof, r.log))
  {
    hide ReadPlain;
    assert r.input == x + "";
    ReadPlainText(r, x, "", "", seps);
    assert "" + x == x;
    ReadPlainUnfold(r.(input := ""), x, seps);
  }

  /** A column separator in front of the end of the file: the last column is NULL, and nothing is reported. */
  lemma NullAtEof(r: Reader, x: string, bound: seq<Binding>, sep: char, rowSep: string)
    requires IsRowSep(rowSep) && Legal(sep, rowSep) && NulFree(x) && |bound| == 2
    requires r.input == CsvField(x, [sep]) + [sep]
    ensures var (ins, b, r1) := ImportRow(r, 2, bound, SepsOf(sep, rowSep));
            ins && b == [Some(x), None] && r1.input == "" && r1.term == Eof && r1.log == r.log
  {
    hide ReadField, CsvField, UpToNul;
    var seps := SepsOf(sep, rowSep);
    assert r.input == CsvField(x, [sep]) + [sep] + "";
    ColumnRoundTrip(r, x, [sep], "", sep, rowSep);
    var r1 := ReadField(r, seps).1;
    BindStep(r, x, r1, 0, 2, bound, r.line, seps);
    NothingLeft(r1, seps);
    var bound1 := bound[0 := Some(x)];
    assert BindColumns(r1, 1, 2, bound1, r.line, seps) == (2, bound1[1 := None], r1.(term := Eof));
    assert bound1[1 := None] == [Some(x), None];
  }

  lemma NothingLeft(r: Reader, seps: Separators)
    requires r.input == ""
    ensures ReadField(r, seps) == (None, r.(term := Eof))
  {
  }

  // ---------------------------------------------------------------- which fields are printed plain

  /** The bytes that need no quotes. */
  predicate IsUnquoted(c: char) {
    c == '!' || '#' <= c <= '&' || '(' <= c <= '~'
  }

  lemma UnquotedIff(c: char)
    ensures IsUnquoted(c) <==> !NeedCsvQuote(c)
  {
  }

  /** A field is printed as it is exactly if it is not empty and made of such bytes other than the separator;
      any other is put between quotes. */
  lemma PrintedPlainIff(x: string, sep: char)
    ensures var plain := x != "" && forall i :: 0 <= i < |x| ==> IsUnquoted(x[i]) && x[i] != sep;
            CsvField(x, [sep]) == if plain then x else "\"" + Doubled(x, '"') + "\""
  {
    hide Doubled, NeedCsvQuote, IsUnquoted;
    forall i | 0 <= i < |x|
      ensures NeedCsvQuote(x[i]) || HitsSeparator(x, i, [sep]) <==> !IsUnquoted(x[i]) || x[i] == sep
    {
      UnquotedIff(x[i]);
    }
  }

  /** A separator of several bytes is looked for at the start of the field only. */
  lemma LongSeparator(x: string, colSep: string)
    requires |colSep| > 1
    ensures MustQuote(x, colSep) <==> x == "" || colSep <= x || exists i :: 0 <= i < |x| && !IsUnquoted(x[i])
  {
    hide NeedCsvQuote, IsUnquoted;
    forall i | 0 <= i < |x|
      ensures NeedCsvQuote(x[i]) <==> !IsUnquoted(x[i])
    {
      UnquotedIff(x[i]);
    }
    if colSep <= x {
      assert HitsSeparator(x, 0, colSep);
    }
  }

  /** NULL prints as `nullValue`, never quoted, and counts as a column. */
  lemma RecordWithNull(a: string, colSep: string, rowSep: string, nullValue: string)
    ensures CsvRecord([Some(a), None], 0, colSep, rowSep, nullValue) == CsvField(a, colSep) + colSep + nullValue + rowSep
    ensures CsvRecord([None, Some(a)], 0, colSep, rowSep, nullValue) == nullValue + colSep + CsvField(a, colSep) + rowSep
  {
    hide CsvField;
    var an, na := [Some(a), None], [None, Some(a)];
    assert CsvRecord(an, 2, colSep, rowSep, nullValue) == rowSep == CsvRecord(na, 2, colSep, rowSep, nullValue);
    assert CsvRecord(an, 1, colSep, rowSep, nullValue) == nullValue + "" + rowSep;
    assert CsvRecord(na, 1, colSep, rowSep, nullValue) == CsvField(a, colSep) + "" + rowSep;
    RegroupFour(CsvField(a, colSep), colSep, nullValue, rowSep);
    RegroupFour(nullValue, colSep, CsvField(a, colSep), rowSep);
  }

  /** Where separators stand in a row. */
  lemma RowOfTwo(a: string, b: string, colSep: string, rowSep: string)
    ensures CsvRow([a, b], 0, colSep, rowSep) == CsvField(a, colSep) + colSep + CsvField(b, colSep) + rowSep
  {
    hide CsvField;
    assert CsvRow([a, b], 2, colSep, rowSep) == rowSep;
    assert CsvRow([a, b], 1, colSep, rowSep) == CsvField(b, colSep) + "" + rowSep;
    RegroupFour(CsvField(a, colSep), colSep, CsvField(b, colSep), rowSep);
  }
}
