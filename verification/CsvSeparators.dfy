/** Exactly which separators let `.import` read back what the CSV printer wrote. */
module CsvSeparators {
  import opened CText
  import opened CsvFormat
  import opened CsvImport
  import opened CsvRoundTrip

  // ---------------------------------------------------------------- nothing is ever taken back

  lemma {:induction false} ReadQuotedLogs(r: Reader, acc: string, pc: char, ppc: char, start: int, seps: Separators)
    requires Lookback(acc, pc, ppc)
    ensures r.log <= ReadQuoted(r, acc, pc, ppc, start, seps).1.log
    decreases |r.input|
  {
    var t := QuotedTurn(r, acc, pc, ppc, start, seps);
    if t.Continue? {
      ReadQuotedLogs(t.r, t.acc, t.pc, t.ppc, start, seps);
    }
  }

  lemma {:induction false} ReadPlainLogs(r: Reader, acc: string, seps: Separators)
    ensures r.log == ReadPlain(r, acc, seps).1.log
    decreases |r.input|
  {
    var c := Next(r.input);
    if !EndsPlain(c, seps) {
      ReadPlainLogs(r.(input := After(r.input)), acc + [c.value], seps);
    }
  }

  lemma ReadFieldLogs(r: Reader, seps: Separators)
    ensures r.log <= ReadField(r, seps).1.log
  {
    if r.input != "" && r.input[0] == '"' {
      ReadQuotedLogs(r.(input := r.input[1..]), "", '\0', '\0', r.line, seps);
    } else {
      ReadPlainLogs(r, "", seps);
    }
  }

  lemma {:induction false} BindColumnsLogs(r: Reader, i: nat, nCol: nat, bound: seq<Binding>, start: int, seps: Separators)
    requires |bound| == nCol
    ensures r.log <= BindColumns(r, i, nCol, bound, start, seps).2.log
    decreases nCol - i
  {
    if i < nCol {
      ReadFieldLogs(r, seps);
      var (z, r1) := ReadField(r, seps);
      if !(z == None && i == 0) && !(i < nCol - 1 && r1.term != seps.col) {
        BindColumnsLogs(r1, i + 1, nCol, bound[i := Bound(z)], start, seps);
      }
    }
  }

  lemma {:induction false} SkipExtrasLogs(r: Reader, i: nat, seps: Separators)
    requires seps.col != Eof
    ensures r.log <= SkipExtras(r, i, seps).1.log
    decreases |r.input|
  {
    ReadFieldLogs(r, seps);
    ReadFieldProgress(r, seps);
    var r1 := ReadField(r, seps).1;
    if r1.term == seps.col {
      SkipExtrasLogs(r1, i + 1, seps);
    }
  }

  lemma ImportRowLogs(r: Reader, nCol: nat, bound: seq<Binding>, seps: Separators)
    requires |bound| == nCol && seps.col != Eof
    ensures r.log <= ImportRow(r, nCol, bound, seps).2.log
  {
    BindColumnsLogs(r, 0, nCol, bound, r.line, seps);
    var (i, b, r1) := BindColumns(r, 0, nCol, bound, r.line, seps);
    if r1.term == seps.col {
      SkipExtrasLogs(r1, i, seps);
    }
  }

  /** Inserted rows stay, printed diagnostics stay. */
  lemma {:induction false} ImportAllKeeps(table: seq<seq<Binding>>, r: Reader, nCol: nat, bound: seq<Binding>, seps: Separators)
    requires |bound| == nCol > 0 && seps.col != Eof
    ensures var (t, r1) := ImportAll(table, r, nCol, bound, seps); table <= t && r.log <= r1.log
    decreases |r.input|
  {
    var (ins, b, r1) := ImportRow(r, nCol, bound, seps);
    ImportRowProgress(r, nCol, bound, seps);
    ImportRowLogs(r, nCol, bound, seps);
    if r1.term != Eof {
      ImportAllKeeps(if ins then table + [b] else table, r1, nCol, b, seps);
    }
  }

  /** A diagnostic on the first field of the first row is still there at the end. */
  lemma FirstFieldComplains(r: Reader, nCol: nat, seps: Separators)
    requires nCol > 0 && r.input != "" && r.log == [] && seps.col != Eof
    requires var r1 := ReadField(r, seps).1; r1.log != [] || (nCol == 1 && r1.term == seps.col)
    ensures ImportAll([], r, nCol, Unbound(nCol), seps).1.log != []
  {
    var bound: seq<Binding> := Unbound(nCol);
    var (z, r1) := ReadField(r, seps);
    var bound1 := bound[0 := Bound(z)];
    var row := ImportRow(r, nCol, bound, seps);
    if nCol == 1 {
      assert BindColumns(r, 0, nCol, bound, r.line, seps) == BindColumns(r1, 1, nCol, bound1, r.line, seps);
      if r1.term == seps.col {
        assert row.2.log != [];
      }
    } else if r1.term == seps.col {
      BindColumnsLogs(r1, 1, nCol, bound1, r.line, seps);
    }
    if row.2.term == seps.col && nCol > 1 {
      assert row.2.log != [];
    }
    assert row.2.log != [] by {
      var (i, b, r2) := BindColumns(r, 0, nCol, bound, r.line, seps);
      if r2.term == seps.col {
        SkipExtrasLogs(r2, i, seps);
      }
    }
    ImportRowProgress(r, nCol, bound, seps);
    assert |row.2.log| > 0;
    assert [] + [row.1] == [row.1];
    if row.2.term != Eof {
      ImportAllKeeps(if row.0 then [row.1] else [], row.2, nCol, row.1, seps);
    }
  }

  /** The printed form of a single empty field is two quotes. */
  lemma PrintedEmptyRow(rows: seq<seq<string>>, sep: char, rowSep: string)
    requires rows != [] && rows[0] == [""]
    ensures CsvTable(rows, [sep], rowSep) == "\"\"" + rowSep + CsvTable(rows[1..], [sep], rowSep)
  {
    hide CsvRow, CsvField, CsvTable;
    EmptyField(sep);
    CsvTableUnfold(rows, [sep], rowSep);
    CsvRowUnfold([""], 0, [sep], rowSep);
    CsvRowUnfold([""], 1, [sep], rowSep);
  }

  lemma EmptyField(sep: char)
    ensures CsvField("", [sep]) == "\"\""
  {
    assert Doubled("", '"') == "";
  }

  lemma CsvTableUnfold(rows: seq<seq<string>>, colSep: string, rowSep: string)
    requires rows != []
    ensures CsvTable(rows, colSep, rowSep) == CsvRow(rows[0], 0, colSep, rowSep) + CsvTable(rows[1..], colSep, rowSep)
  {
    hide CsvRow;
  }

  lemma CsvRowUnfold(row: seq<string>, i: nat, colSep: string, rowSep: string)
    requires i <= |row|
    ensures CsvRow(row, i, colSep, rowSep) ==
            if i == |row| then rowSep
            else CsvField(row[i], colSep) + (if i < |row| - 1 then colSep else "") + CsvRow(row, i + 1, colSep, rowSep)
  {
    hide CsvField;
  }

  /** What the first field makes of the first row. */
  lemma FirstRow(r: Reader, nCol: nat, seps: Separators)
    requires nCol > 0 && r.input != "" && seps.col != Eof
    ensures ReadField(r, seps).0.Some?
    ensures nCol == 1 || ReadField(r, seps).1.term != seps.col ==>
              var t := ImportAll([], r, nCol, Unbound(nCol), seps).0;
              && t != [] && t[0] == FilledWithNull(Unbound(nCol)[0 := Bound(ReadField(r, seps).0)], 1)
  {
    hide ReadField, UpToNul, ImportAll;
    FieldIsThere(r, seps);
    if nCol == 1 || ReadField(r, seps).1.term != seps.col {
      FirstRowIs(r, nCol, seps);
      ImportAllUnfold([], r, nCol, Unbound(nCol), seps);
      var (_, b, r1) := ImportRow(r, nCol, Unbound(nCol), seps);
      assert [] + [b] == [b];
      if r1.term != Eof {
        ImportAllKeeps([b], r1, nCol, b, seps);
      }
    }
  }

  lemma FieldIsThere(r: Reader, seps: Separators)
    requires r.input != ""
    ensures ReadField(r, seps).0.Some?
  {
    hide ReadQuoted, ReadPlain;
  }

  lemma FirstRowIs(r: Reader, nCol: nat, seps: Separators)
    requires nCol > 0 && ReadField(r, seps).0.Some? && seps.col != Eof
    requires nCol == 1 || ReadField(r, seps).1.term != seps.col
    ensures var (ins, b, _) := ImportRow(r, nCol, Unbound(nCol), seps);
            ins && b == FilledWithNull(Unbound(nCol)[0 := Bound(ReadField(r, seps).0)], 1)
  {
    hide ReadField, UpToNul;
    var (z, r1) := ReadField(r, seps);
    var bound: seq<Binding> := Unbound(nCol);
    if nCol == 1 {
      assert BindColumns(r, 0, nCol, bound, r.line, seps) == (1, bound[0 := Bound(z)], r1);
      if r1.term == seps.col {
        SkipExtrasCounts(r1, 1, seps);
      }
    }
  }

  lemma {:induction false} SkipExtrasCounts(r: Reader, i: nat, seps: Separators)
    requires seps.col != Eof
    ensures SkipExtras(r, i, seps).0 > i
    decreases |r.input|
  {
    hide ReadField;
    ReadFieldProgress(r, seps);
    var r1 := ReadField(r, seps).1;
    if r1.term == seps.col {
      SkipExtrasCounts(r1, i + 1, seps);
    }
  }

  // ---------------------------------------------------------------- how a field can end

  predicate IsTerm(c: Code, seps: Separators) {
    !c.Negative? && (c == Eof || c == seps.col || c == seps.row)
  }

  lemma {:induction false} ReadQuotedTerm(r: Reader, acc: string, pc: char, ppc: char, start: int, seps: Separators)
    requires Lookback(acc, pc, ppc)
    ensures IsTerm(ReadQuoted(r, acc, pc, ppc, start, seps).1.term, seps)
    decreases |r.input|
  {
    hide BeforeLastQuote;
    var t := QuotedTurn(r, acc, pc, ppc, start, seps);
    if t.Continue? {
      ReadQuotedTerm(t.r, t.acc, t.pc, t.ppc, start, seps);
    }
  }

  lemma {:induction false} ReadPlainTerm(r: Reader, acc: string, seps: Separators)
    ensures IsTerm(ReadPlain(r, acc, seps).1.term, seps)
    decreases |r.input|
  {
    var c := Next(r.input);
    if !EndsPlain(c, seps) {
      ReadPlainTerm(r.(input := After(r.input)), acc + [c.value], seps);
    }
  }

  lemma ReadFieldTerm(r: Reader, seps: Separators)
    ensures IsTerm(ReadField(r, seps).1.term, seps)
  {
    hide ReadQuoted, ReadPlain;
    if r.input != "" && r.input[0] == '"' {
      ReadQuotedTerm(r.(input := r.input[1..]), "", '\0', '\0', r.line, seps);
    } else if r.input != "" {
      ReadPlainTerm(r, "", seps);
    }
  }

  // ---------------------------------------------------------------- equal separators

  lemma {:induction false} BindColumnsTerm(r: Reader, i: nat, nCol: nat, bound: seq<Binding>, start: int, seps: Separators)
    requires |bound| == nCol && i < nCol
    ensures IsTerm(BindColumns(r, i, nCol, bound, start, seps).2.term, seps)
    decreases nCol - i
  {
    hide ReadField, IsTerm;
    ReadFieldTerm(r, seps);
    var (z, r1) := ReadField(r, seps);
    if !(z == None && i == 0) && !(i < nCol - 1 && r1.term != seps.col) && i + 1 < nCol {
      BindColumnsTerm(r1, i + 1, nCol, bound[i := Bound(z)], start, seps);
    }
  }

  lemma {:induction false} SkipExtrasTerm(r: Reader, i: nat, seps: Separators)
    requires seps.col != Eof
    ensures var r1 := SkipExtras(r, i, seps).1; IsTerm(r1.term, seps) && r1.term != seps.col
    decreases |r.input|
  {
    hide ReadField, IsTerm;
    ReadFieldProgress(r, seps);
    ReadFieldTerm(r, seps);
    var r1 := ReadField(r, seps).1;
    if r1.term == seps.col {
      SkipExtrasTerm(r1, i + 1, seps);
    }
  }

  /** With equal separators no row ends before the file does. */
  lemma OneRowOnly(r: Reader, nCol: nat, seps: Separators)
    requires nCol > 0 && seps.col == seps.row && seps.col != Eof
    ensures |ImportAll([], r, nCol, Unbound(nCol), seps).0| <= 1
  {
    hide BindColumns, SkipExtras;
    var bound: seq<Binding> := Unbound(nCol);
    BindColumnsTerm(r, 0, nCol, bound, r.line, seps);
    var (i, _, r1) := BindColumns(r, 0, nCol, bound, r.line, seps);
    if r1.term == seps.col {
      SkipExtrasTerm(r1, i, seps);
    }
    ImportAllUnfold([], r, nCol, bound, seps);
  }

  // ---------------------------------------------------------------- one failing table per illegal separator

  /** Equal separators: all rows are read as one. */
  lemma FailsWhenSeparatorsAreEqual(sep: char, rowSep: string, signed: bool)
    requires IsRowSep(rowSep) && sep == InputRowSep(rowSep)
    ensures !RowsSurvive([[""], [""]], 1, sep, rowSep, signed)
  {
    hide ImportAll;
    var seps, rows := SeparatorsOf(sep, rowSep, signed), [[""], [""]];
    if seps.col != Eof {
      OneRowOnly(Reader(CsvTable(rows, [sep], rowSep), 1, Eof, []), 1, seps);
      TableLength(rows);
    }
  }

  lemma {:induction false} TableLength(rows: seq<seq<string>>)
    ensures |AsTable(rows)| == |rows|
    ensures forall i :: 0 <= i < |rows| ==> AsTable(rows)[i] == Texts(rows[i])
  {
    if rows != [] {
      TableLength(rows[1..]);
    }
  }

  /** A row that is read otherwise is seen in the table. */
  lemma FirstRowDiffers(rows: seq<seq<string>>, nCol: nat, sep: char, rowSep: string, signed: bool, text: string)
    requires IsRowSep(rowSep) && nCol > 0 && rows != [] && |rows[0]| == nCol
    requires text == CsvTable(rows, [sep], rowSep) && text != ""
    requires var seps := SeparatorsOf(sep, rowSep, signed); var r := Reader(text, 1, Eof, []);
             seps.col == Eof ||
             if nCol == 1 then Bound(ReadField(r, seps).0) != Some(rows[0][0]) else ReadField(r, seps).1.term != seps.col
    ensures !RowsSurvive(rows, nCol, sep, rowSep, signed)
  {
    hide ReadField, ImportAll, UpToNul;
    var seps := SeparatorsOf(sep, rowSep, signed);
    if seps.col != Eof {
      FirstRow(Reader(text, 1, Eof, []), nCol, seps);
      TableLength(rows);
      assert Texts(rows[0])[0] == Some(rows[0][0]);
      assert nCol > 1 ==> Texts(rows[0])[1] == Some(rows[0][1]);
    }
  }

  /** A quote as row separator: the field is never closed. */
  lemma FailsWhenRowSeparatorIsQuote(sep: char, signed: bool)
    ensures !RowsSurvive([[""]], 1, sep, "\"", signed)
  {
    hide ReadField, RowsSurvive;
    var rows := [[""]];
    PrintedEmptyRow(rows, sep, "\"");
    var r := Reader("\"\"\"", 1, Eof, []);
    assert CsvTable(rows[1..], [sep], "\"") == "" && CsvTable(rows, [sep], "\"") == r.input;
    ReadThreeQuotes(r, "", SeparatorsOf(sep, "\"", signed));
    FirstRowDiffers(rows, 1, sep, "\"", signed, r.input);
  }

  /** A row separator that output_csv does not quote splits a field that holds it. */
  lemma FailsWhenRowSeparatorIsPlain(sep: char, row: char, signed: bool)
    requires Readable(sep, signed) && !NeedCsvQuote(row) && sep != row
    ensures !RowsSurvive([[[row]]], 1, sep, [row], signed)
  {
    var seps := SepsOf(sep, [row]);
    var rows := [[[row]]];
    assert !HitsSeparator([row], 0, [sep]);
    assert !MustQuote([row], [sep]);
    assert CsvRow(rows[0], 1, [sep], [row]) == [row];
    assert CsvTable(rows, [sep], [row]) == [row, row] by {
      assert CsvTable(rows[1..], [sep], [row]) == "";
    }
    var r := Reader([row, row], 1, Eof, []);
    var bound: seq<Binding> := Unbound(1);
    var r1 := Reader([row], 2, Byte(row), []);
    assert After(r.input) == r1.input;
    assert ReadField(r, seps) == (Some(""), r1);
    assert bound[0 := Some("")] == [Some("")];
    assert BindColumns(r, 0, 1, bound, 1, seps) == BindColumns(r1, 1, 1, [Some("")], 1, seps);
    assert ImportRow(r, 1, bound, seps) == (true, [Some("")], r1);
    assert [] + [[Some("")]] == [[Some("")]];
    ImportAllKeeps([[Some("")]], r1, 1, [Some("")], seps);
    assert ImportAll([], r, 1, bound, seps).0[0] == [Some("")];
    assert AsTable(rows)[0] == Texts([[row]]);
    assert Texts([[row]])[0] == Some([row]);
  }

  /** A quote as column separator looks like a doubled quote behind a quoted field. */
  lemma FailsWhenColumnSeparatorIsQuote(rowSep: string, signed: bool)
    requires IsRowSep(rowSep) && rowSep[0] != '"'
    ensures !RowsSurvive([["", "b"]], 2, '"', rowSep, signed)
  {
    hide ReadField, RowsSurvive, CsvTable, CsvRow, CsvField;
    var rows := [["", "b"]];
    EmptyField('"');
    PlainB();
    CsvTableUnfold(rows, "\"", rowSep);
    NoRowsPrinted("\"", rowSep);
    assert rows[1..] == [];
    CsvRowUnfold(rows[0], 0, "\"", rowSep);
    CsvRowUnfold(rows[0], 1, "\"", rowSep);
    CsvRowUnfold(rows[0], 2, "\"", rowSep);
    var r := Reader("\"\"\"" + ("b" + rowSep), 1, Eof, []);
    assert CsvTable(rows, "\"", rowSep) == r.input;
    ReadThreeQuotes(r, "b" + rowSep, SeparatorsOf('"', rowSep, signed));
    FirstRowDiffers(rows, 2, '"', rowSep, signed, r.input);
  }

  lemma NoRowsPrinted(colSep: string, rowSep: string)
    ensures CsvTable([], colSep, rowSep) == ""
  {
  }

  lemma PlainB()
    ensures CsvField("b", "\"") == "b"
  {
    assert !HitsSeparator("b", 0, "\"");
  }

  /** Three quotes in front of a text without quotes: the field is never closed. */
  lemma ReadThreeQuotes(r: Reader, rest: string, seps: Separators)
    requires r.input == "\"\"\"" + rest && '"' !in rest
    ensures ReadField(r, seps).0 == Some("\"" + rest) && ReadField(r, seps).1.term == Eof
  {
    hide ReadQuoted, QuotedTurn, ReadPlain, ReadField;
    var q := r.(input := "\"" + ("\"" + rest));
    assert r.input[1..] == q.input;
    ReadFieldQuoted(r, seps);
    var q1 := q.(input := "\"" + rest, line := NextLine(q.line, Byte('"'), seps));
    var q2 := q.(input := rest, line := NextLine(q1.line, Byte('"'), seps));
    StoringTurn(q, '"', q1.input, "", '\0', '\0', r.line, seps);
    assert "" + "\"" == "\"";
    CollapsingTurn(q1, rest, "\"", '\0', r.line, seps);
    ReadQuotedUnfold(q1, "\"", '"', '\0', r.line, seps);
    NoQuoteAhead(q2, "\"", '\0', '\0', r.line, seps);
  }

  /** Behind an opening quote, an input without any quote is read to its end. */
  lemma {:induction false} NoQuoteAhead(r: Reader, acc: string, pc: char, ppc: char, start: int, seps: Separators)
    requires Lookback(acc, pc, ppc) && pc != '"' && !(pc == '\r' && ppc == '"') && '"' !in r.input
    ensures var (text, r1) := ReadQuoted(r, acc, pc, ppc, start, seps); text == acc + r.input && r1.term == Eof
    decreases |r.input|
  {
    if r.input == "" {
      assert acc + r.input == acc;
    } else {
      var c, rest := r.input[0], r.input[1..];
      assert c in r.input && r.input == [c] + rest;
      StoringTurn(r, c, rest, acc, pc, ppc, start, seps);
      NoQuoteAhead(r.(input := rest, line := NextLine(r.line, Byte(c), seps)), acc + [c], c, pc, start, seps);
      Regroup(acc, [c], rest);
    }
  }

  lemma ReadFieldQuoted(r: Reader, seps: Separators)
    requires r.input != "" && r.input[0] == '"'
    ensures var field := ReadQuoted(r.(input := r.input[1..]), "", '\0', '\0', r.line, seps);
            ReadField(r, seps) == (Some(field.0), field.1)
  {
    hide ReadQuoted, ReadPlain;
  }

  /** A column separator that is negative as an int is printed, but never recognised; one that equals EOF keeps
      the import from ending. */
  lemma FailsWhenColumnSeparatorIsNegative(sep: char, rowSep: string, signed: bool)
    requires IsRowSep(rowSep) && !Readable(sep, signed)
    ensures !RowsSurvive([["", ""]], 2, sep, rowSep, signed)
  {
    hide ReadField, RowsSurvive, CsvTable, CsvRow, CsvField;
    var rows, seps := [["", ""]], SeparatorsOf(sep, rowSep, signed);
    var text := CsvTable(rows, [sep], rowSep);
    EmptyField(sep);
    CsvTableUnfold(rows, [sep], rowSep);
    CsvRowUnfold(rows[0], 0, [sep], rowSep);
    ReadFieldTerm(Reader(text, 1, Eof, []), seps);
    FirstRowDiffers(rows, 2, sep, rowSep, signed, text);
  }

  /** The same for the row separator: it stays in the field. */
  lemma FailsWhenRowSeparatorIsNegative(sep: char, row: char, signed: bool)
    requires Readable(sep, signed) && !Readable(row, signed)
    requires IsRowSep([row])
    ensures !RowsSurvive([[""]], 1, sep, [row], signed)
  {
    hide ReadField, RowsSurvive;
    var rows, seps := [[""]], SeparatorsOf(sep, [row], signed);
    PrintedEmptyRow(rows, sep, [row]);
    NoRowsPrinted([sep], [row]);
    assert CsvTable(rows[1..], [sep], [row]) == "";
    var r := Reader("\"\"" + [row], 1, Eof, []);
    TwoQuotesStay(r, row, seps);
    assert UpToNul("\"" + [row]) != "";
    FirstRowDiffers(rows, 1, sep, [row], signed, r.input);
  }

  /** Behind two quotes, a byte that is neither separator nor CR nor quote keeps the field open. */
  lemma TwoQuotesStay(r: Reader, c: char, seps: Separators)
    requires r.input == "\"\"" + [c] && c != '"' && c != '\r'
    requires Byte(c) != seps.col && Byte(c) != seps.row
    ensures ReadField(r, seps).0 == Some("\"" + [c])
  {
    hide ReadQuoted, QuotedTurn, ReadPlain, ReadField;
    var q := r.(input := "\"" + [c]);
    assert r.input[1..] == q.input;
    ReadFieldQuoted(r, seps);
    StoringTurn(q, '"', [c], "", '\0', '\0', r.line, seps);
    assert "" + "\"" == "\"";
    var q1 := q.(input := [c], line := NextLine(q.line, Byte('"'), seps));
    var t := ComplainingTurn(q1, c, r.line, seps);
    ReadQuotedUnfold(q1, "\"", '"', '\0', r.line, seps);
    NoQuoteAhead(t.r, t.acc, t.pc, t.ppc, r.line, seps);
    assert t.acc + "" == t.acc;
  }

  lemma ComplainingTurn(r: Reader, c: char, start: int, seps: Separators) returns (t: Turn)
    requires r.input == [c] && c != '"' && c != '\r' && Byte(c) != seps.col && Byte(c) != seps.row
    ensures t == QuotedTurn(r, "\"", '"', '\0', start, seps) && t.Continue?
    ensures t.r.input == "" && t.acc == "\"" + [c] && t.pc == c && t.ppc == '"'
  {
    hide BeforeLastQuote;
    t := QuotedTurn(r, "\"", '"', '\0', start, seps);
    assert After(r.input) == "";
  }

  // ---------------------------------------------------------------- CR in front of LF

  /** CR in front of LF: each row end is also taken for a column end. */
  lemma CrIsComplainedAbout(signed: bool)
    ensures !RoundTrips([[""]], 1, '\r', "\r\n", signed)
  {
    hide ImportAll, ReadField, CsvField, CsvRow;
    var rows := [[""]];
    PrintedEmptyRow(rows, '\r', "\r\n");
    NoRowsPrinted("\r", "\r\n");
    assert rows[1..] == [];
    EmptyField('\r');
    var r := Reader(CsvTable(rows, "\r", "\r\n"), 1, Eof, []);
    assert r.input == CsvField("", ['\r']) + ['\r'] + "\n";
    FieldRoundTrip(r, "", ['\r'], "\n", '\r', "\n");
    FirstFieldComplains(r, 1, SepsOf('\r', "\r\n"));
  }

  /** What is left of a row of CSV mode when CR separates its columns: the last one ends at the CR of the row
      end, and LF is left. */
  lemma {:induction false} CrRow(r: Reader, row: seq<string>, i: nat, rest: string, bound: seq<Binding>, start: int)
    returns (r1: Reader)
    requires i < |row| == |bound| && forall j :: 0 <= j < |row| ==> NulFree(row[j])
    requires r.input == CsvRow(row, i, "\r", "\r\n") + rest
    ensures r1.input == "\n" + rest && r1.term == Byte('\r')
    ensures BindColumns(r, i, |row|, bound, start, SepsOf('\r', "\r\n")) == (|row|, bound[..i] + Texts(row)[i..], r1)
    decreases |row| - i
  {
    hide CsvRow, BindColumns, CsvField, NulFree, AfterCr;
    var bound1 := bound[i := Some(row[i])];
    r1 := CrColumn(r, row, i, rest, bound, start);
    if i + 1 < |row| {
      r1 := CrRow(r1, row, i + 1, rest, bound1, start);
      assert bound1[..i + 1] + Texts(row)[i + 1..] == bound[..i] + Texts(row)[i..];
    } else {
      AllBound(r1, bound1, start, SepsOf('\r', "\r\n"));
      assert bound1 == bound[..i] + Texts(row)[i..];
    }
  }

  /** The text behind column `i`, and behind the CR that ends it. */
  function AfterCr(row: seq<string>, i: nat, rest: string): string
    requires i < |row|
  {
    if i + 1 < |row| then CsvRow(row, i + 1, "\r", "\r\n") + rest else "\n" + rest
  }

  lemma CrColumnText(row: seq<string>, i: nat, rest: string)
    requires i < |row|
    ensures CsvRow(row, i, "\r", "\r\n") + rest == CsvField(row[i], ['\r']) + ['\r'] + AfterCr(row, i, rest)
  {
    hide CsvRow, CsvField;
    CsvRowUnfold(row, i, "\r", "\r\n");
    CsvRowUnfold(row, |row|, "\r", "\r\n");
    assert "\r\n" + rest == "\r" + ("\n" + rest);
  }

  lemma CrColumn(r: Reader, row: seq<string>, i: nat, rest: string, bound: seq<Binding>, start: int) returns (r1: Reader)
    requires i < |row| == |bound| && NulFree(row[i])
    requires r.input == CsvRow(row, i, "\r", "\r\n") + rest
    ensures r1.input == AfterCr(row, i, rest) && r1.term == Byte('\r')
    ensures i + 1 < |row| ==> r1.input == CsvRow(row, i + 1, "\r", "\r\n") + rest
    ensures i + 1 == |row| ==> r1.input == "\n" + rest
    ensures BindColumns(r, i, |row|, bound, start, SepsOf('\r', "\r\n"))
            == BindColumns(r1, i + 1, |row|, bound[i := Some(row[i])], start, SepsOf('\r', "\r\n"))
  {
    hide CsvRow, BindColumns, CsvField, NulFree, ReadField, Bound, Count;
    CrColumnText(row, i, rest);
    ColumnRoundTrip(r, row[i], ['\r'], AfterCr(row, i, rest), '\r', "\n");
    r1 := Advance(r, CsvField(row[i], ['\r']) + ['\r'], '\r', '\n');
    BindStep(r, row[i], r1, i, |row|, bound, start, SepsOf('\r', "\r\n"));
  }

  lemma AllBound(r: Reader, bound: seq<Binding>, start: int, seps: Separators)
    ensures BindColumns(r, |bound|, |bound|, bound, start, seps) == (|bound|, bound, r)
  {
  }

  /** The LF is skipped as an extra column, and the row is inserted. */
  lemma ImportCrRow(r: Reader, row: seq<string>, rest: string, bound: seq<Binding>) returns (r1: Reader)
    requires |row| == |bound| > 0 && forall j :: 0 <= j < |row| ==> NulFree(row[j])
    requires r.input == CsvRow(row, 0, "\r", "\r\n") + rest
    ensures r1.input == rest && r1.term == Byte('\n')
    ensures ImportRow(r, |row|, bound, SepsOf('\r', "\r\n")) == (true, Texts(row), r1)
  {
    hide BindColumns, SkipExtras, CsvRow, NulFree;
    var seps := SepsOf('\r', "\r\n");
    var r0 := CrRow(r, row, 0, rest, bound, r.line);
    assert bound[..0] + Texts(row)[0..] == Texts(row);
    SkipLineFeed(r0, rest, |row|, seps);
    r1 := ImportRow(r, |row|, bound, seps).2;
  }

  lemma SkipLineFeed(r: Reader, rest: string, i: nat, seps: Separators)
    requires r.input == "\n" + rest && seps == SepsOf('\r', "\r\n")
    ensures SkipExtras(r, i, seps) == (i + 1, r.(input := rest, line := r.line + 1, term := Byte('\n')))
  {
    assert After(r.input) == rest;
    assert ReadField(r, seps) == (Some(""), r.(input := rest, line := r.line + 1, term := Byte('\n')));
  }

  lemma {:induction false} CrRowsSurvive(table: seq<seq<Binding>>, r: Reader, rows: seq<seq<string>>, nCol: nat, bound: seq<Binding>)
    requires IsTable(rows, nCol) && |bound| == nCol && r.input == CsvTable(rows, "\r", "\r\n")
    ensures ImportAll(table, r, nCol, bound, SepsOf('\r', "\r\n")).0 == table + AsTable(rows)
    decreases |rows|
  {
    hide ImportAll, ImportRow, CsvRow, NulFree;
    var seps := SepsOf('\r', "\r\n");
    ImportAllUnfold(table, r, nCol, bound, seps);
    if rows == [] {
      ImportNothing(r, nCol, bound, seps);
      assert table + AsTable(rows) == table;
    } else {
      var r1 := ImportCrRow(r, rows[0], CsvTable(rows[1..], "\r", "\r\n"), bound);
      CrRowsSurvive(table + [Texts(rows[0])], r1, rows[1..], nCol, Texts(rows[0]));
      Regroup(table, [Texts(rows[0])], AsTable(rows[1..]));
    }
  }

  // ---------------------------------------------------------------- the exact conditions

  /** The separators with which the rows come back, perhaps with diagnostics. */
  predicate KeepsRows(sep: char, rowSep: string, signed: bool)
    requires IsRowSep(rowSep)
  {
    LegalFor(sep, rowSep, signed) || (sep == '\r' && rowSep == "\r\n")
  }

  lemma FailingRows(sep: char, rowSep: string, signed: bool) returns (rows: seq<seq<string>>, nCol: nat)
    requires IsRowSep(rowSep) && !KeepsRows(sep, rowSep, signed)
    ensures IsTable(rows, nCol) && !RowsSurvive(rows, nCol, sep, rowSep, signed)
  {
    hide RowsSurvive;
    rows, nCol := [[""]], 1;
    if !Readable(sep, signed) {
      FailsWhenColumnSeparatorIsNegative(sep, rowSep, signed);
      rows, nCol := [["", ""]], 2;
    } else if !Readable(rowSep[0], signed) {
      assert rowSep == [rowSep[0]];
      FailsWhenRowSeparatorIsNegative(sep, rowSep[0], signed);
    } else if rowSep[0] == '"' {
      assert rowSep == "\"";
      FailsWhenRowSeparatorIsQuote(sep, signed);
    } else if sep == InputRowSep(rowSep) {
      FailsWhenSeparatorsAreEqual(sep, rowSep, signed);
      rows := [[""], [""]];
    } else if !NeedCsvQuote(rowSep[0]) {
      assert rowSep == [rowSep[0]];
      FailsWhenRowSeparatorIsPlain(sep, rowSep[0], signed);
      rows := [[rowSep]];
    } else {
      FailsWhenColumnSeparatorIsQuote(rowSep, signed);
      rows, nCol := [["", "b"]], 2;
    }
  }

  /** The rows of every table survive the trip through CSV text if and only if the separators are legal, or are
      CR and CR LF. */
  lemma KeepsRowsIffEveryRowSurvives(sep: char, rowSep: string, signed: bool)
    requires IsSeparator(sep) && IsRowSep(rowSep)
    ensures KeepsRows(sep, rowSep, signed) <==>
            forall rows: seq<seq<string>>, nCol: nat ::
              IsTable(rows, nCol) ==> RowsSurvive(rows, nCol, sep, rowSep, signed)
  {
    hide RowsSurvive;
    if KeepsRows(sep, rowSep, signed) {
      forall rows: seq<seq<string>>, nCol: nat | IsTable(rows, nCol)
        ensures RowsSurvive(rows, nCol, sep, rowSep, signed)
      {
        RowsAreKept(rows, nCol, sep, rowSep, signed);
      }
    } else {
      var rows, nCol := FailingRows(sep, rowSep, signed);
      assert IsTable(rows, nCol) && !RowsSurvive(rows, nCol, sep, rowSep, signed);
    }
  }

  lemma RowsAreKept(rows: seq<seq<string>>, nCol: nat, sep: char, rowSep: string, signed: bool)
    requires IsRowSep(rowSep) && KeepsRows(sep, rowSep, signed) && IsTable(rows, nCol)
    ensures RowsSurvive(rows, nCol, sep, rowSep, signed)
  {
    hide ImportAll;
    if LegalFor(sep, rowSep, signed) {
      TableRoundTrip(rows, nCol, sep, rowSep, signed);
    } else {
      CrRowsSurvive([], Reader(CsvTable(rows, "\r", "\r\n"), 1, Eof, []), rows, nCol, Unbound(nCol));
      assert [] + AsTable(rows) == AsTable(rows);
      assert SeparatorsOf(sep, rowSep, signed) == SepsOf('\r', "\r\n");
    }
  }

  /** Every table survives the trip through CSV text without any diagnostic if and only if the separators are
      legal, where `char` is signed and where it is not. */
  lemma LegalIffEveryTableRoundTrips(sep: char, rowSep: string, signed: bool)
    requires IsSeparator(sep) && IsRowSep(rowSep)
    ensures LegalFor(sep, rowSep, signed) <==>
            forall rows: seq<seq<string>>, nCol: nat ::
              IsTable(rows, nCol) ==> RoundTrips(rows, nCol, sep, rowSep, signed)
  {
    hide RoundTrips;
    if LegalFor(sep, rowSep, signed) {
      forall rows: seq<seq<string>>, nCol: nat | IsTable(rows, nCol)
        ensures RoundTrips(rows, nCol, sep, rowSep, signed)
      {
        TableRoundTrip(rows, nCol, sep, rowSep, signed);
      }
    } else {
      var rows, nCol := FailingTable(sep, rowSep, signed);
      assert IsTable(rows, nCol) && !RoundTrips(rows, nCol, sep, rowSep, signed);
    }
  }

  lemma FailingTable(sep: char, rowSep: string, signed: bool) returns (rows: seq<seq<string>>, nCol: nat)
    requires IsRowSep(rowSep) && !LegalFor(sep, rowSep, signed)
    ensures IsTable(rows, nCol) && !RoundTrips(rows, nCol, sep, rowSep, signed)
  {
    if KeepsRows(sep, rowSep, signed) {
      hide RoundTrips;
      rows, nCol := [[""]], 1;
      CrIsComplainedAbout(signed);
    } else {
      hide ImportAll;
      rows, nCol := FailingRows(sep, rowSep, signed);
    }
  }
}
