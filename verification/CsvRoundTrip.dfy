/** What `.import` makes of the bytes that output_csv prints, for every table and every pair of
    separators, and how the reader counts lines on arbitrary bytes. */
module CsvRoundTrip {
  import opened CText
  import opened CsvFormat
  import opened CsvImport

  // ---------------------------------------------------------------- line numbers

  /** `r1` has read the first `k` bytes of `r`. */
  predicate HasRead(r: Reader, k: nat, r1: Reader) {
    k <= |r.input| && r1.input == r.input[k..]
  }

  function CountCode(s: string, row: Code): nat {
    if row.Byte? then Count(s, row.value) else 0
  }

  lemma CountCodeUnfold(s: string, k: nat, row: Code)
    ensures CountCode(s[..0], row) == 0
    ensures k < |s| ==> CountCode(s[..k + 1], row) == (if Byte(s[0]) == row then 1 else 0) + CountCode(s[1..][..k], row)
  {
    if k < |s| {
      assert s[..k + 1][1..] == s[1..][..k];
    }
  }

  /** A row separator that equals EOF is counted once at the end of the file. */
  function CountEof(r: Reader, seps: Separators): nat {
    if seps.row == Eof && r.term == Eof then 1 else 0
  }

  lemma ReadQuotedUnfold(r: Reader, acc: string, pc: char, ppc: char, start: int, seps: Separators)
    requires Lookback(acc, pc, ppc)
    ensures var t := QuotedTurn(r, acc, pc, ppc, start, seps);
            ReadQuoted(r, acc, pc, ppc, start, seps) ==
            if t.Break? then (t.text, t.r) else ReadQuoted(t.r, t.acc, t.pc, t.ppc, start, seps)
  {
    hide QuotedTurn;
  }

  lemma TurnCountsLine(r: Reader, acc: string, pc: char, ppc: char, start: int, seps: Separators)
    requires Lookback(acc, pc, ppc)
    ensures var t, c := QuotedTurn(r, acc, pc, ppc, start, seps), Next(r.input);
            && t.r.input == After(r.input) && t.r.line == NextLine(r.line, c, seps)
            && (t.Break? ==> t.r.term == c) && (t.Continue? ==> r.input != "")
  {
    hide BeforeLastQuote;
  }

  lemma {:induction false} ReadQuotedCountsLines(r: Reader, acc: string, pc: char, ppc: char, start: int, seps: Separators)
    returns (k: nat)
    requires Lookback(acc, pc, ppc)
    ensures var r1 := ReadQuoted(r, acc, pc, ppc, start, seps).1;
            HasRead(r, k, r1) && r1.line == r.line + CountCode(r.input[..k], seps.row) + CountEof(r1, seps)
    decreases |r.input|
  {
    hide QuotedTurn, ReadQuoted, CountCode;
    ReadQuotedUnfold(r, acc, pc, ppc, start, seps);
    TurnCountsLine(r, acc, pc, ppc, start, seps);
    var t := QuotedTurn(r, acc, pc, ppc, start, seps);
    k := 0;
    if t.Continue? {
      k := ReadQuotedCountsLines(t.r, t.acc, t.pc, t.ppc, start, seps);
    }
    CountCodeUnfold(r.input, k, seps.row);
    if r.input != "" {
      k := k + 1;
    }
  }

  lemma {:induction false} ReadPlainCountsLines(r: Reader, acc: string, seps: Separators) returns (k: nat)
    ensures var r1 := ReadPlain(r, acc, seps).1;
            HasRead(r, k, r1) && r1.line == r.line + CountCode(r.input[..k], seps.row) + CountEof(r1, seps)
    decreases |r.input|
  {
    hide CountCode;
    var c := Next(r.input);
    k := 0;
    if !EndsPlain(c, seps) {
      k := ReadPlainCountsLines(r.(input := After(r.input)), acc + [c.value], seps);
    }
    CountCodeUnfold(r.input, k, seps.row);
    if r.input != "" {
      k := k + 1;
    }
  }

  /** nLine grows by the row separators among the bytes read, with two exceptions: an opening quote is not
      counted when the row separator is itself a quote, and the end of the file is counted when the row
      separator equals EOF. */
  lemma ReadFieldCountsLines(r: Reader, seps: Separators) returns (k: nat)
    ensures var r1 := ReadField(r, seps).1;
            && HasRead(r, k, r1)
            && r1.line == r.line + CountCode(r.input[..k], seps.row) + (if r.input == "" then 0 else CountEof(r1, seps))
                          - (if seps.row == Byte('"') && r.input != "" && r.input[0] == '"' then 1 else 0)
  {
    k := 0;
    if r.input != "" {
      if r.input[0] == '"' {
        k := ReadQuotedCountsLines(r.(input := r.input[1..]), "", '\0', '\0', r.line, seps);
        assert r.input[..k + 1][1..] == r.input[1..][..k];
        k := k + 1;
      } else {
        k := ReadPlainCountsLines(r, "", seps);
      }
    }
  }

  // ---------------------------------------------------------------- one printed field

  /** The input row separator that `.import` uses for an output row separator. */
  function InputRowSep(rowSep: string): char
    requires rowSep != ""
  {
    if rowSep == "\r\n" then '\n' else rowSep[0]
  }

  function SepsOf(sep: char, rowSep: string): Separators
    requires rowSep != ""
  {
    Separators(Byte(sep), Byte(InputRowSep(rowSep)))
  }

  /** A byte that a C string can hold. */
  predicate IsSeparator(c: char) {
    0 < c as int < 256
  }

  /** One byte, or the default output separator of CSV mode. */
  predicate IsRowSep(rowSep: string) {
    (|rowSep| == 1 && IsSeparator(rowSep[0])) || rowSep == "\r\n"
  }

  /** The separators as the importer compares them. */
  function SeparatorsOf(sep: char, rowSep: string, signed: bool): Separators
    requires rowSep != ""
  {
    Separators(Converted(sep, signed), Converted(InputRowSep(rowSep), signed))
  }

  /** fgetc can return the byte as it is compared. */
  predicate Readable(c: char, signed: bool) {
    !signed || c as int < 128
  }

  /** The separators that an importer meets again, and with which an export can be imported. */
  predicate LegalFor(sep: char, rowSep: string, signed: bool)
    requires IsRowSep(rowSep)
  {
    Readable(sep, signed) && Readable(rowSep[0], signed) && Legal(sep, rowSep)
  }

  /** The separators with which an export can be imported again, as far as they are readable. */
  predicate Legal(sep: char, rowSep: string)
    requires IsRowSep(rowSep)
  {
    var row := InputRowSep(rowSep);
    && sep != '"' && row != '"' && sep != row
    && NeedCsvQuote(row)
    && (rowSep == "\r\n" ==> sep != '\r')
  }

  /** The reader behind `text`. */
  function Advance(r: Reader, text: string, term: char, row: char): Reader
    requires |text| <= |r.input|
  {
    Reader(r.input[|text|..], r.line + Count(text, row), Byte(term), r.log)
  }

  /** A turn that stores `c`, with no quote pending. */
  lemma StoringTurn(r: Reader, c: char, rest: string, acc: string, pc: char, ppc: char, start: int, seps: Separators)
    requires Lookback(acc, pc, ppc) && pc != '"' && !(pc == '\r' && ppc == '"')
    requires r.input == [c] + rest
    ensures QuotedTurn(r, acc, pc, ppc, start, seps)
            == Continue(r.(input := rest, line := NextLine(r.line, Byte(c), seps)), acc + [c], c, pc)
    ensures ReadQuoted(r, acc, pc, ppc, start, seps)
            == ReadQuoted(r.(input := rest, line := NextLine(r.line, Byte(c), seps)), acc + [c], c, pc, start, seps)
  {
    assert After(r.input) == rest;
  }

  /** A turn that drops the second quote of a pair. */
  lemma CollapsingTurn(r: Reader, rest: string, acc: string, ppc: char, start: int, seps: Separators)
    requires Lookback(acc, '"', ppc) && r.input == "\"" + rest
    ensures QuotedTurn(r, acc, '"', ppc, start, seps)
            == Continue(r.(input := rest, line := NextLine(r.line, Byte('"'), seps)), acc, '\0', ppc)
  {
    assert After(r.input) == rest;
  }

  lemma {:induction false} ReadDoubled(r: Reader, x: string, tail: string, acc: string, pc: char, ppc: char, start: int, seps: Separators)
    returns (pc1: char, ppc1: char, r1: Reader)
    requires Lookback(acc, pc, ppc) && pc != '"' && !(pc == '\r' && ppc == '"')
    requires seps.row != Byte('"') && r.input == Doubled(x, '"') + tail
    ensures Lookback(acc + x, pc1, ppc1) && pc1 != '"' && !(pc1 == '\r' && ppc1 == '"')
    ensures r1.input == tail && r1.log == r.log && r1.line == r.line + CountCode(x, seps.row)
    ensures ReadQuoted(r, acc, pc, ppc, start, seps) == ReadQuoted(r1, acc + x, pc1, ppc1, start, seps)
    decreases |x|
  {
    if x == "" {
      assert acc + x == acc && r.input == tail;
      return pc, ppc, r;
    }
    var c, acc1, more := x[0], acc + [x[0]], Doubled(x[1..], '"') + tail;
    assert acc1 + x[1..] == acc + x;
    var r2 := r.(input := more, line := NextLine(r.line, Byte(c), seps));
    if c == '"' {
      assert r.input == "\"" + ("\"" + more);
      StoringTurn(r, c, "\"" + more, acc, pc, ppc, start, seps);
      CollapsingTurn(r.(input := "\"" + more), more, acc1, pc, start, seps);
      pc1, ppc1, r1 := ReadDoubled(r2, x[1..], tail, acc1, '\0', pc, start, seps);
    } else {
      assert r.input == [c] + more;
      StoringTurn(r, c, more, acc, pc, ppc, start, seps);
      pc1, ppc1, r1 := ReadDoubled(r2, x[1..], tail, acc1, c, pc, start, seps);
    }
  }

  /** A turn that ends the field: the quote is the last stored byte, or the last but one before a CR. */
  lemma EndingTurn(r: Reader, c: char, rest: string, text: string, acc: string, pc: char, ppc: char, start: int, seps: Separators)
    requires (acc == text + "\"" && pc == '"') || (acc == text + "\"\r" && pc == '\r' && ppc == '"' && Byte(c) == seps.row)
    requires (Byte(c) == seps.col || Byte(c) == seps.row) && c != '"'
    requires r.input == [c] + rest
    ensures Lookback(acc, pc, ppc)
    ensures ReadQuoted(r, acc, pc, ppc, start, seps)
            == (text, Reader(rest, NextLine(r.line, Byte(c), seps), Byte(c), r.log))
  {
    hide BeforeLastQuote;
    assert After(r.input) == rest;
    assert acc[|text|] == '"';
    BeforeLastQuoteIs(acc, |text|);
    assert acc[..|text|] == text;
    assert QuotedTurn(r, acc, pc, ppc, start, seps).Break?;
  }

  /** The turn that stores the CR of a CR LF behind a closing quote. */
  lemma CarriageReturnTurn(r: Reader, r1: Reader, text: string, ppc: char, start: int, seps: Separators)
    requires seps.row == Byte('\n') && seps.col != Byte('\r')
    requires r.input == "\r" + r1.input && r1 == r.(input := r1.input)
    ensures Lookback(text + "\"", '"', ppc) && Lookback(text + "\"\r", '\r', '"')
    ensures ReadQuoted(r, text + "\"", '"', ppc, start, seps) == ReadQuoted(r1, text + "\"\r", '\r', '"', start, seps)
  {
    assert After(r.input) == r1.input;
    assert text + "\"" + "\r" == text + "\"\r";
    assert QuotedTurn(r, text + "\"", '"', ppc, start, seps) == Continue(r1, text + "\"\r", '\r', '"');
  }

  /** Closing quote and terminator. */
  lemma ReadClosing(r: Reader, end: string, rest: string, acc: string, pc: char, ppc: char, start: int, sep: char, rowSep: string)
    requires Lookback(acc, pc, ppc) && pc != '"' && !(pc == '\r' && ppc == '"')
    requires IsRowSep(rowSep) && Legal(sep, rowSep) && (end == [sep] || end == rowSep)
    requires r.input == "\"" + (end + rest)
    ensures var (text, r1) := ReadQuoted(r, acc, pc, ppc, start, SepsOf(sep, rowSep));
            text == acc && r1.input == rest && r1.term == Byte(end[|end| - 1]) && r1.log == r.log
  {
    hide QuotedTurn, ReadQuoted, NeedCsvQuote;
    var seps := SepsOf(sep, rowSep);
    StoringTurn(r, '"', end + rest, acc, pc, ppc, start, seps);
    var r1 := r.(input := end + rest);
    if |end| == 1 {
      assert end == [end[0]];
      EndingTurn(r1, end[0], rest, acc, acc + "\"", '"', pc, start, seps);
    } else {
      assert end + rest == "\r" + ("\n" + rest);
      var r2 := r.(input := "\n" + rest);
      CarriageReturnTurn(r1, r2, acc, pc, start, seps);
      EndingTurn(r2, '\n', rest, acc, acc + "\"\r", '\r', '"', start, seps);
    }
  }

  lemma {:induction false} ReadPlainText(r: Reader, x: string, tail: string, acc: string, seps: Separators)
    requires r.input == x + tail
    requires forall i :: 0 <= i < |x| ==> !EndsPlain(Byte(x[i]), seps)
    ensures ReadPlain(r, acc, seps) == ReadPlain(r.(input := tail), acc + x, seps)
    decreases |x|
  {
    if x == "" {
      assert acc + x == acc && r.input == tail;
    } else {
      assert r.input[1..] == x[1..] + tail;
      ReadPlainText(r.(input := r.input[1..]), x[1..], tail, acc + [x[0]], seps);
      assert acc + [x[0]] + x[1..] == acc + x;
    }
  }

  lemma ReadPlainPrinted(r: Reader, x: string, end: string, rest: string, sep: char, rowSep: string)
    requires IsRowSep(rowSep) && Legal(sep, rowSep) && (end == [sep] || end == rowSep)
    requires !MustQuote(x, [sep]) && r.input == x + end + rest
    ensures var (text, r1) := ReadPlain(r, "", SepsOf(sep, rowSep));
            text == x && r1.input == rest && r1.term == Byte(end[|end| - 1]) && r1.log == r.log
  {
    hide ReadPlain;
    var seps := SepsOf(sep, rowSep);
    forall i | 0 <= i < |x|
      ensures !EndsPlain(Byte(x[i]), seps) && x[i] != '\r'
    {
      assert !HitsSeparator(x, i, [sep]);
    }
    assert r.input == x + (end + rest);
    ReadPlainText(r, x, end + rest, "", seps);
    assert "" + x == x;
    EndPlain(r.(input := end + rest), x, end, rest, seps);
  }

  lemma EndPlain(r: Reader, x: string, end: string, rest: string, seps: Separators)
    requires r.input == end + rest && (x == "" || x[|x| - 1] != '\r')
    requires (|end| == 1 && (Byte(end[0]) == seps.col || Byte(end[0]) == seps.row)) || (end == "\r\n" && seps.row == Byte('\n') && seps.col != Byte('\r'))
    ensures var (text, r1) := ReadPlain(r, x, seps);
            text == x && r1.input == rest && r1.term == Byte(end[|end| - 1]) && r1.log == r.log
  {
    if |end| == 2 {
      var r2 := r.(input := "\n" + rest);
      assert After(r.input) == r2.input;
      assert WithoutCr(x + "\r") == x;
      assert After(r2.input) == rest;
      assert ReadPlain(r, x, seps) == ReadPlain(r2, x + "\r", seps);
    } else {
      assert After(r.input) == rest;
    }
  }

  lemma LegalRowIsNoQuote(sep: char, rowSep: string)
    requires IsRowSep(rowSep) && Legal(sep, rowSep)
    ensures InputRowSep(rowSep) != '"'
  {
  }

  lemma QuotedFieldText(r: Reader, x: string, end: string, rest: string, sep: char, rowSep: string)
    requires IsRowSep(rowSep) && Legal(sep, rowSep) && (end == [sep] || end == rowSep)
    requires r.input == Doubled(x, '"') + ("\"" + (end + rest))
    ensures var (text, r1) := ReadQuoted(r, "", '\0', '\0', r.line, SepsOf(sep, rowSep));
            text == x && r1.input == rest && r1.term == Byte(end[|end| - 1]) && r1.log == r.log
  {
    hide ReadQuoted, Doubled, Legal;
    var seps, tail := SepsOf(sep, rowSep), "\"" + (end + rest);
    LegalRowIsNoQuote(sep, rowSep);
    var pc, ppc, r1 := ReadDoubled(r, x, tail, "", '\0', '\0', r.line, seps);
    assert "" + x == x;
    ReadClosing(r1, end, rest, x, pc, ppc, r.line, sep, rowSep);
  }

  lemma FieldText(r: Reader, x: string, end: string, rest: string, sep: char, rowSep: string)
    requires IsRowSep(rowSep) && Legal(sep, rowSep) && (end == [sep] || end == rowSep)
    requires r.input == CsvField(x, [sep]) + end + rest
    ensures var (text, r1) := ReadField(r, SepsOf(sep, rowSep));
            text == Some(x) && r1.input == rest && r1.term == Byte(end[|end| - 1]) && r1.log == r.log
  {
    hide ReadQuoted, ReadPlain, Doubled, Legal, MustQuote;
    if MustQuote(x, [sep]) {
      var q := r.(input := Doubled(x, '"') + ("\"" + (end + rest)));
      assert r.input[0] == '"' && r.input[1..] == q.input;
      QuotedFieldText(q, x, end, rest, sep, rowSep);
    } else {
      PlainStart(x, [sep]);
      assert r.input[0] == x[0];
      ReadPlainPrinted(r, x, end, rest, sep, rowSep);
    }
  }

  lemma PlainStart(x: string, colSep: string)
    requires !MustQuote(x, colSep)
    ensures x != "" && x[0] != '"'
  {
  }

  /** One field, printed and read back: the same text, no diagnostic, the terminator recognised. */
  lemma FieldRoundTrip(r: Reader, x: string, end: string, rest: string, sep: char, rowSep: string)
    requires IsRowSep(rowSep) && Legal(sep, rowSep) && (end == [sep] || end == rowSep)
    requires r.input == CsvField(x, [sep]) + end + rest
    ensures ReadField(r, SepsOf(sep, rowSep))
            == (Some(x), Advance(r, CsvField(x, [sep]) + end, end[|end| - 1], InputRowSep(rowSep)))
  {
    var seps := SepsOf(sep, rowSep);
    var text := CsvField(x, [sep]) + end;
    assert r.input == text + rest;
    FieldText(r, x, end, rest, sep, rowSep);
    var k := ReadFieldCountsLines(r, seps);
    assert k == |text| by {
      assert |r.input[k..]| == |rest|;
    }
    assert r.input[..k] == text && r.input[k..] == rest;
  }

  // ---------------------------------------------------------------- rows and tables

  function AsTable(rows: seq<seq<string>>): seq<seq<Binding>> {
    if rows == [] then [] else [Texts(rows[0])] + AsTable(rows[1..])
  }

  predicate IsTable(rows: seq<seq<string>>, nCol: nat) {
    nCol > 0 && forall i :: 0 <= i < |rows| ==> |rows[i]| == nCol && forall j :: 0 <= j < nCol ==> NulFree(rows[i][j])
  }

  lemma ColumnRoundTrip(r: Reader, x: string, end: string, rest: string, sep: char, rowSep: string)
    requires IsRowSep(rowSep) && Legal(sep, rowSep) && (end == [sep] || end == rowSep)
    requires r.input == CsvField(x, [sep]) + end + rest && NulFree(x)
    ensures ReadField(r, SepsOf(sep, rowSep))
            == (Some(x), Advance(r, CsvField(x, [sep]) + end, end[|end| - 1], InputRowSep(rowSep)))
    ensures Advance(r, CsvField(x, [sep]) + end, end[|end| - 1], InputRowSep(rowSep)).input == rest
    ensures Bound(Some(x)) == Some(x)
  {
    FieldRoundTrip(r, x, end, rest, sep, rowSep);
    UpToNulIsPrefix(x, |x|);
    assert x[..|x|] == x;
  }

  lemma BindStep(r: Reader, x: string, r1: Reader, i: nat, nCol: nat, bound: seq<Binding>, start: int, seps: Separators)
    requires i < nCol == |bound| && Bound(Some(x)) == Some(x) && ReadField(r, seps) == (Some(x), r1)
    requires i < nCol - 1 ==> r1.term == seps.col
    ensures BindColumns(r, i, nCol, bound, start, seps) == BindColumns(r1, i + 1, nCol, bound[i := Some(x)], start, seps)
  {
  }

  lemma AdvanceTwice(r: Reader, text: string, more: string, t: char, u: char, row: char)
    requires |text + more| <= |r.input|
    ensures Advance(Advance(r, text, t, row), more, u, row) == Advance(r, text + more, u, row)
  {
    CountConcat(text, more, row);
    assert r.input[|text|..][|more|..] == r.input[|text + more|..];
  }

  /** The reader behind the fields of a row from column `i` on. */
  function AfterRow(r: Reader, row: seq<string>, i: nat, sep: char, rowSep: string): Reader
    requires i <= |row| && IsRowSep(rowSep) && |CsvRow(row, i, [sep], rowSep)| <= |r.input|
  {
    Advance(r, CsvRow(row, i, [sep], rowSep), InputRowSep(rowSep), InputRowSep(rowSep))
  }

  lemma LastField(r: Reader, row: seq<string>, i: nat, rest: string, sep: char, rowSep: string)
    requires IsRowSep(rowSep) && Legal(sep, rowSep)
    requires i + 1 == |row| && NulFree(row[i])
    requires r.input == CsvRow(row, i, [sep], rowSep) + rest
    ensures ReadField(r, SepsOf(sep, rowSep)) == (Some(row[i]), AfterRow(r, row, i, sep, rowSep))
    ensures Bound(Some(row[i])) == Some(row[i]) && AfterRow(r, row, i, sep, rowSep).input == rest
  {
    var text := CsvField(row[i], [sep]) + rowSep;
    assert CsvRow(row, i, [sep], rowSep) == text by {
      assert CsvRow(row, i + 1, [sep], rowSep) == rowSep;
    }
    ColumnRoundTrip(r, row[i], rowSep, rest, sep, rowSep);
  }

  lemma LastColumnRoundTrip(r: Reader, row: seq<string>, i: nat, rest: string, bound: seq<Binding>, start: int,
                            sep: char, rowSep: string)
    requires IsRowSep(rowSep) && Legal(sep, rowSep)
    requires i + 1 == |row| == |bound| && NulFree(row[i])
    requires r.input == CsvRow(row, i, [sep], rowSep) + rest
    ensures BindColumns(r, i, |row|, bound, start, SepsOf(sep, rowSep))
            == (|row|, bound[i := Some(row[i])], AfterRow(r, row, i, sep, rowSep))
  {
    hide CsvRow, ReadField, Bound, AfterRow, NulFree;
    LastField(r, row, i, rest, sep, rowSep);
    BindStep(r, row[i], AfterRow(r, row, i, sep, rowSep), i, |row|, bound, start, SepsOf(sep, rowSep));
  }

  /** Reading one column leaves the reader in front of the printed rest of the row. */
  lemma InnerField(r: Reader, row: seq<string>, i: nat, rest: string, sep: char, rowSep: string) returns (r1: Reader)
    requires IsRowSep(rowSep) && Legal(sep, rowSep)
    requires i + 1 < |row| && NulFree(row[i])
    requires r.input == CsvRow(row, i, [sep], rowSep) + rest
    ensures r1.input == CsvRow(row, i + 1, [sep], rowSep) + rest && r1.term == Byte(sep) && r1.log == r.log
    ensures AfterRow(r1, row, i + 1, sep, rowSep) == AfterRow(r, row, i, sep, rowSep)
    ensures ReadField(r, SepsOf(sep, rowSep)) == (Some(row[i]), r1) && Bound(Some(row[i])) == Some(row[i])
  {
    var line := InputRowSep(rowSep);
    var text, more := CsvField(row[i], [sep]) + [sep], CsvRow(row, i + 1, [sep], rowSep);
    assert CsvRow(row, i, [sep], rowSep) == text + more;
    assert r.input == text + (more + rest);
    ColumnRoundTrip(r, row[i], [sep], more + rest, sep, rowSep);
    r1 := Advance(r, text, sep, line);
    AdvanceTwice(r, text, more, sep, line, line);
  }

  lemma InnerColumnRoundTrip(r: Reader, row: seq<string>, i: nat, rest: string, bound: seq<Binding>, start: int,
                             sep: char, rowSep: string) returns (r1: Reader)
    requires IsRowSep(rowSep) && Legal(sep, rowSep)
    requires i + 1 < |row| && i < |bound| && NulFree(row[i])
    requires r.input == CsvRow(row, i, [sep], rowSep) + rest
    ensures r1.input == CsvRow(row, i + 1, [sep], rowSep) + rest && r1.term == Byte(sep) && r1.log == r.log
    ensures AfterRow(r1, row, i + 1, sep, rowSep) == AfterRow(r, row, i, sep, rowSep)
    ensures BindColumns(r, i, |bound|, bound, start, SepsOf(sep, rowSep))
            == BindColumns(r1, i + 1, |bound|, bound[i := Some(row[i])], start, SepsOf(sep, rowSep))
  {
    hide CsvRow, BindColumns, ReadField, Bound, AfterRow, NulFree;
    r1 := InnerField(r, row, i, rest, sep, rowSep);
    BindStep(r, row[i], r1, i, |bound|, bound, start, SepsOf(sep, rowSep));
  }

  lemma {:induction false} RowRoundTrip(r: Reader, row: seq<string>, i: nat, rest: string, bound: seq<Binding>, start: int,
                                        sep: char, rowSep: string)
    requires IsRowSep(rowSep) && Legal(sep, rowSep)
    requires i < |row| == |bound| && forall j :: 0 <= j < |row| ==> NulFree(row[j])
    requires r.input == CsvRow(row, i, [sep], rowSep) + rest
    ensures BindColumns(r, i, |row|, bound, start, SepsOf(sep, rowSep))
            == (|row|, bound[..i] + Texts(row)[i..], AfterRow(r, row, i, sep, rowSep))
    decreases |row| - i
  {
    hide CsvRow, BindColumns, Legal, NulFree, AfterRow;
    var bound1 := bound[i := Some(row[i])];
    if i + 1 < |row| {
      var r1 := InnerColumnRoundTrip(r, row, i, rest, bound, start, sep, rowSep);
      RowRoundTrip(r1, row, i + 1, rest, bound1, start, sep, rowSep);
      assert bound1[..i + 1] + Texts(row)[i + 1..] == bound[..i] + Texts(row)[i..];
    } else {
      LastColumnRoundTrip(r, row, i, rest, bound, start, sep, rowSep);
      assert bound1 == bound[..i] + Texts(row)[i..];
    }
  }

  lemma {:induction false} TableRoundTripFrom(table: seq<seq<Binding>>, r: Reader, rows: seq<seq<string>>, nCol: nat,
                                              bound: seq<Binding>, sep: char, rowSep: string)
    requires IsRowSep(rowSep) && Legal(sep, rowSep) && IsTable(rows, nCol) && |bound| == nCol
    requires r.input == CsvTable(rows, [sep], rowSep)
    ensures ImportAll(table, r, nCol, bound, SepsOf(sep, rowSep))
            == (table + AsTable(rows), Reader("", r.line + Count(r.input, InputRowSep(rowSep)), Eof, r.log))
    decreases |rows|
  {
    hide CsvRow, Legal, ImportAll, Count, NulFree, Texts;
    var seps, line := SepsOf(sep, rowSep), InputRowSep(rowSep);
    if rows == [] {
      ImportAllUnfold(table, r, nCol, bound, seps);
      ImportNothing(r, nCol, bound, seps);
      NothingCounted(line);
      assert table + AsTable(rows) == table;
    } else {
      var text, rest := CsvRow(rows[0], 0, [sep], rowSep), CsvTable(rows[1..], [sep], rowSep);
      ImportOneMore(table, r, rows[0], rest, bound, sep, rowSep);
      var b := Texts(rows[0]);
      TableRoundTripFrom(table + [b], Advance(r, text, line, line), rows[1..], nCol, b, sep, rowSep);
      CountConcat(text, rest, line);
      Regroup(table, [b], AsTable(rows[1..]));
    }
  }

  /** The row loop goes on behind a printed row with that row inserted. */
  lemma ImportOneMore(table: seq<seq<Binding>>, r: Reader, row: seq<string>, rest: string, bound: seq<Binding>,
                      sep: char, rowSep: string)
    requires IsRowSep(rowSep) && Legal(sep, rowSep)
    requires |row| == |bound| > 0 && forall j :: 0 <= j < |row| ==> NulFree(row[j])
    requires r.input == CsvRow(row, 0, [sep], rowSep) + rest
    ensures var r1, b := AfterRow(r, row, 0, sep, rowSep), Texts(row);
            && |b| == |row| && r1.input == rest
            && ImportAll(table, r, |row|, bound, SepsOf(sep, rowSep)) == ImportAll(table + [b], r1, |row|, b, SepsOf(sep, rowSep))
  {
    hide ImportRow, CsvRow, Legal, ImportAll, Count, NulFree;
    ImportAllUnfold(table, r, |row|, bound, SepsOf(sep, rowSep));
    ImportPrintedRow(r, row, rest, bound, sep, rowSep);
  }

  lemma ImportAllUnfold(table: seq<seq<Binding>>, r: Reader, nCol: nat, bound: seq<Binding>, seps: Separators)
    requires |bound| == nCol > 0 && seps.col != Eof
    ensures var (ins, b, r1) := ImportRow(r, nCol, bound, seps);
            |b| == nCol && ImportAll(table, r, nCol, bound, seps) ==
            var table1 := if ins then table + [b] else table;
            if r1.term == Eof then (table1, r1) else ImportAll(table1, r1, nCol, b, seps)
  {
    hide ImportRow;
    ImportRowProgress(r, nCol, bound, seps);
  }

  lemma NothingCounted(c: char)
    ensures Count("", c) == 0
  {
  }

  lemma ImportNothing(r: Reader, nCol: nat, bound: seq<Binding>, seps: Separators)
    requires r.input == "" && |bound| == nCol > 0 && seps.col != Eof
    ensures ImportRow(r, nCol, bound, seps) == (false, bound, r.(term := Eof))
  {
    assert ReadField(r, seps) == (None, r.(term := Eof));
  }

  lemma ImportPrintedRow(r: Reader, row: seq<string>, rest: string, bound: seq<Binding>, sep: char, rowSep: string)
    requires IsRowSep(rowSep) && Legal(sep, rowSep)
    requires |row| == |bound| > 0 && forall j :: 0 <= j < |row| ==> NulFree(row[j])
    requires r.input == CsvRow(row, 0, [sep], rowSep) + rest
    ensures ImportRow(r, |row|, bound, SepsOf(sep, rowSep)) == (true, Texts(row), AfterRow(r, row, 0, sep, rowSep))
    ensures AfterRow(r, row, 0, sep, rowSep).input == rest
  {
    hide BindColumns, CsvRow;
    RowRoundTrip(r, row, 0, rest, bound, r.line, sep, rowSep);
    assert bound[..0] + Texts(row)[0..] == Texts(row);
  }

  /** Printing a table and importing it: the import ends, with the same rows, no diagnostic, and nothing
      left to read. */
  ghost predicate RoundTrips(rows: seq<seq<string>>, nCol: nat, sep: char, rowSep: string, signed: bool)
    requires IsRowSep(rowSep) && nCol > 0
  {
    var text, seps := CsvTable(rows, [sep], rowSep), SeparatorsOf(sep, rowSep, signed);
    && seps.col != Eof
    && ImportAll([], Reader(text, 1, Eof, []), nCol, Unbound(nCol), seps)
       == (AsTable(rows), Reader("", 1 + Count(text, InputRowSep(rowSep)), Eof, []))
  }

  /** The same rows, whatever is reported on the way. */
  ghost predicate RowsSurvive(rows: seq<seq<string>>, nCol: nat, sep: char, rowSep: string, signed: bool)
    requires IsRowSep(rowSep) && nCol > 0
  {
    var text, seps := CsvTable(rows, [sep], rowSep), SeparatorsOf(sep, rowSep, signed);
    seps.col != Eof && ImportAll([], Reader(text, 1, Eof, []), nCol, Unbound(nCol), seps).0 == AsTable(rows)
  }

  lemma TableRoundTrip(rows: seq<seq<string>>, nCol: nat, sep: char, rowSep: string, signed: bool)
    requires IsRowSep(rowSep) && LegalFor(sep, rowSep, signed) && IsTable(rows, nCol)
    ensures RoundTrips(rows, nCol, sep, rowSep, signed)
  {
    var text := CsvTable(rows, [sep], rowSep);
    assert SeparatorsOf(sep, rowSep, signed) == SepsOf(sep, rowSep);
    TableRoundTripFrom([], Reader(text, 1, Eof, []), rows, nCol, Unbound(nCol), sep, rowSep);
    assert [] + AsTable(rows) == AsTable(rows);
  }
}
