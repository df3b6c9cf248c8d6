/** What `.import` makes of rows with too few or too many columns. */
module CsvRagged {
  import opened CText
  import opened CsvFormat
  import opened CsvImport
  import opened CsvRoundTrip

  /** What is inserted for a row: missing columns are NULL, extra ones are left out. */
  function Fitted(row: seq<string>, nCol: nat): seq<Binding> {
    if |row| < nCol then Texts(row) + seq(nCol - |row|, _ => None) else Texts(row)[..nCol]
  }

  /** What is reported for a row that starts on line `line`. */
  function Complaint(row: seq<string>, nCol: nat, line: int): seq<Diagnostic> {
    if |row| < nCol then [MissingColumns(line, nCol, |row|)]
    else if |row| > nCol then [ExtraColumns(line, nCol, |row|)]
    else []
  }

  predicate AreTexts(row: seq<string>) {
    row != [] && forall j :: 0 <= j < |row| ==> NulFree(row[j])
  }

  // ---------------------------------------------------------------- too few columns

  lemma {:induction false} BindShortRow(r: Reader, row: seq<string>, i: nat, rest: string, bound: seq<Binding>, start: int,
                                        sep: char, rowSep: string)
    requires IsRowSep(rowSep) && Legal(sep, rowSep) && AreTexts(row) && i < |row| < |bound|
    requires r.input == CsvRow(row, i, [sep], rowSep) + rest
    ensures var r1 := AfterRow(r, row, i, sep, rowSep);
            BindColumns(r, i, |bound|, bound, start, SepsOf(sep, rowSep)) ==
            (|bound| + 2, bound[..i] + Texts(row)[i..] + seq(|bound| - |row|, _ => None),
             r1.(log := r1.log + [MissingColumns(start, |bound|, |row|)]))
    decreases |row| - i
  {
    hide CsvRow, BindColumns, Legal, NulFree, AfterRow;
    var bound1 := bound[i := Some(row[i])];
    var nulls: seq<Binding> := seq(|bound| - |row|, _ => None);
    if i + 1 < |row| {
      var r1 := InnerColumnRoundTrip(r, row, i, rest, bound, start, sep, rowSep);
      BindShortRow(r1, row, i + 1, rest, bound1, start, sep, rowSep);
      assert bound1[..i + 1] + Texts(row)[i + 1..] == bound[..i] + Texts(row)[i..];
    } else {
      LastField(r, row, i, rest, sep, rowSep);
      EndsAtRow(r, row, i, sep, rowSep);
      BindLastOfShortRow(r, row[i], AfterRow(r, row, i, sep, rowSep), i, bound, start, SepsOf(sep, rowSep));
      assert bound1[..i + 1] == bound[..i] + Texts(row)[i..];
    }
  }

  lemma BindLastOfShortRow(r: Reader, x: string, r1: Reader, i: nat, bound: seq<Binding>, start: int, seps: Separators)
    requires i + 1 < |bound| && ReadField(r, seps) == (Some(x), r1) && Bound(Some(x)) == Some(x) && r1.term != seps.col
    ensures BindColumns(r, i, |bound|, bound, start, seps) ==
            (|bound| + 2, bound[i := Some(x)][..i + 1] + seq(|bound| - (i + 1), _ => None),
             r1.(log := r1.log + [MissingColumns(start, |bound|, i + 1)]))
  {
    hide ReadField, Bound;
  }

  lemma EndsAtRow(r: Reader, row: seq<string>, i: nat, sep: char, rowSep: string)
    requires IsRowSep(rowSep) && Legal(sep, rowSep) && i <= |row| && |CsvRow(row, i, [sep], rowSep)| <= |r.input|
    ensures var r1 := AfterRow(r, row, i, sep, rowSep); r1.term != SepsOf(sep, rowSep).col && r1.term != Eof && r1.log == r.log
  {
    hide CsvRow;
  }

  // ---------------------------------------------------------------- too many columns

  lemma {:induction false} BindLongRow(r: Reader, row: seq<string>, i: nat, rest: string, bound: seq<Binding>, start: int,
                                       sep: char, rowSep: string) returns (r1: Reader)
    requires IsRowSep(rowSep) && Legal(sep, rowSep) && AreTexts(row) && i < |bound| < |row|
    requires r.input == CsvRow(row, i, [sep], rowSep) + rest
    ensures r1.input == CsvRow(row, |bound|, [sep], rowSep) + rest && r1.term == Byte(sep) && r1.log == r.log
    ensures AfterRow(r1, row, |bound|, sep, rowSep) == AfterRow(r, row, i, sep, rowSep)
    ensures BindColumns(r, i, |bound|, bound, start, SepsOf(sep, rowSep)) == (|bound|, bound[..i] + Texts(row)[i..|bound|], r1)
    decreases |bound| - i
  {
    hide CsvRow, BindColumns, Legal, NulFree, AfterRow;
    var bound1 := bound[i := Some(row[i])];
    r1 := InnerColumnRoundTrip(r, row, i, rest, bound, start, sep, rowSep);
    if i + 1 < |bound| {
      r1 := BindLongRow(r1, row, i + 1, rest, bound1, start, sep, rowSep);
      assert bound1[..i + 1] + Texts(row)[i + 1..|bound|] == bound[..i] + Texts(row)[i..|bound|];
    } else {
      BindNoMore(r1, bound1, start, SepsOf(sep, rowSep));
      assert bound1 == bound[..i] + Texts(row)[i..|bound|];
    }
  }

  lemma BindNoMore(r: Reader, bound: seq<Binding>, start: int, seps: Separators)
    ensures BindColumns(r, |bound|, |bound|, bound, start, seps) == (|bound|, bound, r)
  {
  }

  lemma {:induction false} SkipPrinted(r: Reader, row: seq<string>, i: nat, rest: string, sep: char, rowSep: string)
    requires IsRowSep(rowSep) && Legal(sep, rowSep) && AreTexts(row) && i < |row|
    requires r.input == CsvRow(row, i, [sep], rowSep) + rest
    ensures SkipExtras(r, i, SepsOf(sep, rowSep)) == (|row|, AfterRow(r, row, i, sep, rowSep))
    decreases |row| - i
  {
    hide CsvRow, Legal, NulFree, AfterRow, ReadField;
    if i + 1 < |row| {
      var r1 := InnerField(r, row, i, rest, sep, rowSep);
      SkipPrinted(r1, row, i + 1, rest, sep, rowSep);
    } else {
      LastField(r, row, i, rest, sep, rowSep);
      EndsAtRow(r, row, i, sep, rowSep);
    }
  }

  // ---------------------------------------------------------------- any number of columns

  /** One turn of the import loop over a printed row of any length, whatever was bound before. */
  lemma ImportRaggedRow(r: Reader, row: seq<string>, rest: string, bound: seq<Binding>, sep: char, rowSep: string)
    requires IsRowSep(rowSep) && Legal(sep, rowSep) && AreTexts(row) && bound != []
    requires r.input == CsvRow(row, 0, [sep], rowSep) + rest
    ensures var r1 := AfterRow(r, row, 0, sep, rowSep);
            && r1.input == rest
            && ImportRow(r, |bound|, bound, SepsOf(sep, rowSep))
               == (true, Fitted(row, |bound|), r1.(log := r.log + Complaint(row, |bound|, r.line)))
  {
    hide CsvRow, BindColumns, SkipExtras, Legal, NulFree, AfterRow;
    var n := |bound|;
    assert bound[..0] + Texts(row)[0..] == Texts(row);
    EndsAtRow(r, row, 0, sep, rowSep);
    BehindRow(r, row, rest, sep, rowSep);
    if |row| < n {
      BindShortRow(r, row, 0, rest, bound, r.line, sep, rowSep);
    } else if |row| == n {
      RowRoundTrip(r, row, 0, rest, bound, r.line, sep, rowSep);
      assert Texts(row)[..n] == Texts(row);
      assert r.log + [] == r.log;
    } else {
      var r1 := BindLongRow(r, row, 0, rest, bound, r.line, sep, rowSep);
      SkipPrinted(r1, row, n, rest, sep, rowSep);
      assert bound[..0] + Texts(row)[0..n] == Texts(row)[..n];
    }
  }

  lemma BehindRow(r: Reader, row: seq<string>, rest: string, sep: char, rowSep: string)
    requires IsRowSep(rowSep) && r.input == CsvRow(row, 0, [sep], rowSep) + rest
    ensures AfterRow(r, row, 0, sep, rowSep).input == rest
  {
    hide CsvRow;
  }

  function AllFitted(rows: seq<seq<string>>, nCol: nat): seq<seq<Binding>> {
    if rows == [] then [] else [Fitted(rows[0], nCol)] + AllFitted(rows[1..], nCol)
  }

  function Complaints(rows: seq<seq<string>>, nCol: nat, line: int, sep: char, rowSep: string): seq<Diagnostic>
    requires rowSep != ""
  {
    if rows == [] then []
    else
      Complaint(rows[0], nCol, line)
      + Complaints(rows[1..], nCol, line + Count(CsvRow(rows[0], 0, [sep], rowSep), InputRowSep(rowSep)), sep, rowSep)
  }

  /** The import of any rows into a table of any width: each is inserted as far as it fits and filled with NULL,
      and reported with the line it starts on. */
  lemma {:induction false} ImportRagged(table: seq<seq<Binding>>, r: Reader, rows: seq<seq<string>>, bound: seq<Binding>,
                                        sep: char, rowSep: string)
    requires IsRowSep(rowSep) && Legal(sep, rowSep) && bound != []
    requires forall i :: 0 <= i < |rows| ==> AreTexts(rows[i])
    requires r.input == CsvTable(rows, [sep], rowSep)
    ensures ImportAll(table, r, |bound|, bound, SepsOf(sep, rowSep)) ==
            (table + AllFitted(rows, |bound|),
             Reader("", r.line + Count(r.input, InputRowSep(rowSep)), Eof,
                    r.log + Complaints(rows, |bound|, r.line, sep, rowSep)))
    decreases |rows|
  {
    hide CsvRow, Legal, ImportAll, ImportRow, Count, AreTexts, Fitted, Complaint;
    var seps, line, nCol := SepsOf(sep, rowSep), InputRowSep(rowSep), |bound|;
    ImportAllUnfold(table, r, nCol, bound, seps);
    if rows == [] {
      ImportNothing(r, nCol, bound, seps);
      NothingCounted(line);
      assert table + AllFitted(rows, nCol) == table;
      assert r.log + Complaints(rows, nCol, r.line, sep, rowSep) == r.log;
    } else {
      var text, rest := CsvRow(rows[0], 0, [sep], rowSep), CsvTable(rows[1..], [sep], rowSep);
      ImportRaggedRow(r, rows[0], rest, bound, sep, rowSep);
      EndsAtRow(r, rows[0], 0, sep, rowSep);
      var b, c := Fitted(rows[0], nCol), Complaint(rows[0], nCol, r.line);
      var r1 := Advance(r, text, line, line).(log := r.log + c);
      ImportRagged(table + [b], r1, rows[1..], b, sep, rowSep);
      CountConcat(text, rest, line);
      Regroup(table, [b], AllFitted(rows[1..], nCol));
      Regroup(r.log, c, Complaints(rows[1..], nCol, r1.line, sep, rowSep));
    }
  }
}
