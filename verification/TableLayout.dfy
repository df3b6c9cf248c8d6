/** The column-major listing of the .tables command. */
module TableLayout {
  import opened CText

  // ---------------------------------------------------------------- the grid

  /** Columns that fit 80 characters, at least one; and the lines needed. */
  function Columns(maxlen: nat): (n: nat)
    ensures n >= 1
  {
    var n := 80 / (maxlen + 2);
    if n < 1 then 1 else n
  }

  function PrintRows(n: nat, maxlen: nat): nat {
    (n + Columns(maxlen) - 1) / Columns(maxlen)
  }

  /** The result indices on the line that starts with `j`. */
  function LineIndices(j: nat, n: nat, rows: nat): seq<nat>
    requires rows > 0
    decreases n - j
  {
    if j >= n then [] else [j] + LineIndices(j + rows, n, rows)
  }

  /** A cell is padded to the width of the longest name, and separated by two spaces from the cell on
      its left. */
  function Spaces(k: nat): (s: string)
    ensures |s| == k
  {
    if k == 0 then "" else " " + Spaces(k - 1)
  }

  function Padded(name: string, maxlen: nat): string {
    name + Spaces(if |name| < maxlen then maxlen - |name| else 0)
  }

  function Cell(name: string, j: nat, rows: nat, maxlen: nat): string {
    (if j < rows then "" else "  ") + Padded(name, maxlen)
  }

  function LineText(names: seq<string>, j: nat, rows: nat, maxlen: nat): string
    requires rows > 0
    decreases |names| - j
  {
    if j >= |names| then "" else Cell(names[j], j, rows, maxlen) + LineText(names, j + rows, rows, maxlen)
  }

  function Listing(names: seq<string>, i: nat, rows: nat, maxlen: nat): string
    requires i <= rows
    decreases rows - i
  {
    if i == rows then "" else LineText(names, i, rows, maxlen) + "\n" + Listing(names, i + 1, rows, maxlen)
  }

  predicate IsMaxLength(names: seq<string>, maxlen: nat) {
    && (forall i :: 0 <= i < |names| ==> |names[i]| <= maxlen)
    && (maxlen == 0 || exists i :: 0 <= i < |names| && |names[i]| == maxlen)
  }

  // ---------------------------------------------------------------- arithmetic of the grid

  lemma CeilingDivision(n: nat, d: nat)
    requires n > 0 && d > 0
    ensures var q := (n + d - 1) / d; q >= 1 && q * d >= n
  {
    var q := (n + d - 1) / d;
    assert q * d == (n + d - 1) - (n + d - 1) % d;
    PositiveFactor(q, d);
  }

  lemma PositiveFactor(q: int, d: nat)
    ensures q * d > 0 ==> q > 0
  {
  }

  lemma MulAtLeast(a: nat, b: nat, c: nat)
    ensures a <= b ==> a * c <= b * c
  {
  }

  lemma SmallerQuotient(a: nat, b: nat, d: nat, r: nat)
    requires r < d
    ensures a < b ==> a * d + r < b * d
  {
    MulAtLeast(a + 1, b, d);
    assert (a + 1) * d == a * d + d;
  }

  lemma DivModUnique(j: nat, i: nat, c: nat, rows: nat)
    requires rows > 0 && i < rows && j == i + c * rows
    ensures j % rows == i && j / rows == c
  {
    var q, r := j / rows, j % rows;
    assert j == q * rows + r;
    SmallerQuotient(q, c, rows, r);
    SmallerQuotient(c, q, rows, i);
  }

  // ---------------------------------------------------------------- every name once, in its place

  lemma {:induction false} LineIndicesAt(j: nat, n: nat, rows: nat, c: nat)
    requires rows > 0 && c < |LineIndices(j, n, rows)|
    ensures LineIndices(j, n, rows)[c] == j + c * rows < n
    decreases c
  {
    if c > 0 {
      LineIndicesAt(j + rows, n, rows, c - 1);
      assert j + rows + (c - 1) * rows == j + c * rows;
    }
  }

  lemma {:induction false} LineIndicesComplete(j: nat, n: nat, rows: nat, c: nat)
    requires rows > 0 && j + c * rows < n
    ensures c < |LineIndices(j, n, rows)|
    decreases c
  {
    if c > 0 {
      assert j + c * rows == j + rows + (c - 1) * rows;
      MulAtLeast(0, c - 1, rows);
      LineIndicesComplete(j + rows, n, rows, c - 1);
    }
  }

  lemma IndexOnce(j: nat, n: nat, rows: nat)
    requires j < n && rows > 0
    ensures j % rows < rows && j / rows < |LineIndices(j % rows, n, rows)|
    ensures forall i: nat, c: nat :: i < rows && c < |LineIndices(i, n, rows)| ==>
              (LineIndices(i, n, rows)[c] == j <==> i == j % rows && c == j / rows)
  {
    hide LineIndices;
    var r, q := j % rows, j / rows;
    assert j == r + q * rows;
    LineIndicesComplete(r, n, rows, q);
    forall i: nat, c: nat | i < rows && c < |LineIndices(i, n, rows)|
      ensures LineIndices(i, n, rows)[c] == j <==> i == r && c == q
    {
      LineIndicesAt(i, n, rows, c);
      DivModUnique(i + c * rows, i, c, rows);
    }
  }

  /** Result `j` is printed on line `j % rows` at position `j / rows`, and nowhere else. */
  lemma {:induction false} EveryIndexOnce(j: nat, n: nat, maxlen: nat)
    requires j < n
    ensures var rows := PrintRows(n, maxlen);
            && rows > 0 && j % rows < rows
            && j / rows < |LineIndices(j % rows, n, rows)|
            && forall i: nat, c: nat :: i < rows && c < |LineIndices(i, n, rows)| ==>
                 (LineIndices(i, n, rows)[c] == j <==> i == j % rows && c == j / rows)
  {
    hide LineIndices;
    CeilingDivision(n, Columns(maxlen));
    IndexOnce(j, n, PrintRows(n, maxlen));
  }

  /** No line holds more names than there are columns. */
  lemma LineIsNotTooLong(i: nat, n: nat, maxlen: nat)
    requires n > 0
    ensures var rows := PrintRows(n, maxlen); rows > 0 && |LineIndices(i, n, rows)| <= Columns(maxlen)
  {
    hide LineIndices;
    var cols := Columns(maxlen);
    CeilingDivision(n, cols);
    var rows := PrintRows(n, maxlen);
    var k := |LineIndices(i, n, rows)|;
    if k > 0 {
      LineIndicesAt(i, n, rows, k - 1);
      MulAtLeast(cols, k - 1, rows);
      assert cols * rows == rows * cols;
    }
  }

  // ---------------------------------------------------------------- the width of a line

  /** As many columns as fit 80 characters with two spaces each, and no fewer; at least one. */
  lemma ColumnsAreMost(maxlen: nat)
    ensures Columns(maxlen) == 1 || Columns(maxlen) * (maxlen + 2) <= 80
    ensures (Columns(maxlen) + 1) * (maxlen + 2) > 80
  {
    var q := 80 / (maxlen + 2);
    assert q * (maxlen + 2) == 80 - 80 % (maxlen + 2);
    assert (q + 1) * (maxlen + 2) == q * (maxlen + 2) + (maxlen + 2);
    if q < 1 {
      assert 2 * (maxlen + 2) > 80;
    }
  }

  /** The number of lines is the least with which no line holds more names than that. */
  lemma RowsAreLeast(n: nat, maxlen: nat, rows: nat)
    requires n > 0 && rows > 0
    ensures (forall i: nat :: i < rows ==> |LineIndices(i, n, rows)| <= Columns(maxlen)) <==> rows >= PrintRows(n, maxlen)
  {
    hide LineIndices, Columns;
    var d := Columns(maxlen);
    RowsCover(n, d, rows);
    if rows >= PrintRows(n, maxlen) {
      forall i: nat | i < rows
        ensures |LineIndices(i, n, rows)| <= d
      {
        if |LineIndices(i, n, rows)| > d {
          LineIndicesAt(i, n, rows, d);
        }
      }
    } else {
      LineIndicesComplete(0, n, rows, d);
    }
  }

  /** The ceiling of n / d. */
  lemma RowsCover(n: nat, d: nat, rows: nat)
    requires n > 0 && d > 0
    ensures rows >= (n + d - 1) / d <==> d * rows >= n
  {
    var q := (n + d - 1) / d;
    assert q * d == (n + d - 1) - (n + d - 1) % d;
    if rows >= q {
      MulAtLeast(q, rows, d);
    } else {
      MulAtLeast(rows + 1, q, d);
      assert (rows + 1) * d == rows * d + d;
    }
  }

  lemma SpacesAreSpaces(k: nat)
    ensures forall i :: 0 <= i < k ==> Spaces(k)[i] == ' '
  {
  }

  lemma {:induction false} LineWidth(names: seq<string>, j: nat, rows: nat, maxlen: nat)
    requires rows > 0 && forall i :: 0 <= i < |names| ==> |names[i]| <= maxlen
    ensures var k := |LineIndices(j, |names|, rows)|;
            |LineText(names, j, rows, maxlen)| == k * maxlen + 2 * (if j < rows && k > 0 then k - 1 else k)
    decreases |names| - j
  {
    if j < |names| {
      LineWidth(names, j + rows, rows, maxlen);
      var k := |LineIndices(j + rows, |names|, rows)|;
      assert (k + 1) * maxlen == k * maxlen + maxlen;
      assert |Cell(names[j], j, rows, maxlen)| == maxlen + if j < rows then 0 else 2;
    }
  }

  // ---------------------------------------------------------------- the grid in the printed text

  /** The cells of the names at some indices. */
  function Cells(names: seq<string>, at: seq<nat>, rows: nat, maxlen: nat): string
    requires forall c :: 0 <= c < |at| ==> at[c] < |names|
  {
    if at == [] then "" else Cell(names[at[0]], at[0], rows, maxlen) + Cells(names, at[1..], rows, maxlen)
  }

  lemma {:induction false} LineIndicesInRange(j: nat, n: nat, rows: nat)
    requires rows > 0
    ensures forall c :: 0 <= c < |LineIndices(j, n, rows)| ==> LineIndices(j, n, rows)[c] < n
  {
    hide LineIndices;
    forall c | 0 <= c < |LineIndices(j, n, rows)|
      ensures LineIndices(j, n, rows)[c] < n
    {
      LineIndicesAt(j, n, rows, c);
    }
  }

  /** A line consists of the cells at its indices and nothing else. */
  lemma {:induction false} LineIsCells(names: seq<string>, j: nat, rows: nat, maxlen: nat)
    requires rows > 0
    ensures forall c :: 0 <= c < |LineIndices(j, |names|, rows)| ==> LineIndices(j, |names|, rows)[c] < |names|
    ensures LineText(names, j, rows, maxlen) == Cells(names, LineIndices(j, |names|, rows), rows, maxlen)
    decreases |names| - j
  {
    hide Cell;
    LineIndicesInRange(j, |names|, rows);
    if j < |names| {
      LineIsCells(names, j + rows, rows, maxlen);
      assert LineIndices(j, |names|, rows)[1..] == LineIndices(j + rows, |names|, rows);
    }
  }

  function Unlines(lines: seq<string>): string {
    if lines == [] then "" else lines[0] + "\n" + Unlines(lines[1..])
  }

  function LineTexts(names: seq<string>, i: nat, rows: nat, maxlen: nat): (lines: seq<string>)
    requires 0 < rows && i <= rows
    ensures |lines| == rows - i && forall k :: 0 <= k < |lines| ==> lines[k] == LineText(names, i + k, rows, maxlen)
  {
    seq(rows - i, k requires 0 <= k < rows - i => LineText(names, i + k, rows, maxlen))
  }

  /** The listing consists of its lines and nothing else. */
  lemma {:induction false} ListingIsLines(names: seq<string>, i: nat, rows: nat, maxlen: nat)
    requires 0 < rows && i <= rows
    ensures Listing(names, i, rows, maxlen) == Unlines(LineTexts(names, i, rows, maxlen))
    decreases rows - i
  {
    hide LineText;
    if i < rows {
      ListingIsLines(names, i + 1, rows, maxlen);
      assert LineTexts(names, i, rows, maxlen)[1..] == LineTexts(names, i + 1, rows, maxlen);
    }
  }

  /** The start of a column on its line: each takes the maximal length and two spaces. */
  function ColumnStart(c: nat, maxlen: nat): nat {
    if c == 0 then 0 else ColumnStart(c - 1, maxlen) + maxlen + 2
  }

  /** The text of cell `c` of a line. */
  predicate ShowsAt(line: string, at: nat, text: string) {
    at + |text| <= |line| && line[at..at + |text|] == text
  }

  /** Where the name of column `c` stands on the line that starts with `j`. */
  lemma {:induction false} NameInColumn(names: seq<string>, j: nat, rows: nat, maxlen: nat, c: nat)
    requires rows > 0 && c < |LineIndices(j, |names|, rows)| && forall i :: 0 <= i < |names| ==> |names[i]| <= maxlen
    ensures LineIndices(j, |names|, rows)[c] < |names|
    ensures ShowsAt(LineText(names, j, rows, maxlen), (if j < rows then 0 else 2) + ColumnStart(c, maxlen),
                    Padded(names[LineIndices(j, |names|, rows)[c]], maxlen))
    decreases c
  {
    hide ShowsAt, Padded;
    var cell, more := Cell(names[j], j, rows, maxlen), LineText(names, j + rows, rows, maxlen);
    PaddedLength(names[j], maxlen);
    if c == 0 {
      ShowsFirst(if j < rows then "" else "  ", Padded(names[j], maxlen), more);
    } else {
      NameInColumn(names, j + rows, rows, maxlen, c - 1);
      ShowsLater(cell, more, 2 + ColumnStart(c - 1, maxlen), Padded(names[LineIndices(j + rows, |names|, rows)[c - 1]], maxlen));
    }
  }

  lemma PaddedLength(name: string, maxlen: nat)
    requires |name| <= maxlen
    ensures |Padded(name, maxlen)| == maxlen
  {
  }

  lemma ShowsFirst(gap: string, text: string, more: string)
    ensures ShowsAt(gap + text + more, |gap|, text)
  {
  }

  lemma ShowsLater(cell: string, more: string, at: nat, text: string)
    requires ShowsAt(more, at, text)
    ensures ShowsAt(cell + more, |cell| + at, text)
  {
    assert (cell + more)[|cell| + at..|cell| + at + |text|] == more[at..at + |text|];
  }

  /** Every name stands in the printed text, padded, on its line and in its column; with EveryIndexOnce, in no
      other cell. */
  lemma EveryNamePrinted(names: seq<string>, j: nat, maxlen: nat)
    requires j < |names| && forall i :: 0 <= i < |names| ==> |names[i]| <= maxlen
    ensures var rows := PrintRows(|names|, maxlen);
            && rows > 0 && j % rows < rows
            && Listing(names, 0, rows, maxlen) == Unlines(LineTexts(names, 0, rows, maxlen))
            && ShowsAt(LineTexts(names, 0, rows, maxlen)[j % rows], ColumnStart(j / rows, maxlen), Padded(names[j], maxlen))
  {
    hide LineText, Listing, Padded, PrintRows, Unlines, ShowsAt, LineIndices, ColumnStart;
    RowsNeeded(|names|, maxlen);
    var rows := PrintRows(|names|, maxlen);
    ListingIsLines(names, 0, rows, maxlen);
    IndexOnce(j, |names|, rows);
    NameInColumn(names, j % rows, rows, maxlen, j / rows);
  }

  /** No line is wider than 78 characters, unless a single name is. */
  lemma LineFitsScreen(names: seq<string>, i: nat, maxlen: nat)
    requires names != [] && forall k :: 0 <= k < |names| ==> |names[k]| <= maxlen
    ensures var rows := PrintRows(|names|, maxlen);
            rows > 0 && (i < rows ==> |LineText(names, i, rows, maxlen)| <= if maxlen > 78 then maxlen else 78)
  {
    hide LineIndices, LineText, Columns;
    LineIsNotTooLong(i, |names|, maxlen);
    var rows := PrintRows(|names|, maxlen);
    LineWidth(names, i, rows, maxlen);
    ColumnsFit(maxlen, |LineIndices(i, |names|, rows)|);
  }

  lemma ColumnsFit(maxlen: nat, k: nat)
    requires k <= Columns(maxlen)
    ensures k > 0 ==> k * maxlen + 2 * (k - 1) <= if maxlen > 78 then maxlen else 78
  {
    var w := maxlen + 2;
    assert k * maxlen + 2 * k == k * w;
    MulAtLeast(k, 80 / w, w);
    assert 80 / w * w == 80 - 80 % w;
  }

  // ---------------------------------------------------------------- the loops

  method MaxLength(azResult: seq<string>) returns (maxlen: nat)
    ensures IsMaxLength(azResult, maxlen)
  {
    maxlen := 0;
    for i := 0 to |azResult|
      invariant IsMaxLength(azResult[..i], maxlen)
    {
      var len := |azResult[i]|;
      assert azResult[..i + 1] == azResult[..i] + [azResult[i]];
      ghost var was := maxlen;
      if len > maxlen {
        maxlen := len;
        assert |azResult[..i + 1][i]| == maxlen;
      } else if maxlen > 0 {
        ghost var k :| 0 <= k < i && |azResult[..i][k]| == maxlen;
        assert |azResult[..i + 1][k]| == maxlen;
      }
    }
    assert azResult[..|azResult|] == azResult;
  }

  method PrintLine(out: Sink, azResult: seq<string>, i: nat, nPrintRow: nat, maxlen: nat)
    requires nPrintRow > 0
    modifies out
    ensures out.text == old(out.text) + LineText(azResult, i, nPrintRow, maxlen)
  {
    hide LineText, Padded;
    var j := i;
    while j < |azResult|
      invariant out.text + LineText(azResult, j, nPrintRow, maxlen) == old(out.text) + LineText(azResult, i, nPrintRow, maxlen)
      decreases |azResult| - j
    {
      LineTextUnfold(azResult, j, nPrintRow, maxlen);
      ghost var before := out.text;
      var zSp := if j < nPrintRow then "" else "  ";
      out.Put(zSp + Padded(azResult[j], maxlen));
      Regroup(before, Cell(azResult[j], j, nPrintRow, maxlen), LineText(azResult, j + nPrintRow, nPrintRow, maxlen));
      j := j + nPrintRow;
    }
    LineTextUnfold(azResult, j, nPrintRow, maxlen);
  }

  lemma LineTextUnfold(names: seq<string>, j: nat, rows: nat, maxlen: nat)
    requires rows > 0
    ensures LineText(names, j, rows, maxlen) ==
            if j >= |names| then "" else Cell(names[j], j, rows, maxlen) + LineText(names, j + rows, rows, maxlen)
  {
  }

  lemma RowsNeeded(n: nat, maxlen: nat)
    ensures PrintRows(n, maxlen) > 0 <==> n > 0
  {
    if n > 0 {
      CeilingDivision(n, Columns(maxlen));
    }
  }

  /** The listing of the .tables command. */
  method PrintTables(out: Sink, azResult: seq<string>) returns (maxlen: nat)
    modifies out
    ensures IsMaxLength(azResult, maxlen)
    ensures out.text == old(out.text) + Listing(azResult, 0, PrintRows(|azResult|, maxlen), maxlen)
  {
    hide LineText, IsMaxLength;
    maxlen := MaxLength(azResult);
    if |azResult| > 0 {
      RowsNeeded(|azResult|, maxlen);
      var nPrintCol := 80 / (maxlen + 2);
      if nPrintCol < 1 {
        nPrintCol := 1;
      }
      var nPrintRow := (|azResult| + nPrintCol - 1) / nPrintCol;
      PrintLines(out, azResult, nPrintRow, maxlen);
    } else {
      RowsNeeded(0, maxlen);
    }
  }

  method PrintLines(out: Sink, azResult: seq<string>, nPrintRow: nat, maxlen: nat)
    requires nPrintRow > 0
    modifies out
    ensures out.text == old(out.text) + Listing(azResult, 0, nPrintRow, maxlen)
  {
    hide LineText;
    var i := 0;
    while i < nPrintRow
      invariant i <= nPrintRow
      invariant out.text + Listing(azResult, i, nPrintRow, maxlen) == old(out.text) + Listing(azResult, 0, nPrintRow, maxlen)
    {
      PrintLine(out, azResult, i, nPrintRow, maxlen);
      out.Put("\n");
      i := i + 1;
    }
  }
}
