/** The field reader of `.import` over its growing buffer, and the loop that binds one row after
    another. */
module CsvImport {
  import opened CText
  import opened CsvFormat

  /** A bound parameter: None is SQL NULL. */
  type Binding = Option<string>

  /** bind_text with length -1 stops at the first NUL; a null pointer binds NULL. */
  function Bound(z: Option<string>): Binding {
    match z
    case None => None
    case Some(s) => Some(UpToNul(s))
  }

  /** The parameters of a freshly prepared INSERT. */
  function Unbound(nCol: nat): seq<Binding> {
    seq(nCol, _ => None)
  }

  /** Binding `from`.. to NULL. */
  function FilledWithNull(bound: seq<Binding>, from: nat): seq<Binding>
    requires from <= |bound|
  {
    bound[..from] + seq(|bound| - from, _ => None)
  }

  lemma {:induction false} ReadQuotedProgress(r: Reader, acc: string, pc: char, ppc: char, start: int, seps: Separators)
    requires Lookback(acc, pc, ppc)
    ensures var r1 := ReadQuoted(r, acc, pc, ppc, start, seps).1;
            |r1.input| <= |r.input| && (r1.term != Eof ==> |r1.input| < |r.input|)
    decreases |r.input|
  {
    var t := QuotedTurn(r, acc, pc, ppc, start, seps);
    if t.Continue? {
      ReadQuotedProgress(t.r, t.acc, t.pc, t.ppc, start, seps);
    }
  }

  lemma {:induction false} ReadPlainProgress(r: Reader, acc: string, seps: Separators)
    ensures var r1 := ReadPlain(r, acc, seps).1;
            |r1.input| <= |r.input| && (r1.term != Eof ==> |r1.input| < |r.input|)
    decreases |r.input|
  {
    var c := Next(r.input);
    if !EndsPlain(c, seps) {
      ReadPlainProgress(r.(input := After(r.input)), acc + [c.value], seps);
    }
  }

  /** A field that does not end at end of file consumed something. */
  lemma ReadFieldProgress(r: Reader, seps: Separators)
    ensures var r1 := ReadField(r, seps).1;
            |r1.input| <= |r.input| && (r1.term != Eof ==> |r1.input| < |r.input|)
  {
    if r.input != "" {
      if r.input[0] == '"' {
        ReadQuotedProgress(r.(input := r.input[1..]), "", '\0', '\0', r.line, seps);
      } else {
        ReadPlainProgress(r, "", seps);
      }
    }
  }

  /** The column loop from column `i` on: how far the loop variable got, what is bound, and
      the reader. */
  function BindColumns(r: Reader, i: nat, nCol: nat, bound: seq<Binding>, start: int, seps: Separators)
    : (nat, seq<Binding>, Reader)
    requires |bound| == nCol
    decreases nCol - i
  {
    if i >= nCol then (i, bound, r)
    else
      var (z, r1) := ReadField(r, seps);
      if z == None && i == 0 then (i, bound, r1)
      else
        var bound1 := bound[i := Bound(z)];
        if i < nCol - 1 && r1.term != seps.col then
          (nCol + 2, FilledWithNull(bound1, i + 1), r1.(log := r1.log + [MissingColumns(start, nCol, i + 1)]))
        else BindColumns(r1, i + 1, nCol, bound1, start, seps)
  }

  lemma {:induction false} BindColumnsProgress(r: Reader, i: nat, nCol: nat, bound: seq<Binding>, start: int, seps: Separators)
    requires |bound| == nCol
    ensures var (k, b, r1) := BindColumns(r, i, nCol, bound, start, seps);
            && |b| == nCol
            && |r1.input| <= |r.input|
            && (i < nCol && r1.term != Eof ==> |r1.input| < |r.input|)
    decreases nCol - i
  {
    if i < nCol {
      ReadFieldProgress(r, seps);
      var (z, r1) := ReadField(r, seps);
      if !(z == None && i == 0) && !(i < nCol - 1 && r1.term != seps.col) {
        BindColumnsProgress(r1, i + 1, nCol, bound[i := Bound(z)], start, seps);
      }
    }
  }

  /** The loop that reads and drops the fields behind the last column. */
  function SkipExtras(r: Reader, i: nat, seps: Separators): (nat, Reader)
    requires seps.col != Eof
    decreases |r.input|
  {
    var r1 := ReadField(r, seps).1;
    ReadFieldProgress(r, seps);
    if r1.term == seps.col then SkipExtras(r1, i + 1, seps) else (i + 1, r1)
  }

  /** The reader after `k` more fields have been read. */
  function ReadOn(r: Reader, k: nat, seps: Separators): Reader {
    if k == 0 then r else ReadField(ReadOn(r, k - 1, seps), seps).1
  }

  /** With EOF for column separator that loop never ends once the input is used up: the reader stays as it is,
      whatever is read, and its terminator asks for one more field. */
  lemma {:induction false} NeverPastEof(r: Reader, k: nat, seps: Separators)
    requires seps.col == Eof && r.input == "" && r.term == Eof
    ensures ReadOn(r, k, seps) == r && ReadOn(r, k, seps).term == seps.col
  {
    if k > 0 {
      NeverPastEof(r, k - 1, seps);
    }
  }

  lemma {:induction false} EofMeansEmpty(r: Reader, acc: string, pc: char, ppc: char, start: int, seps: Separators)
    requires Lookback(acc, pc, ppc)
    ensures ReadQuoted(r, acc, pc, ppc, start, seps).1.term == Eof ==> ReadQuoted(r, acc, pc, ppc, start, seps).1.input == ""
    ensures ReadPlain(r, acc, seps).1.term == Eof ==> ReadPlain(r, acc, seps).1.input == ""
    decreases |r.input|
  {
    var t := QuotedTurn(r, acc, pc, ppc, start, seps);
    if t.Continue? {
      EofMeansEmpty(t.r, t.acc, t.pc, t.ppc, start, seps);
    }
    PlainEofMeansEmpty(r, acc, seps);
  }

  lemma {:induction false} PlainEofMeansEmpty(r: Reader, acc: string, seps: Separators)
    ensures ReadPlain(r, acc, seps).1.term == Eof ==> ReadPlain(r, acc, seps).1.input == ""
    decreases |r.input|
  {
    var c := Next(r.input);
    if !EndsPlain(c, seps) {
      PlainEofMeansEmpty(r.(input := After(r.input)), acc + [c.value], seps);
    }
  }

  /** A field ends at a separator or at the end of the file. */
  lemma FieldEof(r: Reader, seps: Separators)
    ensures var r1 := ReadField(r, seps).1; r1.term == Eof ==> r1.input == ""
  {
    if r.input != "" && r.input[0] == '"' {
      EofMeansEmpty(r.(input := r.input[1..]), "", '\0', '\0', r.line, seps);
    } else if r.input != "" {
      PlainEofMeansEmpty(r, "", seps);
    }
  }

  lemma {:induction false} BindColumnsEof(r: Reader, i: nat, nCol: nat, bound: seq<Binding>, start: int, seps: Separators)
    requires |bound| == nCol && i < nCol
    ensures var r1 := BindColumns(r, i, nCol, bound, start, seps).2; r1.term == Eof ==> r1.input == ""
    decreases nCol - i
  {
    hide ReadField;
    FieldEof(r, seps);
    var (z, r1) := ReadField(r, seps);
    if !(z == None && i == 0) && !(i < nCol - 1 && r1.term != seps.col) && i + 1 < nCol {
      BindColumnsEof(r1, i + 1, nCol, bound[i := Bound(z)], start, seps);
    }
  }

  /** The row loop, row by row, runs into a loop over extra columns that never ends. */
  ghost predicate RunsForever(r: Reader, nCol: nat, bound: seq<Binding>, seps: Separators)
    requires |bound| == nCol > 0
    decreases |r.input|
  {
    BindColumnsProgress(r, 0, nCol, bound, r.line, seps);
    var (_, b, r1) := BindColumns(r, 0, nCol, bound, r.line, seps);
    if r1.term == seps.col then forall k: nat :: ReadOn(r1, k, seps).term == seps.col
    else r1.term != Eof && RunsForever(r1, nCol, b, seps)
  }

  /** With a column separator that equals EOF, no import ends, whatever is in the file. */
  lemma {:induction false} ImportNeverEnds(r: Reader, nCol: nat, bound: seq<Binding>, seps: Separators)
    requires |bound| == nCol > 0 && seps.col == Eof
    ensures RunsForever(r, nCol, bound, seps)
    decreases |r.input|
  {
    hide BindColumns, ReadOn;
    BindColumnsProgress(r, 0, nCol, bound, r.line, seps);
    BindColumnsEof(r, 0, nCol, bound, r.line, seps);
    var (_, b, r1) := BindColumns(r, 0, nCol, bound, r.line, seps);
    if r1.term == seps.col {
      forall k: nat
        ensures ReadOn(r1, k, seps).term == seps.col
      {
        NeverPastEof(r1, k, seps);
      }
    } else {
      ImportNeverEnds(r1, nCol, b, seps);
    }
  }

  lemma {:induction false} SkipExtrasProgress(r: Reader, i: nat, seps: Separators)
    requires seps.col != Eof
    ensures |SkipExtras(r, i, seps).1.input| <= |r.input|
    decreases |r.input|
  {
    ReadFieldProgress(r, seps);
    var r1 := ReadField(r, seps).1;
    if r1.term == seps.col {
      SkipExtrasProgress(r1, i + 1, seps);
    }
  }

  /** One turn of the row loop: the bound parameters, whether they are inserted, the reader. */
  function ImportRow(r: Reader, nCol: nat, bound: seq<Binding>, seps: Separators): (bool, seq<Binding>, Reader)
    requires |bound| == nCol && seps.col != Eof
  {
    var (i, b, r1) := BindColumns(r, 0, nCol, bound, r.line, seps);
    if r1.term == seps.col then
      var (k, r2) := SkipExtras(r1, i, seps);
      (k >= nCol, b, r2.(log := r2.log + [ExtraColumns(r.line, nCol, k)]))
    else (i >= nCol, b, r1)
  }

  lemma ImportRowProgress(r: Reader, nCol: nat, bound: seq<Binding>, seps: Separators)
    requires |bound| == nCol > 0 && seps.col != Eof
    ensures var (ins, b, r1) := ImportRow(r, nCol, bound, seps);
            |b| == nCol && (r1.term != Eof ==> |r1.input| < |r.input|)
  {
    BindColumnsProgress(r, 0, nCol, bound, r.line, seps);
    var (i, b, r1) := BindColumns(r, 0, nCol, bound, r.line, seps);
    if r1.term == seps.col {
      SkipExtrasProgress(r1, i, seps);
    }
  }

  /** The whole import, after `table` was inserted: the table and the reader at the end. */
  function ImportAll(table: seq<seq<Binding>>, r: Reader, nCol: nat, bound: seq<Binding>, seps: Separators)
    : (seq<seq<Binding>>, Reader)
    requires |bound| == nCol > 0 && seps.col != Eof
    decreases |r.input|
  {
    var (ins, b, r1) := ImportRow(r, nCol, bound, seps);
    ImportRowProgress(r, nCol, bound, seps);
    var table1 := if ins then table + [b] else table;
    if r1.term == Eof then (table1, r1) else ImportAll(table1, r1, nCol, b, seps)
  }

  lemma QuotedTurnIs(r: Reader, acc: string, pc: char, ppc: char, start: int, seps: Separators)
    requires Lookback(acc, pc, ppc)
    ensures var c := Next(r.input);
            var r1 := r.(input := After(r.input), line := NextLine(r.line, c, seps));
            && (EndsQuoted(c, pc, ppc, seps) && !(c == Byte('"') && pc == '"') ==> '"' in acc)
            && QuotedTurn(r, acc, pc, ppc, start, seps) ==
               if c == Byte('"') && pc == '"' then Continue(r1, acc, '\0', ppc)
               else if EndsQuoted(c, pc, ppc, seps) then Break(BeforeLastQuote(acc), r1.(term := c))
               else if c == Eof then Break(acc, Complaining(r1, c, pc, start))
               else Continue(Complaining(r1, c, pc, start), acc + [c.value], c.value, pc)
  {
    hide Complaining, BeforeLastQuote;
  }

  lemma EndsQuotedIs(c: Code, pc: char, ppc: char, seps: Separators)
    ensures EndsQuoted(c, pc, ppc, seps) <==>
            (c == seps.col && pc == '"') || (c == seps.row && pc == '"')
            || (c == seps.row && pc == '\r' && ppc == '"') || (c == Eof && pc == '"')
  {
  }

  lemma ReadPlainUnfold(r: Reader, acc: string, seps: Separators)
    ensures var c := Next(r.input);
            ReadPlain(r, acc, seps) ==
            if c == Eof || c == seps.col || c == seps.row then
              (if c == seps.row then WithoutCr(acc) else acc,
               r.(input := After(r.input), line := NextLine(r.line, c, seps), term := c))
            else ReadPlain(r.(input := After(r.input)), acc + [c.value], seps)
  {
    hide WithoutCr;
  }

  class ImportCtx {
    var input: string
    var z: array?<char>
    var n: nat
    var nAlloc: nat
    var nLine: int
    var cTerm: Code
    var cColSep: Code
    var cRowSep: Code
    var stderr: seq<Diagnostic>

    /** The stored bytes fit the allocation, with room for the final NUL. */
    ghost predicate Valid()
      reads this, z
    {
      && (z == null ==> nAlloc == 0 && n == 0)
      && (z != null ==> z.Length == nAlloc && n < nAlloc)
    }

    ghost function Stored(): string
      reads this, z
      requires Valid()
    {
      if z == null then "" else z[..n]
    }

    ghost function View(): Reader
      reads this
    {
      Reader(input, nLine, cTerm, stderr)
    }

    ghost function Seps(): Separators
      reads this
    {
      Separators(cColSep, cRowSep)
    }

    constructor (file: string, col: Code, row: Code)
      ensures Valid() && z == null
      ensures View() == Reader(file, 1, Eof, []) && Seps() == Separators(col, row)
    {
      input, z, n, nAlloc, nLine, cTerm, stderr := file, null, 0, 0, 1, Eof, [];
      cColSep, cRowSep := col, row;
    }

    method FGetC() returns (c: Code)
      modifies `input
      ensures c == Next(old(input)) && input == After(old(input))
    {
      c := if input == "" then Eof else Byte(input[0]);
      input := if input == "" then "" else input[1..];
    }

    /** import_append_char */
    method AppendChar(c: char)
      requires Valid()
      modifies `n, `nAlloc, `z, z
      ensures Valid() && z != null && (z == old(z) || fresh(z))
      ensures Stored() == old(Stored()) + [c]
    {
      if n + 1 >= nAlloc {
        var grown := new char[nAlloc + nAlloc + 100];
        if z != null {
          forall k | 0 <= k < n {
            grown[k] := z[k];
          }
        }
        nAlloc := nAlloc + nAlloc + 100;
        z := grown;
      }
      z[n] := c;
      n := n + 1;
    }

    /** One turn of the loop of csv_read_one_field behind an opening quote; `last` when it breaks. */
    method OneTurn(pc: char, ppc: char, startLine: int) returns (last: bool, pc1: char, ppc1: char)
      requires Valid() && Lookback(Stored(), pc, ppc)
      modifies this, z
      ensures Valid() && (z == old(z) || fresh(z)) && Seps() == old(Seps())
      ensures old(z) != null ==> z != null
      ensures old(QuotedTurn(View(), Stored(), pc, ppc, startLine, Seps()))
              == if last then Break(Stored(), View()) else Continue(View(), Stored(), pc1, ppc1)
    {
      hide BeforeLastQuote, QuotedTurn, EndsQuoted, Complaining, Lookback;
      ghost var acc, r := Stored(), View();
      QuotedTurnIs(r, acc, pc, ppc, startLine, Seps());
      EndsQuotedIs(Next(input), pc, ppc, Seps());
      var c := FGetC();
      if c == cRowSep {
        nLine := nLine + 1;
      }
      assert Stored() == acc && View() == r.(input := After(r.input), line := NextLine(r.line, c, Seps()));
      if c == Byte('"') {
        if pc == '"' {
          return false, '\0', ppc;
        }
      }
      if (c == cColSep && pc == '"') || (c == cRowSep && pc == '"')
        || (c == cRowSep && pc == '\r' && ppc == '"') || (c == Eof && pc == '"')
      {
        TrimToQuote();
        cTerm := c;
        return true, pc, ppc;
      }
      last := StoreOrStop(c, pc, startLine);
      return last, if last then pc else c.value, if last then ppc else pc;
    }

    /** The rest of a turn that does not end the field at a separator: the diagnostics, and the character
        is stored unless the input is used up. */
    method StoreOrStop(c: Code, pc: char, startLine: int) returns (last: bool)
      requires Valid() && !c.Negative?
      modifies this, z
      ensures Valid() && (z == old(z) || fresh(z)) && Seps() == old(Seps())
      ensures old(z) != null ==> z != null
      ensures last == (c == Eof)
      ensures Stored() == if last then old(Stored()) else old(Stored()) + [c.value]
      ensures View() == old(Complaining(View(), c, pc, startLine))
    {
      if pc == '"' && c != Byte('\r') {
        stderr := stderr + [UnescapedQuote(nLine)];
      }
      if c == Eof {
        stderr := stderr + [UnterminatedField(startLine)];
        cTerm := c;
        return true;
      }
      AppendChar(c.value);
      return false;
    }

    /** csv_read_one_field behind an opening quote. */
    method ReadQuotedField()
      requires Valid() && n == 0
      modifies this, z
      ensures Valid() && (z == old(z) || fresh(z)) && Seps() == old(Seps())
      ensures old(z) != null ==> z != null
      ensures (Stored(), View()) == old(ReadQuoted(View(), "", '\0', '\0', nLine, Seps()))
    {
      var last, pc, ppc := false, '\0', '\0';
      var startLine := nLine;
      ghost var whole := ReadQuoted(View(), Stored(), pc, ppc, startLine, Seps());
      while !last
        invariant Valid() && (z == old(z) || fresh(z)) && Seps() == old(Seps())
        invariant old(z) != null ==> z != null
        invariant last ==> (Stored(), View()) == whole
        invariant !last ==> Lookback(Stored(), pc, ppc)
        invariant !last ==> ReadQuoted(View(), Stored(), pc, ppc, startLine, Seps()) == whole
        decreases !last, |input|
      {
        last, pc, ppc := OneTurn(pc, ppc, startLine);
      }
    }

    /** csv_read_one_field from a first character that is not a quote. */
    method ReadPlainField(first: char)
      requires Valid() && n == 0
      modifies this, z
      ensures Valid() && (z == old(z) || fresh(z)) && Seps() == old(Seps())
      ensures old(z) != null ==> z != null
      ensures (Stored(), View()) == old(ReadPlain(View().(input := [first] + input), "", Seps()))
    {
      hide ReadPlain, WithoutCr;
      ghost var seps := Seps();
      var c := Byte(first);
      ghost var r := View().(input := [first] + input);
      ghost var whole := ReadPlain(r, "", seps);
      while c != Eof && c != cColSep && c != cRowSep
        invariant Valid() && (z == old(z) || fresh(z)) && Seps() == seps
        invariant old(z) != null ==> z != null
        invariant View() == r.(input := After(r.input)) && c == Next(r.input)
        invariant ReadPlain(r, Stored(), seps) == whole
        decreases |r.input|
      {
        ReadPlainUnfold(r, Stored(), seps);
        AppendChar(c.value);
        r := View();
        c := FGetC();
      }
      ReadPlainUnfold(r, Stored(), seps);
      EndPlainField(c);
    }

    /** What the plain branch does behind its loop. */
    method EndPlainField(c: Code)
      requires Valid()
      modifies `n, `nLine, `cTerm
      ensures Valid() && Stored() == old(if c == cRowSep then WithoutCr(Stored()) else Stored())
      ensures View() == old(View().(line := NextLine(nLine, c, Seps()), term := c))
    {
      ghost var acc := Stored();
      if c == cRowSep {
        nLine := nLine + 1;
        if n > 0 && z[n - 1] == '\r' {
          n := n - 1;
          assert Stored() == acc[..|acc| - 1];
        }
      }
      cTerm := c;
    }

    /** csv_read_one_field: the result says whether a non-null pointer is returned. A buffer that was
        never allocated comes back as a null pointer for an empty plain field, which is why `.import`
        appends one byte first. After an interrupt a character is read and dropped. */
    method ReadOneField(seenInterrupt: bool) returns (some: bool)
      requires Valid()
      modifies this, z
      ensures Valid() && (z == old(z) || fresh(z)) && Seps() == old(Seps())
      ensures old(z) != null ==> z != null
      ensures seenInterrupt ==>
                !some && Stored() == "" && View() == old(View().(input := After(input), term := Eof))
      ensures !seenInterrupt ==>
                && View() == old(ReadField(View(), Seps()).1)
                && some == (old(input) != "" && z != null)
                && old(ReadField(View(), Seps()).0) == if old(input) != "" then Some(Stored()) else None
      ensures some ==> z[n] == '\0'
    {
      hide ReadQuoted, ReadPlain;
      n := 0;
      var c := FGetC();
      if c == Eof || seenInterrupt {
        cTerm := Eof;
        return false;
      }
      if c == Byte('"') {
        ReadQuotedField();
      } else {
        assert old(input) == [c.value] + input;
        ReadPlainField(c.value);
      }
      if z != null {
        ghost var stored := Stored();
        z[n] := '\0';
        assert Stored() == stored;
      }
      return z != null;
    }

    /** The do-while of csv_read_one_field that drops the closing quote and all behind it: it stops
        at a quote of the field being read, so it never runs below the start of the buffer. */
    method TrimToQuote()
      requires Valid() && '"' in Stored()
      modifies `n
      ensures Valid() && Stored() == old(BeforeLastQuote(Stored()))
    {
      ghost var acc := Stored();
      ghost var q :| 0 <= q < |acc| && acc[q] == '"';
      n := n - 1;
      while z[n] != '"'
        invariant q <= n < old(n)
        invariant forall k :: n < k < |acc| ==> acc[k] != '"'
        decreases n
      {
        assert acc[n] == z[n];
        n := n - 1;
      }
      assert acc[n] == z[n];
      BeforeLastQuoteIs(acc, n);
      assert z[..n] == acc[..n];
    }

    /** The column loop of `.import` for one row. */
    method BindLoop(nCol: nat, bound: array<Binding>, startLine: int) returns (i: nat)
      requires Valid() && z != null && bound.Length == nCol
      modifies this, z, bound
      ensures Valid() && z != null && (z == old(z) || fresh(z)) && Seps() == old(Seps())
      ensures (i, bound[..], View()) == old(BindColumns(View(), 0, nCol, bound[..], startLine, Seps()))
    {
      hide ReadField, FilledWithNull, UpToNul;
      i := 0;
      ghost var whole := BindColumns(View(), 0, nCol, bound[..], startLine, Seps());
      while i < nCol
        invariant Valid() && z != null && (z == old(z) || fresh(z)) && Seps() == old(Seps())
        invariant BindColumns(View(), i, nCol, bound[..], startLine, Seps()) == whole
        decreases nCol - i
      {
        ghost var r, was := View(), bound[..];
        var some := ReadOneField(false);
        if !some && i == 0 {
          break;
        }
        bound[i] := if some then Some(UpToNul(z[..n])) else None;
        assert bound[..] == was[i := Bound(ReadField(r, Seps()).0)];
        if i < nCol - 1 && cTerm != cColSep {
          stderr := stderr + [MissingColumns(startLine, nCol, i + 1)];
          NullLoop(bound, i + 2);
          i := nCol + 1;
        }
        i := i + 1;
      }
    }

    /** The inner loop that binds the 1-based parameters from `k` on to NULL. */
    static method NullLoop(bound: array<Binding>, k: nat)
      requires 1 <= k <= bound.Length
      modifies bound
      ensures bound[..] == FilledWithNull(old(bound[..]), k - 1)
    {
      var j := k;
      while j <= bound.Length
        invariant k <= j <= bound.Length + 1
        invariant bound[..k - 1] == old(bound[..k - 1])
        invariant forall m :: k - 1 <= m < j - 1 ==> bound[m] == None
      {
        bound[j - 1] := None;
        j := j + 1;
      }
    }

    /** The loop that reads and drops what is left of a row. */
    method SkipLoop(from: nat) returns (i: nat)
      requires Valid() && z != null && cColSep != Eof
      modifies this, z
      ensures Valid() && z != null && (z == old(z) || fresh(z)) && Seps() == old(Seps())
      ensures (i, View()) == old(SkipExtras(View(), from, Seps()))
    {
      ghost var whole := SkipExtras(View(), from, Seps());
      i := from;
      var again := true;
      while again
        invariant Valid() && z != null && (z == old(z) || fresh(z)) && Seps() == old(Seps())
        invariant again ==> SkipExtras(View(), i, Seps()) == whole
        invariant !again ==> (i, View()) == whole
        decreases again, |input|
      {
        ReadFieldProgress(View(), Seps());
        var _ := ReadOneField(false);
        i := i + 1;
        again := cTerm == cColSep;
      }
    }

    /** The row loop of `.import`: the result is what the INSERT statement was stepped with. */
    method Import(nCol: nat) returns (table: seq<seq<Binding>>)
      requires Valid() && z != null && nCol > 0 && cColSep != Eof
      modifies this, z
      ensures Valid() && Seps() == old(Seps())
      ensures (table, View()) == old(ImportAll([], View(), nCol, Unbound(nCol), Seps()))
    {
      hide BindColumns, SkipExtras;
      var bound := new Binding[nCol](_ => None);
      assert bound[..] == Unbound(nCol);
      ghost var whole := ImportAll([], View(), nCol, bound[..], Seps());
      table := [];
      var more := true;
      while more
        invariant Valid() && z != null && (z == old(z) || fresh(z)) && Seps() == old(Seps())
        invariant more ==> ImportAll(table, View(), nCol, bound[..], Seps()) == whole
        invariant !more ==> (table, View()) == whole
        decreases more, |input|
      {
        ImportRowProgress(View(), nCol, bound[..], Seps());
        var startLine := nLine;
        var i := BindLoop(nCol, bound, startLine);
        if cTerm == cColSep {
          i := SkipLoop(i);
          stderr := stderr + [ExtraColumns(startLine, nCol, i)];
        }
        if i >= nCol {
          table := table + [bound[..]];
        }
        more := cTerm != Eof;
      }
    }
  }

  /** `.import` in CSV mode, from the separator settings of the shell to the inserted rows; None when it
      refuses the separators. A table without columns is left alone. `signed` says whether `char` is; then
      a column separator of 255 equals EOF, and the import never ends: see ImportNeverEnds. `rowSep1` is the
      row separator setting afterwards. */
  method ImportFile(file: string, colSep: string, rowSep: string, nCol: nat, signed: bool)
    returns (r: Option<(seq<seq<Binding>>, seq<Diagnostic>)>, rowSep1: string)
    requires |colSep| == 1 && (|rowSep| == 1 || rowSep == "\r\n") && nCol > 0 ==> Converted(colSep[0], signed) != Eof
    ensures r.Some? <==> |colSep| == 1 && (|rowSep| == 1 || rowSep == "\r\n")
    ensures rowSep1 == if |colSep| == 1 && rowSep == "\r\n" then "\n" else rowSep
    ensures r.Some? && nCol == 0 ==> r.value == ([], [])
    ensures r.Some? && nCol > 0 ==>
              var row := if rowSep == "\r\n" then '\n' else rowSep[0];
              var (table, at) := ImportAll([], Reader(file, 1, Eof, []), nCol, Unbound(nCol),
                                           Separators(Converted(colSep[0], signed), Converted(row, signed)));
              r.value == (table, at.log)
  {
    rowSep1 := rowSep;
    if colSep == "" || |colSep| > 1 || rowSep == "" {
      return None, rowSep1;
    }
    if rowSep1 == "\r\n" {
      rowSep1 := "\n";
    }
    if |rowSep1| > 1 {
      return None, rowSep1;
    }
    if nCol == 0 {
      return Some(([], [])), rowSep1;
    }
    var ctx := new ImportCtx(file, Converted(colSep[0], signed), Converted(rowSep1[0], signed));
    ctx.AppendChar('\0');
    var table := ctx.Import(nCol);
    return Some((table, ctx.stderr)), rowSep1;
  }
}
