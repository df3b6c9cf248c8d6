/** The CSV writer of the shell and the field reader of `.import`, as functions:
    what a table looks like as bytes, and what the reader makes of any bytes. */
module CsvFormat {
  import opened CText

  // ---------------------------------------------------------------- writer

  /** The table needCsvQuote: control characters, space, both quotes, DEL and all bytes above. */
  predicate NeedCsvQuote(c: char) {
    c <= ' ' || c == '"' || c == '\'' || c as int >= 127
  }

  /** The separator test of output_csv: a separator of several bytes is compared with the start
      of the field, whatever the position. */
  predicate HitsSeparator(z: string, i: nat, colSep: string)
    requires i < |z|
  {
    colSep != "" && z[i] == colSep[0] && (|colSep| == 1 || colSep <= z)
  }

  predicate MustQuote(z: string, colSep: string) {
    z == "" || exists i :: 0 <= i < |z| && (NeedCsvQuote(z[i]) || HitsSeparator(z, i, colSep))
  }

  function CsvField(z: string, colSep: string): string {
    if MustQuote(z, colSep) then "\"" + Doubled(z, '"') + "\"" else z
  }

  /** The fields of one row from column `i` on, and the row separator. */
  function CsvRow(row: seq<string>, i: nat, colSep: string, rowSep: string): string
    requires i <= |row|
    decreases |row| - i
  {
    if i == |row| then rowSep
    else CsvField(row[i], colSep) + (if i < |row| - 1 then colSep else "") + CsvRow(row, i + 1, colSep, rowSep)
  }

  /** The fields of a row none of which is NULL. */
  function Texts(row: seq<string>): seq<Option<string>> {
    seq(|row|, i requires 0 <= i < |row| => Some(row[i]))
  }

  /** A row with NULL fields, which print as `nullValue`. */
  function CsvRecord(row: seq<Option<string>>, i: nat, colSep: string, rowSep: string, nullValue: string): string
    requires i <= |row|
    decreases |row| - i
  {
    if i == |row| then rowSep
    else
      (if row[i].None? then nullValue else CsvField(row[i].value, colSep))
      + (if i < |row| - 1 then colSep else "") + CsvRecord(row, i + 1, colSep, rowSep, nullValue)
  }

  lemma {:induction false} CsvRecordOfTexts(row: seq<string>, i: nat, colSep: string, rowSep: string, nullValue: string)
    requires i <= |row|
    ensures CsvRecord(Texts(row), i, colSep, rowSep, nullValue) == CsvRow(row, i, colSep, rowSep)
    decreases |row| - i
  {
    hide CsvField;
    if i < |row| {
      CsvRecordOfTexts(row, i + 1, colSep, rowSep, nullValue);
    }
  }

  function CsvTable(rows: seq<seq<string>>, colSep: string, rowSep: string): string {
    if rows == [] then "" else CsvRow(rows[0], 0, colSep, rowSep) + CsvTable(rows[1..], colSep, rowSep)
  }

  // ---------------------------------------------------------------- reader

  datatype Diagnostic =
    | UnescapedQuote(line: int)
    | UnterminatedField(line: int)
    | MissingColumns(line: int, expected: nat, found: nat)
    | ExtraColumns(line: int, expected: nat, found: nat)

  /** The values of the C ints that the reader compares: what fgetc returns, and what a separator of type
      `char` becomes, which is negative from 128 up where `char` is signed. */
  datatype Code = Eof | Byte(value: char) | Negative(code: int)

  /** A `char` as an int. EOF is -1, and so is the byte 255 where `char` is signed. */
  function Converted(b: char, signed: bool): Code {
    if signed && b as int >= 128 then (if b as int == 255 then Eof else Negative(b as int - 256)) else Byte(b)
  }

  /** The separators of an import, after `.import` reduced "\r\n" to "\n". */
  datatype Separators = Separators(col: Code, row: Code)

  /** What the reader can see and change besides its buffer. */
  datatype Reader = Reader(input: string, line: int, term: Code, log: seq<Diagnostic>)

  /** fgetc */
  function Next(input: string): (c: Code)
    ensures !c.Negative?
  {
    if input == "" then Eof else Byte(input[0])
  }

  function After(input: string): string {
    if input == "" then "" else input[1..]
  }

  function NextLine(line: int, c: Code, seps: Separators): int {
    if c == seps.row then line + 1 else line
  }

  /** The four ways in which a quoted field ends. */
  predicate EndsQuoted(c: Code, pc: char, ppc: char, seps: Separators) {
    || (c == seps.col && pc == '"')
    || (c == seps.row && pc == '"')
    || (c == seps.row && pc == '\r' && ppc == '"')
    || (c == Eof && pc == '"')
  }

  /** How the two remembered characters relate to the stored text: a remembered quote is the last
      stored character, and a quote remembered behind a CR is the last but one. */
  predicate Lookback(acc: string, pc: char, ppc: char) {
    && (pc == '"' ==> |acc| >= 1 && acc[|acc| - 1] == '"')
    && (pc == '\r' && ppc == '"' ==> |acc| >= 2 && acc[|acc| - 1] == '\r' && acc[|acc| - 2] == '"')
  }

  /** The text in front of the last quote. */
  function BeforeLastQuote(acc: string): (r: string)
    requires '"' in acc
    ensures |r| < |acc| && r + "\"" <= acc
    ensures '"' !in acc[|r| + 1..]
  {
    if acc[|acc| - 1] == '"' then acc[..|acc| - 1]
    else
      assert acc == acc[..|acc| - 1] + [acc[|acc| - 1]];
      BeforeLastQuote(acc[..|acc| - 1])
  }

  lemma {:induction false} BeforeLastQuoteIs(acc: string, n: nat)
    requires n < |acc| && acc[n] == '"'
    requires forall k :: n < k < |acc| ==> acc[k] != '"'
    ensures '"' in acc && BeforeLastQuote(acc) == acc[..n]
  {
    if n < |acc| - 1 {
      BeforeLastQuoteIs(acc[..|acc| - 1], n);
      assert acc[..|acc| - 1][..n] == acc[..n];
    }
  }

  /** The diagnostics of a turn that does not end the field at a separator. */
  function Complaining(r: Reader, c: Code, pc: char, start: int): Reader {
    var log := if pc == '"' && c != Byte('\r') then r.log + [UnescapedQuote(r.line)] else r.log;
    if c == Eof then r.(term := Eof, log := log + [UnterminatedField(start)]) else r.(log := log)
  }

  /** The loop behind an opening quote either breaks with the field or goes round again. */
  datatype Turn =
    | Break(text: string, r: Reader)
    | Continue(r: Reader, acc: string, pc: char, ppc: char)

  function QuotedTurn(r: Reader, acc: string, pc: char, ppc: char, start: int, seps: Separators): (t: Turn)
    requires Lookback(acc, pc, ppc)
    ensures t.Continue? ==> Lookback(t.acc, t.pc, t.ppc) && |t.r.input| < |r.input|
  {
    var c := Next(r.input);
    var r1 := r.(input := After(r.input), line := NextLine(r.line, c, seps));
    if c == Byte('"') && pc == '"' then Continue(r1, acc, '\0', ppc)
    else if EndsQuoted(c, pc, ppc, seps) then Break(BeforeLastQuote(acc), r1.(term := c))
    else
      var r2 := Complaining(r1, c, pc, start);
      if c == Eof then Break(acc, r2) else Continue(r2, acc + [c.value], c.value, pc)
  }

  function ReadQuoted(r: Reader, acc: string, pc: char, ppc: char, start: int, seps: Separators): (string, Reader)
    requires Lookback(acc, pc, ppc)
    decreases |r.input|
  {
    match QuotedTurn(r, acc, pc, ppc, start, seps)
    case Break(text, r1) => (text, r1)
    case Continue(r1, acc1, pc1, ppc1) => ReadQuoted(r1, acc1, pc1, ppc1, start, seps)
  }

  predicate EndsPlain(c: Code, seps: Separators) {
    c == Eof || c == seps.col || c == seps.row
  }

  function ReadPlain(r: Reader, acc: string, seps: Separators): (string, Reader)
    decreases |r.input|
  {
    var c := Next(r.input);
    if EndsPlain(c, seps) then
      (if c == seps.row then WithoutCr(acc) else acc,
       r.(input := After(r.input), line := NextLine(r.line, c, seps), term := c))
    else ReadPlain(r.(input := After(r.input)), acc + [c.value], seps)
  }

  /** csv_read_one_field; None is its null pointer. */
  function ReadField(r: Reader, seps: Separators): (Option<string>, Reader) {
    if r.input == "" then (None, r.(term := Eof))
    else if r.input[0] == '"' then
      var (text, r1) := ReadQuoted(r.(input := r.input[1..]), "", '\0', '\0', r.line, seps);
      (Some(text), r1)
    else
      var (text, r1) := ReadPlain(r, "", seps);
      (Some(text), r1)
  }
}
