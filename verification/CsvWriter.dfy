/** The CSV printer of the shell. */
module CsvWriter {
  import opened CText
  import opened CsvFormat

  /** The first loop of output_csv: zero when the field must be quoted, else its length. */
  method QuoteScan(s: string, colSep: string) returns (i: nat)
    ensures i == if MustQuote(s, colSep) then 0 else |s|
  {
    i := 0;
    while i < |s|
      invariant 0 <= i <= |s|
      invariant forall k :: 0 <= k < i ==> !NeedCsvQuote(s[k]) && !HitsSeparator(s, k, colSep)
    {
      if NeedCsvQuote(s[i]) || (colSep != "" && s[i] == colSep[0] && (|colSep| == 1 || colSep <= s)) {
        assert HitsSeparator(s, i, colSep) || NeedCsvQuote(s[i]);
        return 0;
      }
      i := i + 1;
    }
  }

  /** The second loop of output_csv, with the quotes around it. */
  method PutQuoted(out: Sink, s: string)
    modifies out
    ensures out.text == old(out.text) + ("\"" + Doubled(s, '"') + "\"")
  {
    hide Doubled;
    NothingDoubled('"');
    out.Put("\"");
    var i := 0;
    while i < |s|
      invariant 0 <= i <= |s|
      invariant out.text == old(out.text) + ("\"" + Doubled(s[..i], '"'))
    {
      assert s[..i + 1] == s[..i] + [s[i]];
      DoubledAppend(s[..i], s[i], '"');
      if s[i] == '"' {
        out.Put("\"");
      }
      out.Put([s[i]]);
      i := i + 1;
    }
    assert s[..i] == s;
    out.Put("\"");
  }

  /** output_csv; a null field prints `nullValue`. */
  method OutputCsv(out: Sink, z: Option<string>, bSep: bool, colSep: string, nullValue: string)
    requires z.Some? ==> NulFree(z.value)
    modifies out
    ensures out.text == old(out.text)
                        + (if z.None? then nullValue else CsvField(z.value, colSep))
                        + (if bSep then colSep else "")
  {
    match z {
      case None =>
        out.Put(nullValue);
      case Some(s) =>
        var i := QuoteScan(s, colSep);
        if i == 0 {
          PutQuoted(out, s);
        } else {
          out.Put(s);
        }
    }
    if bSep {
      out.Put(colSep);
    }
  }

  /** The names of the header line: a column without name has an empty one. */
  function Names(azCol: seq<Option<string>>): seq<Option<string>> {
    seq(|azCol|, i requires 0 <= i < |azCol| => if azCol[i].None? then Some("") else azCol[i])
  }

  predicate AreCStrings(fields: seq<Option<string>>) {
    forall i :: 0 <= i < |fields| && fields[i].Some? ==> NulFree(fields[i].value)
  }

  /** One record: its fields, and the row separator. */
  method PutRecord(out: Sink, fields: seq<Option<string>>, colSep: string, rowSep: string, nullValue: string)
    requires AreCStrings(fields)
    modifies out
    ensures out.text == old(out.text) + CsvRecord(fields, 0, colSep, rowSep, nullValue)
  {
    hide CsvField, CsvRecord;
    var i := 0;
    while i < |fields|
      invariant 0 <= i <= |fields|
      invariant out.text + CsvRecord(fields, i, colSep, rowSep, nullValue)
                == old(out.text) + CsvRecord(fields, 0, colSep, rowSep, nullValue)
    {
      CsvRecordUnfold(fields, i, colSep, rowSep, nullValue);
      ghost var before := out.text;
      OutputCsv(out, fields[i], i < |fields| - 1, colSep, nullValue);
      RegroupFour(before, if fields[i].None? then nullValue else CsvField(fields[i].value, colSep),
                  if i < |fields| - 1 then colSep else "", CsvRecord(fields, i + 1, colSep, rowSep, nullValue));
      i := i + 1;
    }
    CsvRecordUnfold(fields, i, colSep, rowSep, nullValue);
    out.Put(rowSep);
  }

  lemma CsvRecordUnfold(row: seq<Option<string>>, i: nat, colSep: string, rowSep: string, nullValue: string)
    requires i <= |row|
    ensures CsvRecord(row, i, colSep, rowSep, nullValue) ==
            if i == |row| then rowSep
            else
              (if row[i].None? then nullValue else CsvField(row[i].value, colSep))
              + ((if i < |row| - 1 then colSep else "") + CsvRecord(row, i + 1, colSep, rowSep, nullValue))
  {
    hide CsvField;
    if i < |row| {
      Regroup(if row[i].None? then nullValue else CsvField(row[i].value, colSep),
              if i < |row| - 1 then colSep else "", CsvRecord(row, i + 1, colSep, rowSep, nullValue));
    }
  }

  /** The MODE_Csv branch of shell_callback: in front of the first row the header line, if wanted. `cnt` counts
      the calls. */
  method OutputRow(out: Sink, azCol: seq<Option<string>>, azArg: seq<Option<string>>, cnt: nat, showHeader: bool,
                   colSep: string, rowSep: string, nullValue: string) returns (cnt1: nat)
    requires |azCol| == |azArg| && AreCStrings(azCol) && AreCStrings(azArg)
    modifies out
    ensures cnt1 == cnt + 1
    ensures out.text == old(out.text)
                        + (if cnt == 0 && showHeader then CsvRecord(Names(azCol), 0, colSep, rowSep, nullValue) else "")
                        + (if azArg == [] then "" else CsvRecord(azArg, 0, colSep, rowSep, nullValue))
  {
    hide CsvRecord;
    cnt1 := cnt + 1;
    if cnt == 0 && showHeader {
      PutRecord(out, Names(azCol), colSep, rowSep, nullValue);
    }
    if |azArg| > 0 {
      PutRecord(out, azArg, colSep, rowSep, nullValue);
    }
  }
}
