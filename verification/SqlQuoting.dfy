/** SQL quoting in the shell: three writers, one quoted form, and a reader for it. */
module SqlQuoting {
  import opened CText

  /** The quoted form of a text. */
  function Quoted(s: string, q: char): string {
    [q] + Doubled(s, q) + [q]
  }

  /** Reads a quoted text behind its opening quote, up to its closing quote: the text and what follows. */
  function ScanQuoted(s: string, q: char): Option<(string, string)> {
    if s == "" then None
    else if s[0] != q then Prefixed(s[0], ScanQuoted(s[1..], q))
    else if |s| > 1 && s[1] == q then Prefixed(q, ScanQuoted(s[2..], q))
    else Some(("", s[1..]))
  }

  function Prefixed(c: char, r: Option<(string, string)>): Option<(string, string)> {
    match r
    case None => None
    case Some((text, rest)) => Some(([c] + text, rest))
  }

  /** The quoted form can be read back in front of anything that does not start with the quote. */
  lemma {:induction false} QuotedRoundTrip(s: string, q: char, rest: string)
    requires rest == "" || rest[0] != q
    ensures ScanQuoted(Doubled(s, q) + [q] + rest, q) == Some((s, rest))
  {
    var t := Doubled(s, q) + [q] + rest;
    if s == "" {
      assert t == [q] + rest;
    } else {
      var more := Doubled(s[1..], q) + [q] + rest;
      QuotedRoundTrip(s[1..], q, rest);
      assert [s[0]] + s[1..] == s;
      if s[0] == q {
        assert t == [q, q] + more && t[2..] == more;
      } else {
        assert t == [s[0]] + more && t[1..] == more;
      }
    }
  }

  /** Two quoted forms are equal only for equal texts. */
  lemma QuotedIsInjective(s: string, t: string, q: char)
    ensures Quoted(s, q) == Quoted(t, q) ==> s == t
  {
    if Quoted(s, q) == Quoted(t, q) {
      QuotedRoundTrip(s, q, "");
      QuotedRoundTrip(t, q, "");
      assert Quoted(s, q)[1..] == Doubled(s, q) + [q] + "";
      assert Quoted(t, q)[1..] == Doubled(t, q) + [q] + "";
    }
  }

  lemma {:induction false} DoubledWithout(s: string, q: char)
    requires q !in s
    ensures Doubled(s, q) == s
  {
    if s != "" {
      DoubledWithout(s[1..], q);
    }
  }

  lemma {:induction false} DoubledConcat(s: string, t: string, q: char)
    ensures Doubled(s + t, q) == Doubled(s, q) + Doubled(t, q)
  {
    if s == "" {
      assert s + t == t;
    } else {
      assert (s + t)[1..] == s[1..] + t;
      DoubledConcat(s[1..], t, q);
    }
  }

  /** The quoted form is as long as the text, its quotes counted twice, and two quotes. */
  lemma {:induction false} DoubledLength(s: string, q: char)
    ensures |Doubled(s, q)| == |s| + Count(s, q)
  {
    if s != "" {
      DoubledLength(s[1..], q);
    }
  }

  lemma CountAppend(s: string, c: char, q: char)
    ensures Count(s + [c], q) == Count(s, q) + if c == q then 1 else 0
  {
    CountConcat(s, [c], q);
    assert Count([c][1..], q) == 0;
  }

  // ---------------------------------------------------------------- output_quoted_string

  /** Length of the run in front of the next quote. */
  method RunLength(z: string) returns (i: nat)
    ensures i <= |z| && '\'' !in z[..i] && (i < |z| ==> z[i] == '\'')
  {
    i := 0;
    while i < |z| && z[i] != '\''
      invariant i <= |z| && '\'' !in z[..i]
    {
      assert z[..i + 1] == z[..i] + [z[i]];
      i := i + 1;
    }
  }

  lemma DoubledParts(a: string, b: string)
    requires '\'' !in a && (b == "" || b[0] == '\'')
    ensures Doubled(a + b, '\'') == a + if b == "" then "" else "''" + Doubled(b[1..], '\'')
  {
    hide Doubled;
    DoubledWithout(a, '\'');
    DoubledConcat(a, b, '\'');
    if b == "" {
      NothingDoubled('\'');
    } else {
      DoubledUnfold(b, '\'');
    }
  }

  lemma SplitAt(z: string, i: nat)
    requires i <= |z|
    ensures z[..i] + z[i..] == z
    ensures i < |z| ==> z[i..] != "" && z[i..][0] == z[i] && z[i..][1..] == z[i + 1..]
  {
  }

  lemma DoubledRun(z: string, i: nat)
    requires i <= |z| && '\'' !in z[..i] && (i < |z| ==> z[i] == '\'')
    ensures Doubled(z, '\'') == z[..i] + if i == |z| then "" else "''" + Doubled(z[i + 1..], '\'')
  {
    hide Doubled;
    SplitAt(z, i);
    DoubledParts(z[..i], z[i..]);
  }

  lemma DoubledUnfold(z: string, q: char)
    requires z != ""
    ensures Doubled(z, q) == (if z[0] == q then [q, q] else [z[0]]) + Doubled(z[1..], q)
  {
  }

  /** One turn of the chunk loop of output_quoted_string. */
  method PutRun(out: Sink, z: string) returns (rest: string)
    requires z != ""
    modifies out
    ensures |rest| < |z|
    ensures out.text + Doubled(rest, '\'') == old(out.text) + Doubled(z, '\'')
  {
    hide Doubled;
    var i := RunLength(z);
    DoubledRun(z, i);
    if i == 0 {
      out.Put("''");
      rest := z[1..];
    } else if i < |z| {
      out.Put(z[..i] + "''");
      rest := z[i + 1..];
    } else {
      out.Put(z);
      rest := "";
      NothingDoubled('\'');
    }
  }

  /** output_quoted_string: text without quotes in one piece, other text in runs between its quotes. */
  method OutputQuotedString(out: Sink, z: string)
    requires NulFree(z)
    modifies out
    ensures out.text == old(out.text) + Quoted(z, '\'')
  {
    var nSingle := CountQuotes(z, '\'');
    DoubledLength(z, '\'');
    if nSingle == 0 {
      NoneCounted(z, '\'');
      DoubledWithout(z, '\'');
      out.Put("'" + z + "'");
    } else {
      out.Put("'");
      PutRuns(out, z);
      out.Put("'");
    }
  }

  method PutRuns(out: Sink, z: string)
    modifies out
    ensures out.text == old(out.text) + Doubled(z, '\'')
  {
    var rest := z;
    while rest != ""
      invariant out.text + Doubled(rest, '\'') == old(out.text) + Doubled(z, '\'')
      decreases |rest|
    {
      rest := PutRun(out, rest);
    }
  }

  lemma {:induction false} NoneCounted(s: string, q: char)
    requires Count(s, q) == 0
    ensures q !in s
  {
    if s != "" {
      NoneCounted(s[1..], q);
      assert s == [s[0]] + s[1..];
    }
  }

  method CountQuotes(z: string, q: char) returns (n: nat)
    ensures n == Count(z, q)
  {
    n := 0;
    for i := 0 to |z|
      invariant n == Count(z[..i], q)
    {
      assert z[..i + 1] == z[..i] + [z[i]];
      CountAppend(z[..i], z[i], q);
      if z[i] == q {
        n := n + 1;
      }
    }
    assert z[..|z|] == z;
  }

  // ---------------------------------------------------------------- set_table_name

  predicate IsNameChar(c: char) {
    IsAlnum(c) || c == '_'
  }

  /** A name that can stand in SQL without quotes. */
  predicate IsPlainName(s: string) {
    s != "" && (IsAlpha(s[0]) || s[0] == '_') && forall i :: 0 <= i < |s| ==> IsNameChar(s[i])
  }

  function TableName(s: string): string {
    if IsPlainName(s) then s else Quoted(s, '\'')
  }

  /** The loop that copies a text behind the first `n` bytes of a buffer and doubles its quotes. */
  method CopyDoubled(z: array<char>, n: nat, s: string, q: char) returns (end: nat)
    requires n + |s| + Count(s, q) <= z.Length
    modifies z
    ensures end == n + |Doubled(s, q)| && end <= z.Length
    ensures z[..n] == old(z[..n]) && z[n..end] == Doubled(s, q)
  {
    DoubledLength(s, q);
    end := n;
    for i := 0 to |s|
      invariant end == n + |Doubled(s[..i], q)|
      invariant end + |s[i..]| + Count(s[i..], q) <= z.Length
      invariant z[..n] == old(z[..n]) && z[n..end] == Doubled(s[..i], q)
    {
      hide Doubled;
      assert s[..i + 1] == s[..i] + [s[i]] && s[i..][1..] == s[i + 1..];
      DoubledAppend(s[..i], s[i], q);
      ghost var from, before := end, z[..];
      z[end] := s[i];
      end := end + 1;
      if s[i] == q {
        z[end] := q;
        end := end + 1;
      }
      assert z[n..end] == before[n..from] + (if s[i] == q then [q, q] else [s[i]]);
    }
    assert s[..|s|] == s;
  }

  class ShellState {
    var zDestTable: array?<char>

    constructor ()
      ensures zDestTable == null
    {
      zDestTable := null;
    }

    /** The first pass of set_table_name: whether to quote, and the bytes needed without the NUL. */
    static method MeasureName(zName: string) returns (needQuote: bool, n: nat)
      ensures needQuote == !IsPlainName(zName)
      ensures n == |TableName(zName)|
    {
      needQuote := zName == "" || (!IsAlpha(zName[0]) && zName[0] != '_');
      n := 0;
      for i := 0 to |zName|
        invariant needQuote <==> zName == "" || !(IsAlpha(zName[0]) || zName[0] == '_')
                                 || exists k :: 0 <= k < i && !IsNameChar(zName[k])
        invariant n == i + Count(zName[..i], '\'')
      {
        assert zName[..i + 1] == zName[..i] + [zName[i]];
        CountAppend(zName[..i], zName[i], '\'');
        if !IsAlnum(zName[i]) && zName[i] != '_' {
          needQuote := true;
          if zName[i] == '\'' {
            n := n + 1;
          }
        }
        n := n + 1;
      }
      assert zName[..|zName|] == zName;
      DoubledLength(zName, '\'');
      if needQuote {
        n := n + 2;
      } else {
        DoubledWithout(zName, '\'');
      }
    }

    /** set_table_name: the buffer is allocated for exactly the bytes written. */
    method SetTableName(zName: Option<string>)
      requires zName.Some? ==> NulFree(zName.value)
      modifies this
      ensures zName == None ==> zDestTable == null
      ensures zName.Some? ==> zDestTable != null && fresh(zDestTable) && zDestTable[..] == TableName(zName.value) + "\0"
    {
      hide Doubled, IsPlainName;
      zDestTable := null;
      if zName == None {
        return;
      }
      var s := zName.value;
      var needQuote, size := MeasureName(s);
      DoubledLength(s, '\'');
      if !needQuote {
        PlainHasNoQuote(s);
        DoubledWithout(s, '\'');
      }
      var z := new char[size + 1];
      zDestTable := z;
      var n := 0;
      if needQuote {
        z[n] := '\'';
        n := n + 1;
      }
      ghost var start := z[..n];
      assert start == if needQuote then "'" else "";
      n := CopyDoubled(z, n, s, '\'');
      ghost var body := z[..n];
      assert body == start + Doubled(s, '\'');
      if needQuote {
        z[n] := '\'';
        n := n + 1;
        assert z[..n] == body + "'";
      }
      z[n] := '\0';
      assert z[..] == z[..n] + "\0";
    }
  }

  lemma PlainHasNoQuote(s: string)
    requires IsPlainName(s)
    ensures '\'' !in s
  {
    assert forall i :: 0 <= i < |s| ==> IsNameChar(s[i]);
  }

  /** Different names are different tables. */
  lemma TableNameIsInjective(s: string, t: string)
    ensures TableName(s) == TableName(t) ==> s == t
  {
    hide Doubled;
    QuotedIsInjective(s, t, '\'');
    if IsPlainName(s) && !IsPlainName(t) {
      assert Quoted(t, '\'')[0] == '\'';
    }
    if IsPlainName(t) && !IsPlainName(s) {
      assert Quoted(s, '\'')[0] == '\'';
    }
  }

  // ---------------------------------------------------------------- appendText

  /** What appendText appends; NUL as quote means none. */
  function Appended(zAppend: string, quote: char): string {
    if quote == '\0' then zAppend else Quoted(zAppend, quote)
  }

  /** appendText: the new buffer holds the old text, the new one, and a NUL, and not one byte more. */
  method AppendText(zIn: Option<string>, zAppend: string, quote: char) returns (z: array<char>)
    requires NulFree(zAppend) && (zIn.Some? ==> NulFree(zIn.value))
    ensures fresh(z) && z[..] == (if zIn.Some? then zIn.value else "") + Appended(zAppend, quote) + "\0"
  {
    hide Doubled;
    var before := if zIn.Some? then zIn.value else "";
    var len := |zAppend| + |before| + 1;
    if quote != '\0' {
      len := len + 2;
      var quotes := CountQuotes(zAppend, quote);
      len := len + quotes;
    }
    z := new char[len];
    forall i | 0 <= i < |before| {
      z[i] := before[i];
    }
    assert z[..|before|] == before;
    if quote != '\0' {
      AppendQuoted(z, |before|, zAppend, quote);
    } else {
      forall i | 0 <= i < |zAppend| {
        z[|before| + i] := zAppend[i];
      }
      z[len - 1] := '\0';
      assert z[..] == before + zAppend + "\0";
    }
  }

  /** The branch of appendText with a quote: the write pointer ends exactly at the allocated length. */
  method AppendQuoted(z: array<char>, n: nat, s: string, quote: char)
    requires z.Length == n + |s| + Count(s, quote) + 3
    modifies z
    ensures z[..] == old(z[..n]) + Quoted(s, quote) + "\0"
  {
    hide Doubled;
    DoubledLength(s, quote);
    ghost var before := z[..n];
    var csr := n;
    z[csr] := quote;
    csr := csr + 1;
    ghost var start := z[..csr];
    assert start == before + [quote];
    csr := CopyDoubled(z, csr, s, quote);
    ghost var body := z[..csr];
    assert body == start + Doubled(s, quote);
    z[csr] := quote;
    csr := csr + 1;
    z[csr] := '\0';
    csr := csr + 1;
    assert csr == z.Length;
    assert z[..] == body + [quote] + "\0";
  }
}
