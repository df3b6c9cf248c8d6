/** The order of printed header lines: that of std::map over strings. */
module HttpOrder {
  import opened CText
  import opened HttpHeader

  /** Strings are compared at the first place where they differ; a proper prefix comes first. */
  ghost predicate Ascending(a: string, b: string) {
    exists n: nat :: FirstDifference(a, b, n) && (if n == |a| then n < |b| else n < |b| && a[n] < b[n])
  }

  predicate FirstDifference(a: string, b: string, n: nat) {
    n <= |a| && n <= |b| && a[..n] == b[..n]
  }

  lemma {:induction false} LessAscends(a: string, b: string)
    requires LexLeq(a, b) && a != b
    ensures Ascending(a, b)
  {
    if a == "" {
      assert FirstDifference(a, b, 0);
    } else if a[0] < b[0] {
      assert FirstDifference(a, b, 0);
    } else {
      assert a == [a[0]] + a[1..] && b == [b[0]] + b[1..];
      LessAscends(a[1..], b[1..]);
      var n: nat :| FirstDifference(a[1..], b[1..], n)
                    && (if n == |a[1..]| then n < |b[1..]| else n < |b[1..]| && a[1..][n] < b[1..][n]);
      assert a[..n + 1] == [a[0]] + a[1..][..n] && b[..n + 1] == [b[0]] + b[1..][..n];
      assert FirstDifference(a, b, n + 1);
    }
  }

  /** The lines of a printed map: every entry once, with ascending keys. */
  lemma {:induction false} HeaderInOrder(arguments: map<string, string>) returns (fields: seq<(string, string)>)
    ensures HeaderText(arguments) == FieldText(fields) && |fields| == |arguments|
    ensures forall i :: 0 <= i < |fields| ==> fields[i].0 in arguments && arguments[fields[i].0] == fields[i].1
    ensures forall i, j :: 0 <= i < j < |fields| ==> Ascending(fields[i].0, fields[j].0)
    decreases |arguments|
  {
    hide HeaderLine, HeaderText, FieldText, LexLeq, Ascending;
    HeaderTextUnfold(arguments);
    if |arguments| == 0 {
      fields := [];
      NoFields();
    } else {
      var k := Least(arguments.Keys);
      var left := arguments - {k};
      var more := HeaderInOrder(left);
      fields := [(k, arguments[k])] + more;
      OneField((k, arguments[k]), more);
      forall j | 0 < j < |fields|
        ensures Ascending(k, fields[j].0)
      {
        assert fields[j] == more[j - 1] && fields[j].0 in left;
        LessAscends(k, fields[j].0);
      }
    }
  }

  lemma NoFields()
    ensures FieldText([]) == ""
  {
  }

  lemma OneField(field: (string, string), more: seq<(string, string)>)
    ensures FieldText([field] + more) == HeaderLine(field.0, field.1) + FieldText(more)
  {
    assert ([field] + more)[1..] == more;
  }
}
