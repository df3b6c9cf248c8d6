/** Text shared by the shell and HTTP models: bytes are `char` values, a C string is the
    text in front of its terminating NUL, and `FILE *` or a sink is an append-only text. */
module CText {

  datatype Option<+T> = None | Some(value: T)

  /** True for the texts a C string can hold. */
  predicate NulFree(s: string) {
    '\0' !in s
  }

  /** True when every character fits the eight bits of a C `char`. */
  predicate IsBytes(s: string) {
    forall i :: 0 <= i < |s| ==> s[i] as int < 256
  }

  /** What a NUL-terminated reader sees of a buffer that holds `s`. */
  function UpToNul(s: string): string {
    if s == "" || s[0] == '\0' then "" else [s[0]] + UpToNul(s[1..])
  }

  lemma {:induction false} UpToNulIsPrefix(s: string, n: nat)
    requires n <= |s| && NulFree(s[..n]) && (n < |s| ==> s[n] == '\0')
    ensures UpToNul(s) == s[..n]
  {
    if n > 0 {
      assert s[1..][..n - 1] == s[..n][1..];
      assert s[0] == s[..n][0];
      UpToNulIsPrefix(s[1..], n - 1);
    }
  }

  lemma Regroup<T>(a: seq<T>, b: seq<T>, c: seq<T>)
    ensures a + b + c == a + (b + c)
  {
  }

  lemma RegroupFour<T>(a: seq<T>, b: seq<T>, c: seq<T>, d: seq<T>)
    ensures a + b + c + d == a + (b + c + d) == a + (b + (c + d))
  {
  }

  predicate StartsWith(s: string, a: char, b: char) {
    |s| > 1 && s[0] == a && s[1] == b
  }

  function WithoutCr(s: string): string {
    if s != "" && s[|s| - 1] == '\r' then s[..|s| - 1] else s
  }

  /** Occurrences of `c` in `s`. */
  function Count(s: string, c: char): nat {
    if s == "" then 0 else (if s[0] == c then 1 else 0) + Count(s[1..], c)
  }

  lemma {:induction false} CountConcat(s: string, t: string, c: char)
    ensures Count(s + t, c) == Count(s, c) + Count(t, c)
  {
    if s == "" {
      assert s + t == t;
    } else {
      assert (s + t)[1..] == s[1..] + t;
      CountConcat(s[1..], t, c);
    }
  }

  /** Index of the first `c`, or the length. */
  function IndexOf(s: string, c: char): (n: nat)
    ensures n <= |s|
    ensures c !in s[..n] && (n < |s| ==> s[n] == c)
  {
    if s == "" || s[0] == c then 0
    else
      assert s[..IndexOf(s[1..], c) + 1] == [s[0]] + s[1..][..IndexOf(s[1..], c)];
      1 + IndexOf(s[1..], c)
  }

  lemma IndexOfUnfold(s: string, c: char)
    ensures IndexOf(s, c) == if s == "" || s[0] == c then 0 else 1 + IndexOf(s[1..], c)
  {
  }

  lemma {:induction false} IndexOfIs(s: string, c: char, n: nat)
    requires n <= |s| && c !in s[..n] && (n < |s| ==> s[n] == c)
    ensures IndexOf(s, c) == n
  {
    if n > 0 {
      assert s[0] in s[..n];
      assert forall x :: x in s[1..][..n - 1] ==> x in s[..n];
      IndexOfIs(s[1..], c, n - 1);
    }
  }

  lemma {:induction false} IndexOfAtMost(s: string, c: char, k: nat)
    requires k < |s| && s[k] == c
    ensures IndexOf(s, c) <= k
  {
    if k > 0 && s[0] != c {
      IndexOfAtMost(s[1..], c, k - 1);
    }
  }

  /** Every `q` of `s` written twice. */
  function Doubled(s: string, q: char): string {
    if s == "" then "" else (if s[0] == q then [q, q] else [s[0]]) + Doubled(s[1..], q)
  }

  lemma NothingDoubled(q: char)
    ensures Doubled("", q) == ""
  {
  }

  lemma {:induction false} DoubledAppend(s: string, c: char, q: char)
    ensures Doubled(s + [c], q) == Doubled(s, q) + (if c == q then [q, q] else [c])
  {
    if s == "" {
      assert s + [c] == [c];
      assert [c][1..] == "";
    } else {
      assert (s + [c])[1..] == s[1..] + [c];
      DoubledAppend(s[1..], c, q);
    }
  }

  /** isspace, isdigit, isalpha, isalnum and isprint of the "C" locale. */
  predicate IsSpace(c: char) {
    c == ' ' || 9 <= c as int <= 13
  }

  predicate IsDigit(c: char) {
    '0' <= c <= '9'
  }

  predicate IsAlpha(c: char) {
    'a' <= c <= 'z' || 'A' <= c <= 'Z'
  }

  predicate IsAlnum(c: char) {
    IsAlpha(c) || IsDigit(c)
  }

  predicate IsPrint(c: char) {
    ' ' <= c <= '~'
  }

  /** An output stream: everything written so far. */
  class Sink {
    var text: string

    constructor ()
      ensures text == ""
    {
      text := "";
    }

    method Put(s: string)
      modifies this
      ensures text == old(text) + s
    {
      text := text + s;
    }
  }
}
