/** Two recognisers of the shell that walk over NUL-terminated text: numbers, and lines without SQL. */
module Recognisers {
  import opened CText

  /** A buffer whose only NUL is its last byte: reading behind the NUL would be reading out of bounds. */
  predicate IsCString(z: seq<char>) {
    z != [] && z[|z| - 1] == '\0' && NulFree(z[..|z| - 1])
  }

  function Content(z: seq<char>): string
    requires IsCString(z)
  {
    z[..|z| - 1]
  }

  /** The text from index `p` on. */
  function From(z: seq<char>, p: nat): string
    requires IsCString(z) && p < |z|
  {
    Content(z)[p..]
  }

  lemma AtNul(z: seq<char>, p: nat)
    requires IsCString(z) && p < |z|
    ensures z[p] == '\0' <==> p == |z| - 1
    ensures From(z, p) == "" <==> p == |z| - 1
    ensures p < |z| - 1 ==> From(z, p) == [z[p]] + From(z, p + 1)
    ensures p < |z| - 1 ==> From(z, p)[0] == z[p] && From(z, p)[1..] == From(z, p + 1)
  {
    if p < |z| - 1 {
      assert z[p] in Content(z);
    }
  }

  // ---------------------------------------------------------------- isNumber

  predicate IsSign(s: string) {
    s == "" || s == "+" || s == "-"
  }

  predicate IsDigits(s: string) {
    s != "" && forall i :: 0 <= i < |s| ==> IsDigit(s[i])
  }

  predicate IsFraction(s: string) {
    s == "" || (s[0] == '.' && IsDigits(s[1..]))
  }

  predicate IsExponent(s: string) {
    s == "" || ((s[0] == 'e' || s[0] == 'E')
                && (IsDigits(s[1..]) || (|s| > 1 && IsSign([s[1]]) && IsDigits(s[2..]))))
  }

  /** sign? digits fraction? exponent? */
  predicate IsNumeral(sign: string, digits: string, fraction: string, exponent: string) {
    IsSign(sign) && IsDigits(digits) && IsFraction(fraction) && IsExponent(exponent)
  }

  function SkipSign(s: string): string {
    if s != "" && (s[0] == '-' || s[0] == '+') then s[1..] else s
  }

  function DigitRun(s: string): (n: nat)
    ensures n <= |s|
  {
    if s == "" || !IsDigit(s[0]) then 0 else 1 + DigitRun(s[1..])
  }

  function SkipDigits(s: string): Option<string> {
    if DigitRun(s) == 0 then None else Some(s[DigitRun(s)..])
  }

  function SkipFraction(s: string): Option<string> {
    if s == "" || s[0] != '.' then Some(s) else SkipDigits(s[1..])
  }

  function SkipExponent(s: string): Option<string> {
    if s == "" || (s[0] != 'e' && s[0] != 'E') then Some(s) else SkipDigits(SkipSign(s[1..]))
  }

  /** None for text that is no number, else whether it has a fraction or an exponent. */
  function Recognise(s: string): Option<bool> {
    match SkipDigits(SkipSign(s))
    case None => None
    case Some(t) =>
      match SkipFraction(t)
      case None => None
      case Some(u) =>
        match SkipExponent(u)
        case None => None
        case Some(v) => if v == "" then Some(t != u || u != v) else None
  }

  lemma {:induction false} DigitRunOf(digits: string, rest: string)
    requires (forall i :: 0 <= i < |digits| ==> IsDigit(digits[i])) && (rest == "" || !IsDigit(rest[0]))
    ensures DigitRun(digits + rest) == |digits|
  {
    if digits == "" {
      assert digits + rest == rest;
    } else {
      assert (digits + rest)[1..] == digits[1..] + rest;
      DigitRunOf(digits[1..], rest);
    }
  }

  lemma SkipDigitsOf(digits: string, rest: string)
    requires IsDigits(digits) && (rest == "" || !IsDigit(rest[0]))
    ensures SkipDigits(digits + rest) == Some(rest)
  {
    hide DigitRun;
    DigitRunOf(digits, rest);
    assert (digits + rest)[|digits|..] == rest;
  }

  lemma {:induction false} DigitRunSplits(s: string)
    ensures forall i :: 0 <= i < DigitRun(s) ==> IsDigit(s[i])
  {
    if s != "" && IsDigit(s[0]) {
      DigitRunSplits(s[1..]);
      assert forall i :: 1 <= i < DigitRun(s) ==> s[i] == s[1..][i - 1];
    }
  }

  /** Text in front of what SkipDigits leaves. */
  lemma SkippedDigits(s: string) returns (digits: string)
    requires SkipDigits(s).Some?
    ensures IsDigits(digits) && s == digits + SkipDigits(s).value
  {
    DigitRunSplits(s);
    digits := s[..DigitRun(s)];
  }

  /** Every numeral is recognised, and its kind told. */
  lemma NumeralIsRecognised(sign: string, digits: string, fraction: string, exponent: string)
    requires IsNumeral(sign, digits, fraction, exponent)
    ensures Recognise(sign + digits + fraction + exponent) == Some(fraction != "" || exponent != "")
  {
    hide SkipDigits;
    var s := sign + digits + fraction + exponent;
    var t := fraction + exponent;
    SkipSignOf(sign, digits, t);
    assert s == sign + digits + t;
    SkipDigitsOf(digits, t);
    SkipFractionOf(fraction, exponent);
    SkipExponentOf(exponent);
  }

  lemma SkipSignOf(sign: string, digits: string, t: string)
    requires IsSign(sign) && IsDigits(digits)
    ensures SkipSign(sign + digits + t) == digits + t
  {
    assert (digits + t)[0] == digits[0];
    if sign == "" {
      assert sign + digits + t == digits + t;
    } else {
      assert (sign + digits + t)[1..] == digits + t;
    }
  }

  lemma SkipFractionOf(fraction: string, exponent: string)
    requires IsFraction(fraction) && IsExponent(exponent)
    ensures SkipFraction(fraction + exponent) == Some(exponent)
  {
    hide SkipDigits;
    if fraction == "" {
      assert fraction + exponent == exponent;
    } else {
      assert (fraction + exponent)[1..] == fraction[1..] + exponent;
      SkipDigitsOf(fraction[1..], exponent);
    }
  }

  lemma SkipExponentOf(exponent: string)
    requires IsExponent(exponent)
    ensures SkipExponent(exponent) == Some("")
  {
    hide SkipDigits;
    if exponent != "" {
      var t := exponent[1..];
      if IsDigits(t) {
        assert t + "" == t;
        SkipDigitsOf(t, "");
      } else {
        assert t[1..] == exponent[2..] && exponent[2..] + "" == exponent[2..];
        SkipDigitsOf(exponent[2..], "");
      }
    }
  }

  /** Everything recognised is a numeral. */
  lemma RecognisedIsNumeral(s: string) returns (sign: string, digits: string, fraction: string, exponent: string)
    requires Recognise(s).Some?
    ensures IsNumeral(sign, digits, fraction, exponent) && s == sign + digits + fraction + exponent
    ensures Recognise(s).value == (fraction != "" || exponent != "")
  {
    hide SkipDigits, SkipSign, SkipFraction, SkipExponent, IsNumeral;
    sign := SkippedSign(s);
    digits := SkippedDigits(SkipSign(s));
    var t := SkipDigits(SkipSign(s)).value;
    fraction := SkippedFraction(t);
    var u := SkipFraction(t).value;
    exponent := SkippedExponent(u);
    assert exponent + "" == exponent;
    RegroupFour(sign, digits, fraction, exponent);
    MakeNumeral(sign, digits, fraction, exponent);
    NumeralIsRecognised(sign, digits, fraction, exponent);
  }

  lemma MakeNumeral(sign: string, digits: string, fraction: string, exponent: string)
    requires IsSign(sign) && IsDigits(digits) && IsFraction(fraction) && IsExponent(exponent)
    ensures IsNumeral(sign, digits, fraction, exponent)
  {
  }

  lemma SkippedSign(s: string) returns (sign: string)
    ensures IsSign(sign) && s == sign + SkipSign(s)
  {
    if s != "" && (s[0] == '-' || s[0] == '+') {
      sign := [s[0]];
    } else {
      sign := "";
    }
  }

  lemma SkippedFraction(t: string) returns (fraction: string)
    requires SkipFraction(t).Some?
    ensures IsFraction(fraction) && t == fraction + SkipFraction(t).value
  {
    if t == "" || t[0] != '.' {
      fraction := "";
    } else {
      var d := SkippedDigits(t[1..]);
      fraction := "." + d;
      assert fraction[1..] == d;
    }
  }

  lemma SkippedExponent(u: string) returns (exponent: string)
    requires SkipExponent(u).Some?
    ensures IsExponent(exponent) && u == exponent + SkipExponent(u).value
  {
    if u == "" || (u[0] != 'e' && u[0] != 'E') {
      exponent := "";
    } else {
      hide SkipDigits, SkipSign, IsExponent, IsDigits;
      var e, t := [u[0]], u[1..];
      assert u == e + t;
      var sign := SkippedSign(t);
      var d := SkippedDigits(SkipSign(t));
      exponent := e + sign + d;
      SignedDigitsAreExponent(u[0], sign, d);
      RegroupFour(e, sign, d, SkipExponent(u).value);
    }
  }

  lemma SignedDigitsAreExponent(e: char, sign: string, digits: string)
    requires (e == 'e' || e == 'E') && IsSign(sign) && IsDigits(digits)
    ensures IsExponent([e] + sign + digits)
  {
    var s := [e] + sign + digits;
    if sign == "" {
      assert s[1..] == digits;
    } else {
      assert s[2..] == digits && [s[1]] == sign;
    }
  }

  /** isNumber accepts exactly the numerals. */
  lemma NumbersAreNumerals(s: string)
    ensures Recognise(s).Some? <==>
            exists sign, digits, fraction, exponent ::
              IsNumeral(sign, digits, fraction, exponent) && s == sign + digits + fraction + exponent
  {
    if Recognise(s).Some? {
      var sign, digits, fraction, exponent := RecognisedIsNumeral(s);
      assert IsNumeral(sign, digits, fraction, exponent);
    }
    forall sign, digits, fraction, exponent |
      IsNumeral(sign, digits, fraction, exponent) && s == sign + digits + fraction + exponent
      ensures Recognise(s).Some?
    {
      NumeralIsRecognised(sign, digits, fraction, exponent);
    }
  }

  method PassDigits(z: seq<char>, p: nat) returns (q: nat)
    requires IsCString(z) && p < |z|
    ensures p <= q < |z| && q - p == DigitRun(From(z, p))
    ensures From(z, q) == From(z, p)[q - p..]
  {
    q := p;
    AtNul(z, q);
    while IsDigit(z[q])
      invariant p <= q < |z|
      invariant DigitRun(From(z, p)) == q - p + DigitRun(From(z, q))
      invariant z[q] == '\0' <==> q == |z| - 1
      decreases |z| - q
    {
      AtNul(z, q);
      q := q + 1;
      AtNul(z, q);
    }
    AtNul(z, q);
  }

  /** The fraction branch of isNumber. */
  method PassFraction(z: seq<char>, p: nat) returns (ok: bool, q: nat, seen: bool)
    requires IsCString(z) && p < |z|
    ensures q < |z| && ok == SkipFraction(From(z, p)).Some?
    ensures ok ==> SkipFraction(From(z, p)) == Some(From(z, q)) && seen == (From(z, q) != From(z, p))
  {
    hide DigitRun;
    AtNul(z, p);
    q, seen := p, false;
    if z[p] == '.' {
      AtNul(z, p + 1);
      q := PassDigits(z, p + 1);
      if q == p + 1 {
        return false, q, false;
      }
      seen := true;
    }
    ok := true;
  }

  /** The exponent branch of isNumber. */
  method PassExponent(z: seq<char>, p: nat) returns (ok: bool, q: nat, seen: bool)
    requires IsCString(z) && p < |z|
    ensures q < |z| && ok == SkipExponent(From(z, p)).Some?
    ensures ok ==> SkipExponent(From(z, p)) == Some(From(z, q)) && seen == (From(z, q) != From(z, p))
  {
    hide DigitRun;
    AtNul(z, p);
    q, seen := p, false;
    if z[p] == 'e' || z[p] == 'E' {
      var d := PassSign(z, p + 1);
      q := PassDigits(z, d);
      if q == d {
        return false, q, false;
      }
      seen := true;
      assert |From(z, q)| < |From(z, p)|;
    }
    ok := true;
  }

  method PassSign(z: seq<char>, p: nat) returns (q: nat)
    requires IsCString(z) && p < |z|
    ensures p <= q < |z| && From(z, q) == SkipSign(From(z, p))
  {
    AtNul(z, p);
    q := p;
    if z[p] == '-' || z[p] == '+' {
      q := p + 1;
    }
  }

  /** isNumber on the NUL-terminated `z`; `realnum` is the out-parameter, left alone when there is none. */
  method IsNumber(z: seq<char>, hasOut: bool, realnum0: int) returns (ok: bool, realnum: int)
    requires IsCString(z)
    ensures ok == Recognise(Content(z)).Some?
    ensures !hasOut ==> realnum == realnum0
    ensures ok && hasOut ==> realnum == if Recognise(Content(z)).value then 1 else 0
  {
    hide DigitRun, IsCString, SkipSign, SkipFraction, SkipExponent, From;
    realnum := realnum0;
    CStringStart(z);
    var p := PassSign(z, 0);
    var q := PassDigits(z, p);
    if q == p {
      return false, realnum;
    }
    if hasOut {
      realnum := 0;
    }
    var seen;
    ok, p, seen := PassFraction(z, q);
    if !ok {
      return false, realnum;
    }
    if seen && hasOut {
      realnum := 1;
    }
    ok, q, seen := PassExponent(z, p);
    if !ok {
      return false, realnum;
    }
    if seen && hasOut {
      realnum := 1;
    }
    AtNul(z, q);
    ok := z[q] == '\0';
  }

  lemma CStringStart(z: seq<char>)
    requires IsCString(z)
    ensures 0 < |z| && From(z, 0) == Content(z)
  {
  }

  // ---------------------------------------------------------------- _all_whitespace

  /** Bytes in front of the end of a block comment, or all of them. */
  function BlockLength(s: string): (n: nat)
    ensures n <= |s|
    ensures n < |s| ==> StartsWith(s[n..], '*', '/')
  {
    if s == "" || StartsWith(s, '*', '/') then 0 else 1 + BlockLength(s[1..])
  }

  /** One turn of the outer loop: it returns, or goes on behind a space or a comment. */
  datatype Step = Stop(white: bool) | Go(rest: string)

  function NextStep(s: string): (r: Step)
    requires s != ""
    ensures r.Go? ==> |r.rest| < |s|
  {
    if IsSpace(s[0]) then Go(s[1..])
    else if StartsWith(s, '/', '*') then
      var t := s[2..];
      if BlockLength(t) == |t| then Stop(false) else Go(t[BlockLength(t) + 2..])
    else if StartsWith(s, '-', '-') then
      var t := s[2..];
      if IndexOf(t, '\n') == |t| then Stop(true) else Go(t[IndexOf(t, '\n') + 1..])
    else Stop(false)
  }

  predicate AllWhite(s: string)
    decreases |s|
  {
    s == "" ||
    match NextStep(s)
    case Stop(white) => white
    case Go(rest) => AllWhite(rest)
  }

  /** What a line without SQL is made of. */
  datatype Piece = Blank(c: char) | Block(body: string) | LineComment(body: string)

  /** The end of a block comment is the first one behind its start. */
  predicate IsPiece(p: Piece) {
    match p
    case Blank(c) => IsSpace(c)
    case Block(body) => forall i :: 0 <= i < |body| ==> !StartsWith((body + "*/")[i..], '*', '/')
    case LineComment(body) => '\n' !in body
  }

  function Print(p: Piece): string {
    match p
    case Blank(c) => [c]
    case Block(body) => "/*" + body + "*/"
    case LineComment(body) => "--" + body + "\n"
  }

  function PrintAll(ps: seq<Piece>): string {
    if ps == [] then "" else Print(ps[0]) + PrintAll(ps[1..])
  }

  predicate ArePieces(ps: seq<Piece>) {
    forall i :: 0 <= i < |ps| ==> IsPiece(ps[i])
  }

  /** A line comment may end with the line. */
  predicate IsTail(tail: string) {
    tail == "" || (StartsWith(tail, '-', '-') && '\n' !in tail[2..])
  }

  lemma {:induction false} BlockLengthIs(body: string, rest: string)
    requires forall i :: 0 <= i < |body| ==> !StartsWith((body + "*/")[i..], '*', '/')
    ensures BlockLength(body + "*/" + rest) == |body|
  {
    var s := body + "*/" + rest;
    if body == "" {
      assert s == "*/" + rest;
    } else {
      assert s[1..] == body[1..] + "*/" + rest;
      assert !StartsWith((body + "*/")[0..], '*', '/');
      assert (body + "*/")[0] == s[0] && (body + "*/")[1] == s[1];
      forall i | 0 <= i < |body[1..]|
        ensures !StartsWith((body[1..] + "*/")[i..], '*', '/')
      {
        assert (body[1..] + "*/")[i..] == (body + "*/")[i + 1..];
      }
      BlockLengthIs(body[1..], rest);
    }
  }

  lemma StepOverBlock(body: string, rest: string)
    requires IsPiece(Block(body))
    ensures NextStep("/*" + body + "*/" + rest) == Go(rest)
  {
    hide BlockLength;
    var s := "/*" + body + "*/" + rest;
    assert s[2..] == body + "*/" + rest;
    BlockLengthIs(body, rest);
    assert s[2..][|body| + 2..] == rest;
  }

  lemma StepOverLine(body: string, rest: string)
    requires IsPiece(LineComment(body))
    ensures NextStep("--" + body + "\n" + rest) == Go(rest)
  {
    hide BlockLength, IndexOf;
    var s := "--" + body + "\n" + rest;
    assert s[2..] == body + "\n" + rest;
    assert s[2..][..|body|] == body;
    IndexOfIs(s[2..], '\n', |body|);
    assert s[2..][|body| + 1..] == rest;
  }

  lemma StepOverPiece(p: Piece, rest: string)
    requires IsPiece(p)
    ensures Print(p) + rest != "" && NextStep(Print(p) + rest) == Go(rest)
  {
    hide NextStep;
    match p
    case Blank(c) => StepOverBlank(c, rest);
    case Block(body) => StepOverBlock(body, rest);
    case LineComment(body) => StepOverLine(body, rest);
  }

  lemma StepOverBlank(c: char, rest: string)
    requires IsSpace(c)
    ensures NextStep([c] + rest) == Go(rest)
  {
    assert ([c] + rest)[1..] == rest;
  }

  lemma TailIsWhite(tail: string)
    requires IsTail(tail)
    ensures AllWhite(tail)
  {
    if tail != "" {
      hide IndexOf, BlockLength;
      assert tail[2..][..|tail| - 2] == tail[2..];
      IndexOfIs(tail[2..], '\n', |tail| - 2);
    }
  }

  lemma WhiteUnfold(s: string)
    ensures AllWhite(s) <==> s == "" || (match NextStep(s) case Stop(white) => white case Go(rest) => AllWhite(rest))
  {
  }

  lemma {:induction false} PiecesAreWhite(ps: seq<Piece>, tail: string)
    requires ArePieces(ps) && IsTail(tail)
    ensures AllWhite(PrintAll(ps) + tail)
  {
    hide AllWhite;
    if ps == [] {
      assert "" + tail == tail;
      TailIsWhite(tail);
    } else {
      PiecesAreWhite(ps[1..], tail);
      var more := PrintAll(ps[1..]) + tail;
      StepOverPiece(ps[0], more);
      assert PrintAll(ps) + tail == Print(ps[0]) + more;
      WhiteUnfold(Print(ps[0]) + more);
    }
  }

  lemma {:induction false} BlockLengthSplits(t: string)
    requires BlockLength(t) < |t|
    ensures var n := BlockLength(t); n + 2 <= |t| && IsPiece(Block(t[..n])) && t == t[..n] + "*/" + t[n + 2..]
  {
    var n := BlockLength(t);
    assert t[n..][0] == t[n] && t[n..][1] == t[n + 1];
    forall i | 0 <= i < n
      ensures !StartsWith((t[..n] + "*/")[i..], '*', '/')
    {
      BlockNotBefore(t, i);
      assert (t[..n] + "*/")[i] == t[i] && (t[..n] + "*/")[i + 1] == t[i + 1];
    }
  }

  lemma {:induction false} BlockNotBefore(t: string, i: nat)
    requires i < BlockLength(t)
    ensures !StartsWith(t[i..], '*', '/')
  {
    if i > 0 {
      BlockNotBefore(t[1..], i - 1);
      assert t[1..][i - 1..] == t[i..];
    } else {
      assert t[0..] == t;
    }
  }

  /** What the next piece of a white text is. */
  lemma NextPiece(s: string) returns (p: Piece)
    requires s != "" && !(NextStep(s).Stop? && !NextStep(s).white) && !IsTail(s)
    ensures NextStep(s).Go? && IsPiece(p) && s == Print(p) + NextStep(s).rest
  {
    if IsSpace(s[0]) {
      p := Blank(s[0]);
    } else if StartsWith(s, '/', '*') {
      p := NextBlock(s);
    } else {
      p := NextLineComment(s);
    }
  }

  lemma NextBlock(s: string) returns (p: Piece)
    requires StartsWith(s, '/', '*') && NextStep(s).Go?
    ensures IsPiece(p) && s == Print(p) + NextStep(s).rest
  {
    hide BlockLength;
    var t := s[2..];
    var n := BlockLength(t);
    BlockLengthSplits(t);
    p := Block(t[..n]);
    assert s == "/*" + t;
  }

  lemma NextLineComment(s: string) returns (p: Piece)
    requires StartsWith(s, '-', '-') && !IsTail(s)
    ensures NextStep(s).Go? && IsPiece(p) && s == Print(p) + NextStep(s).rest
  {
    hide IndexOf, BlockLength;
    var t := s[2..];
    var n := IndexOf(t, '\n');
    assert t[..|t|] == t;
    p := LineComment(t[..n]);
    SplitLine(s, n);
  }

  lemma SplitLine(s: string, n: nat)
    requires StartsWith(s, '-', '-') && n < |s| - 2 && s[2..][n] == '\n'
    ensures s == "--" + s[2..][..n] + "\n" + s[2..][n + 1..]
  {
  }

  lemma {:induction false} WhiteIsPieces(s: string) returns (ps: seq<Piece>, tail: string)
    requires AllWhite(s)
    ensures ArePieces(ps) && IsTail(tail) && s == PrintAll(ps) + tail
    decreases |s|
  {
    hide AllWhite, IsPiece, NextStep, IsTail;
    if IsTail(s) {
      ps, tail := [], s;
      assert "" + s == s;
    } else {
      WhiteUnfold(s);
      EmptyIsTail();
      var p := NextPiece(s);
      var rest, more := NextStep(s).rest, [];
      more, tail := WhiteIsPieces(rest);
      ps := [p] + more;
      assert ps[1..] == more;
      assert s == Print(p) + PrintAll(more) + tail;
    }
  }

  lemma EmptyIsTail()
    ensures IsTail("")
  {
  }

  /** _all_whitespace accepts exactly the spaces and comments. */
  lemma {:induction false} WhiteIsSpacesAndComments(s: string)
    ensures AllWhite(s) <==> exists ps: seq<Piece>, tail: string :: ArePieces(ps) && IsTail(tail) && s == PrintAll(ps) + tail
  {
    hide AllWhite, IsTail;
    if AllWhite(s) {
      var ps, tail := WhiteIsPieces(s);
      assert ArePieces(ps) && IsTail(tail);
    }
    forall ps, tail | ArePieces(ps) && IsTail(tail) && s == PrintAll(ps) + tail
      ensures AllWhite(s)
    {
      PiecesAreWhite(ps, tail);
    }
  }

  lemma BlockAt(z: seq<char>, q: nat)
    requires IsCString(z) && q < |z|
    ensures z[q] == '\0' <==> q == |z| - 1
    ensures var n := BlockLength(From(z, q));
            if q == |z| - 1 || (z[q] == '*' && z[q + 1] == '/') then n == 0 else n == 1 + BlockLength(From(z, q + 1))
  {
    AtNul(z, q);
    if q < |z| - 1 {
      AtNul(z, q + 1);
      if q + 1 < |z| - 1 {
        assert From(z, q)[1] == z[q + 1];
      }
    }
  }

  lemma FromFrom(z: seq<char>, p: nat, q: nat)
    requires IsCString(z) && p <= q < |z|
    ensures From(z, q) == From(z, p)[q - p..]
  {
  }

  method PassBlock(z: seq<char>, p: nat) returns (q: nat)
    requires IsCString(z) && p < |z|
    ensures p <= q < |z| && q - p == BlockLength(From(z, p))
    ensures From(z, q) == From(z, p)[q - p..]
  {
    hide BlockLength, IsCString, From;
    q := p;
    BlockAt(z, q);
    while z[q] != '\0' && (z[q] != '*' || z[q + 1] != '/')
      invariant p <= q < |z| && (z[q] == '\0' <==> q == |z| - 1)
      invariant BlockLength(From(z, p)) == q - p + BlockLength(From(z, q))
      decreases |z| - q
    {
      BlockAt(z, q);
      q := q + 1;
      BlockAt(z, q);
    }
    BlockAt(z, q);
    FromFrom(z, p, q);
  }

  method PassLine(z: seq<char>, p: nat) returns (q: nat)
    requires IsCString(z) && p < |z|
    ensures p <= q < |z| && q - p == IndexOf(From(z, p), '\n')
    ensures From(z, q) == From(z, p)[q - p..]
  {
    q := p;
    AtNul(z, q);
    while z[q] != '\0' && z[q] != '\n'
      invariant p <= q < |z| && (z[q] == '\0' <==> q == |z| - 1)
      invariant IndexOf(From(z, p), '\n') == q - p + IndexOf(From(z, q), '\n')
      decreases |z| - q
    {
      AtNul(z, q);
      q := q + 1;
      AtNul(z, q);
    }
    AtNul(z, q);
  }

  /** What the two bytes at `p` say about the text from there on. */
  lemma TwoBytes(z: seq<char>, p: nat, a: char, b: char)
    requires IsCString(z) && p < |z| - 1 && a != '\0' && b != '\0'
    ensures From(z, p) != "" && From(z, p)[0] == z[p]
    ensures StartsWith(From(z, p), a, b) <==> z[p] == a && z[p + 1] == b
    ensures z[p] == a && z[p + 1] == b ==> p + 2 < |z| && From(z, p)[2..] == From(z, p + 2)
  {
    AtNul(z, p);
    AtNul(z, p + 1);
  }

  /** The branch for a block comment. */
  method BlockComment(z: seq<char>, p: nat) returns (stop: bool, q: nat)
    requires IsCString(z) && p < |z| - 1 && z[p] == '/' && z[p + 1] == '*'
    ensures From(z, p) != ""
    ensures stop ==> NextStep(From(z, p)) == Stop(false)
    ensures !stop ==> p < q < |z| && NextStep(From(z, p)) == Go(From(z, q))
  {
    hide BlockLength, IsCString, From;
    TwoBytes(z, p, '/', '*');
    q := PassBlock(z, p + 2);
    AtNul(z, q);
    BlockAt(z, q);
    if z[q] == '\0' {
      return true, q;
    }
    TwoBytes(z, q, '*', '/');
    return false, q + 2;
  }

  /** The branch for a line comment. */
  method LineCommentAt(z: seq<char>, p: nat) returns (stop: bool, q: nat)
    requires IsCString(z) && p < |z| - 1 && z[p] == '-' && z[p + 1] == '-'
    ensures From(z, p) != ""
    ensures stop ==> NextStep(From(z, p)) == Stop(true)
    ensures !stop ==> p < q < |z| && NextStep(From(z, p)) == Go(From(z, q))
  {
    hide IndexOf, IsCString, From;
    TwoBytes(z, p, '-', '-');
    q := PassLine(z, p + 2);
    AtNul(z, q);
    if z[q] == '\0' {
      return true, q;
    }
    return false, q + 1;
  }

  /** One turn of the outer loop of _all_whitespace. */
  method OneTurn(z: seq<char>, p: nat) returns (stop: bool, white: bool, q: nat)
    requires IsCString(z) && p < |z| - 1
    ensures From(z, p) != ""
    ensures stop ==> NextStep(From(z, p)) == Stop(white)
    ensures !stop ==> p < q < |z| && NextStep(From(z, p)) == Go(From(z, q))
  {
    hide BlockLength, IndexOf, IsCString, From;
    AtNul(z, p);
    TwoBytes(z, p, '/', '*');
    TwoBytes(z, p, '-', '-');
    stop, white, q := true, false, p;
    if IsSpace(z[p]) {
      return false, false, p + 1;
    }
    if z[p] == '/' && z[p + 1] == '*' {
      stop, q := BlockComment(z, p);
      return stop, false, q;
    }
    if z[p] == '-' && z[p + 1] == '-' {
      stop, q := LineCommentAt(z, p);
      return stop, true, q;
    }
  }

  /** _all_whitespace on the NUL-terminated `z`. */
  method AllWhitespace(z: seq<char>) returns (r: bool)
    requires IsCString(z)
    ensures r == AllWhite(Content(z))
  {
    hide IsCString, NextStep;
    var p := 0;
    CStringStart(z);
    AtNul(z, p);
    while z[p] != '\0'
      invariant p < |z|
      invariant AllWhite(From(z, p)) == AllWhite(Content(z))
      decreases |z| - p
    {
      AtNul(z, p);
      var stop, white, q := OneTurn(z, p);
      if stop {
        return white;
      }
      p := q;
    }
    AtNul(z, p);
    return true;
  }
}
