/** The indentation of EXPLAIN listings. */
module ExplainIndent {
  import opened CText

  /** One row of the listing: address, opcode name, P1 and P2. */
  datatype Op = Op(addr: int, opcode: string, p1: int, p2: int)

  const NEXT_OPS := ["Next", "Prev", "VPrev", "VNext", "SorterNext", "NextIfOpen", "PrevIfOpen"]
  const YIELD_OPS := ["Yield", "SeekLT", "SeekGT", "RowSetRead", "Rewind"]
  const GOTO_OPS := ["Goto"]

  // ---------------------------------------------------------------- the rules, per pair of opcodes

  /** The index of the opcode that P2 of opcode `j` points to: addresses restart in sub-programs. */
  function Target(ops: seq<Op>, j: nat): int
    requires j < |ops|
  {
    ops[j].p2 + (j - ops[j].addr)
  }

  predicate IsNext(op: Op) {
    op.opcode in NEXT_OPS
  }

  predicate IsGoto(op: Op) {
    op.opcode in GOTO_OPS
  }

  predicate IsYield(op: Op) {
    op.opcode in YIELD_OPS
  }

  /** No jump leads in front of the first opcode. */
  predicate Jumpable(ops: seq<Op>) {
    forall j :: 0 <= j < |ops| && (IsNext(ops[j]) || IsGoto(ops[j])) ==> Target(ops, j) >= 0
  }

  /** A Goto back to a yield-like opcode, or with a P1. */
  predicate ClosesLoop(ops: seq<Op>, j: nat)
    requires j < |ops| && Jumpable(ops)
  {
    IsGoto(ops[j]) && Target(ops, j) <= j && (IsYield(ops[Target(ops, j)]) || ops[j].p1 != 0)
  }

  /** Opcode `k` lies in the loop that opcode `j` ends. */
  predicate Encloses(ops: seq<Op>, j: nat, k: nat)
    requires k < j < |ops| && Jumpable(ops)
  {
    (IsNext(ops[j]) && Target(ops, j) <= k) || (ClosesLoop(ops, j) && Target(ops, j) < k)
  }

  /** The loops around opcode `k` among those that end before `n`. */
  function Enclosing(ops: seq<Op>, k: nat, n: nat): set<nat>
    requires n <= |ops| && Jumpable(ops)
  {
    set j | k < j < n && Encloses(ops, j, k)
  }

  function Indent(ops: seq<Op>, k: nat, n: nat): nat
    requires n <= |ops| && Jumpable(ops)
  {
    2 * |Enclosing(ops, k, n)|
  }

  lemma IndentGrows(ops: seq<Op>, k: nat, n: nat)
    requires k <= n < |ops| && Jumpable(ops)
    ensures Indent(ops, k, n + 1) == Indent(ops, k, n) + if k < n && Encloses(ops, n, k) then 2 else 0
  {
    if k < n && Encloses(ops, n, k) {
      assert Enclosing(ops, k, n + 1) == Enclosing(ops, k, n) + {n};
    } else {
      assert Enclosing(ops, k, n + 1) == Enclosing(ops, k, n);
    }
  }

  lemma NothingEnclosedYet(ops: seq<Op>, n: nat)
    requires n < |ops| && Jumpable(ops)
    ensures Indent(ops, n, n) == 0
  {
    assert Enclosing(ops, n, n) == {};
  }

  predicate IsNextName(opcode: string) {
    || opcode == "Next" || opcode == "Prev" || opcode == "VNext" || opcode == "VPrev"
    || opcode == "SorterNext" || opcode == "NextIfOpen" || opcode == "PrevIfOpen"
  }

  predicate IsYieldName(opcode: string) {
    opcode == "Yield" || opcode == "SeekLT" || opcode == "SeekGT" || opcode == "RowSetRead" || opcode == "Rewind"
  }

  /** The rules, from address, opcode, P1 and P2 alone: one more opcode changes the indentation of those in front
      of it. A Next-like one indents from its destination on, a Goto behind its destination, if that is not
      behind itself and is yield-like or P1 is not zero; neither indents itself. */
  lemma IndentRules(ops: seq<Op>, n: nat, k: nat)
    requires k <= n < |ops| && Jumpable(ops)
    ensures var op := ops[n];
            var target := op.p2 - op.addr + n;
            Indent(ops, k, n + 1) - Indent(ops, k, n) ==
            if IsNextName(op.opcode) then (if target <= k < n then 2 else 0)
            else if op.opcode == "Goto" && 0 <= target <= n && (IsYieldName(ops[target].opcode) || op.p1 != 0) then
              (if target < k < n then 2 else 0)
            else 0
    ensures Indent(ops, n, n) == 0
  {
    hide Indent;
    IndentGrows(ops, k, n);
    NothingEnclosedYet(ops, n);
  }

  /** The rows that Rewind, Column and Goto 0 make: the opcode a Goto goes back to is not indented. */
  lemma GotoSparesItsTarget()
    ensures var ops := [Op(0, "Rewind", 0, 3), Op(1, "Column", 0, 0), Op(2, "Goto", 0, 0)];
            Jumpable(ops) && Indent(ops, 0, 3) == 0 && Indent(ops, 1, 3) == 2 && Indent(ops, 2, 3) == 0
  {
    hide Indent;
    var ops := [Op(0, "Rewind", 0, 3), Op(1, "Column", 0, 0), Op(2, "Goto", 0, 0)];
    IndentRules(ops, 0, 0);
    IndentRules(ops, 1, 0);
    IndentRules(ops, 1, 1);
    IndentRules(ops, 2, 0);
    IndentRules(ops, 2, 1);
    IndentRules(ops, 2, 2);
  }

  /** Opcodes of one and the same loops are indented alike: the indentation changes between neighbours
      only where a loop begins or ends. */
  lemma IndentChangesAtLoopEnds(ops: seq<Op>, k: nat)
    requires k + 1 < |ops| && Jumpable(ops)
    requires forall j :: k + 1 < j < |ops| ==> (Encloses(ops, j, k) <==> Encloses(ops, j, k + 1))
    ensures Indent(ops, k, |ops|) == Indent(ops, k + 1, |ops|) + if Encloses(ops, k + 1, k) then 2 else 0
  {
    hide Encloses;
    var inner, outer := Enclosing(ops, k, |ops|), Enclosing(ops, k + 1, |ops|);
    if Encloses(ops, k + 1, k) {
      assert inner == outer + {k + 1};
    } else {
      assert inner == outer;
    }
  }

  // ---------------------------------------------------------------- which statements are listed so

  predicate IsBlank(c: char) {
    c == ' ' || c == '\t' || c == '\n' || c as int == 12 || c == '\r'
  }

  function Blanks(s: string): (n: nat)
    ensures n <= |s|
  {
    if s == "" || !IsBlank(s[0]) then 0 else 1 + Blanks(s[1..])
  }

  function Lower(c: char): char {
    if 'A' <= c <= 'Z' then (c as int + 32) as char else c
  }

  /** The text starts, behind blanks, with "explain" in upper or lower case. */
  predicate IsExplain(s: string) {
    var t := s[Blanks(s)..];
    |t| >= 7 && forall i :: 0 <= i < 7 ==> Lower(t[i]) == "explain"[i]
  }

  /** Which texts that is, spelled out. */
  lemma ExplainIs(blanks: string, word: string, rest: string)
    requires forall i :: 0 <= i < |blanks| ==> blanks[i] as int in {9, 10, 12, 13, 32}
    requires |word| == 7 && word[0] as int !in {9, 10, 12, 13, 32}
    ensures IsExplain(blanks + word + rest) <==> forall i :: 0 <= i < 7 ==> word[i] == "explain"[i] || word[i] == "EXPLAIN"[i]
  {
    hide Lower, Blanks;
    BlanksIs(blanks, word + rest);
    Regroup(blanks, word, rest);
    var t := (blanks + word + rest)[|blanks|..];
    assert t == word + rest;
    forall i | 0 <= i < 7
      ensures Lower(t[i]) == "explain"[i] <==> word[i] == "explain"[i] || word[i] == "EXPLAIN"[i]
    {
      assert t[i] == word[i];
      Letters(i);
      LowerIs(word[i], "explain"[i]);
    }
  }

  lemma Letters(i: nat)
    requires i < 7
    ensures 'a' <= "explain"[i] <= 'z' && "EXPLAIN"[i] as int == "explain"[i] as int - 32
  {
  }

  lemma LowerIs(c: char, d: char)
    requires 'a' <= d <= 'z'
    ensures Lower(c) == d <==> c == d || c as int == d as int - 32
  {
  }

  lemma {:induction false} BlanksIs(blanks: string, t: string)
    requires forall i :: 0 <= i < |blanks| ==> blanks[i] as int in {9, 10, 12, 13, 32}
    requires t != "" && t[0] as int !in {9, 10, 12, 13, 32}
    ensures Blanks(blanks + t) == |blanks|
  {
    if blanks == "" {
      assert blanks + t == t;
    } else {
      assert (blanks + t)[1..] == blanks[1..] + t;
      BlanksIs(blanks[1..], t);
    }
  }

  /** The test at the start of explain_data_prepare; the text of a statement may be missing. */
  method LooksLikeExplain(zSql: Option<string>) returns (yes: bool)
    ensures yes == (zSql.Some? && IsExplain(zSql.value))
  {
    if zSql == None {
      return false;
    }
    var s, n, i := zSql.value, 0, 0;
    while n < |s| && IsBlank(s[n])
      invariant n <= |s| && Blanks(s) == n + Blanks(s[n..])
    {
      assert s[n..][1..] == s[n + 1..];
      n := n + 1;
    }
    assert Blanks(s) == n;
    while i < 7 && n + i < |s| && Lower(s[n + i]) == "explain"[i]
      invariant i <= 7 && n + i <= |s|
      invariant forall k :: 0 <= k < i ==> Lower(s[n + k]) == "explain"[k]
    {
      i := i + 1;
    }
    ghost var t := s[n..];
    assert i < 7 && i < |t| ==> Lower(t[i]) != "explain"[i];
    return i == 7;
  }

  // ---------------------------------------------------------------- the online computation

  /** str_in_array */
  method StrInArray(zStr: string, azArray: seq<string>) returns (found: bool)
    ensures found == (zStr in azArray)
  {
    for i := 0 to |azArray|
      invariant zStr !in azArray[..i]
    {
      assert azArray[..i + 1] == azArray[..i] + [azArray[i]];
      if zStr == azArray[i] {
        return true;
      }
    }
    return false;
  }

  method IsYieldLike(op: Op) returns (found: bool)
    ensures found == IsYield(op)
  {
    found := StrInArray(op.opcode, YIELD_OPS);
  }

  class ShellState {
    var aiIndent: array<int>
    var nIndent: nat
    var iIndent: nat

    constructor ()
      ensures fresh(aiIndent)
    {
      aiIndent, nIndent, iIndent := new int[0], 0, 0;
    }

    /** realloc: the old elements, and room for `n` in all. */
    static method Grown<T(0)>(a: array<T>, n: nat) returns (b: array<T>)
      requires a.Length <= n
      ensures fresh(b) && b.Length == n && b[..a.Length] == a[..]
    {
      b := new T[n];
      forall i | 0 <= i < a.Length {
        b[i] := a[i];
      }
    }

    /** The loop that indents the opcodes from `from` up to `to` by two. */
    static method IndentRange(a: array<int>, from: nat, to: nat)
      requires to <= a.Length
      modifies a
      ensures forall k :: 0 <= k < a.Length ==> a[k] == old(a[k]) + if from <= k < to then 2 else 0
    {
      var i := from;
      while i < to
        invariant from <= i
        invariant forall k :: 0 <= k < a.Length ==> a[k] == old(a[k]) + if from <= k < i && k < to then 2 else 0
      {
        a[i] := a[i] + 2;
        i := i + 1;
      }
    }

    /** The two conditional indentations for opcode `iOp`. */
    method IndentLoop(ops: seq<Op>, iOp: nat, abYield: array<bool>)
      requires iOp < |ops| && iOp < aiIndent.Length && iOp < abYield.Length && Jumpable(ops)
      requires forall k :: 0 <= k <= iOp ==> abYield[k] == IsYield(ops[k])
      modifies aiIndent
      ensures forall k :: 0 <= k < aiIndent.Length ==>
                aiIndent[k] == old(aiIndent[k]) + if k < iOp && Encloses(ops, iOp, k) then 2 else 0
    {
      assert !(IsNext(ops[iOp]) && IsGoto(ops[iOp]));
      var p2op := ops[iOp].p2 + (iOp - ops[iOp].addr);
      var isNext := StrInArray(ops[iOp].opcode, NEXT_OPS);
      if isNext {
        IndentRange(aiIndent, p2op, iOp);
      }
      var isGoto := StrInArray(ops[iOp].opcode, GOTO_OPS);
      if isGoto && p2op < iOp + 1 && (abYield[p2op] || ops[iOp].p1 != 0) {
        IndentRange(aiIndent, p2op + 1, iOp);
      }
    }

    /** The first opcodes are indented by the loops that end among them. */
    ghost predicate Prepared(ops: seq<Op>, n: nat, abYield: array<bool>)
      requires n <= |ops| && Jumpable(ops)
      reads this, aiIndent, abYield
    {
      && n <= aiIndent.Length == abYield.Length
      && (forall k :: 0 <= k < n ==> abYield[k] == IsYield(ops[k]))
      && (forall k :: 0 <= k < n ==> aiIndent[k] == Indent(ops, k, n))
    }

    /** The growth of both arrays by 100 elements. */
    method GrowArrays(ops: seq<Op>, n: nat, abYield: array<bool>) returns (abGrown: array<bool>)
      requires n <= |ops| && Jumpable(ops) && Prepared(ops, n, abYield)
      modifies this
      ensures fresh(aiIndent) && fresh(abGrown) && abGrown.Length == old(aiIndent.Length) + 100
      ensures Prepared(ops, n, abGrown) && nIndent == old(nIndent)
    {
      hide Indent, IsYield;
      ghost var wasIndent, wasYield := aiIndent[..], abYield[..];
      var nAlloc := aiIndent.Length + 100;
      aiIndent := Grown(aiIndent, nAlloc);
      abGrown := Grown(abYield, nAlloc);
      assert forall k :: 0 <= k < n ==> aiIndent[k] == wasIndent[k] && abGrown[k] == wasYield[k];
    }

    /** The loop body for opcode `iOp`, once there is room for it. */
    method OneOp(ops: seq<Op>, iOp: nat, abYield: array<bool>)
      requires iOp < |ops| && Jumpable(ops) && iOp < aiIndent.Length && Prepared(ops, iOp, abYield)
      modifies this`nIndent, aiIndent, abYield
      ensures Prepared(ops, iOp + 1, abYield) && nIndent == iOp + 1
    {
      hide Encloses, Indent, IsYield;
      abYield[iOp] := IsYieldLike(ops[iOp]);
      aiIndent[iOp] := 0;
      nIndent := iOp + 1;
      NothingEnclosedYet(ops, iOp);
      assert forall k :: 0 <= k <= iOp ==> aiIndent[k] == Indent(ops, k, iOp);
      IndentLoop(ops, iOp, abYield);
      forall k | 0 <= k <= iOp
        ensures aiIndent[k] == Indent(ops, k, iOp + 1)
      {
        IndentGrows(ops, k, iOp);
      }
    }

    /** explain_data_prepare: for an EXPLAIN statement with the rows `ops` the indentation of every opcode is
        twice the number of loops around it; for any other nothing is touched. */
    method ExplainDataPrepare(zSql: Option<string>, ops: seq<Op>)
      requires zSql.Some? && IsExplain(zSql.value) ==> Jumpable(ops)
      modifies this
      ensures zSql == None || !IsExplain(zSql.value) ==> unchanged(this)
      ensures zSql.Some? && IsExplain(zSql.value) ==>
                && nIndent == (if ops == [] then old(nIndent) else |ops|)
                && aiIndent.Length >= |ops| && iIndent == 0
                && forall k :: 0 <= k < |ops| ==> aiIndent[k] == Indent(ops, k, |ops|)
    {
      hide Indent, IsYield, IsExplain;
      var explain := LooksLikeExplain(zSql);
      if !explain {
        return;
      }
      var abYield := new bool[0];
      aiIndent := new int[0];
      var iOp := 0;
      while iOp < |ops|
        invariant iOp <= |ops| && Prepared(ops, iOp, abYield)
        invariant fresh(aiIndent) && fresh(abYield)
        invariant nIndent == if iOp == 0 then old(nIndent) else iOp
      {
        if iOp >= aiIndent.Length {
          abYield := GrowArrays(ops, iOp, abYield);
        }
        OneOp(ops, iOp, abYield);
        iOp := iOp + 1;
      }
      iIndent := 0;
    }
  }
}
