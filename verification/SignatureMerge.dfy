/** Merging of instruction signatures, libs/asmjit/tools/tablegen-x86.js and MapUtils of tablegen.js. */
module SignatureMerge {
  import opened Options

  /** What asmdb says of a flag: its register index, or -1, and its register kind, or "". */
  datatype Registers = Registers(indexOf: string -> int, kindOf: string -> string)

  /** The keys of a flags object in their iteration order, each with the value true. */
  type Flags = seq<string>

  predicate Distinct(flags: Flags) { forall i, j :: 0 <= i < j < |flags| ==> flags[i] != flags[j] }

  predicate SameKeys(a: Flags, b: Flags) { (forall k :: k in a ==> k in b) && (forall k :: k in b ==> k in a) }

  // ---------------------------------------------------------------- one operand

  /** The kind of the last flag that names a register with an index. */
  function IndexKind(regs: Registers, flags: Flags): string {
    if |flags| == 0 then ""
    else
      var last := flags[|flags| - 1];
      if regs.indexOf(last) != -1 then regs.kindOf(last) else IndexKind(regs, flags[..|flags| - 1])
  }

  predicate HasReg(regs: Registers, flags: Flags) { exists k :: k in flags && regs.kindOf(k) != "" }

  /** An operand with a register does not take in an indexed register of a kind other than its own. */
  predicate OperandsMerge(regs: Registers, a: Flags, b: Flags) {
    HasReg(regs, a) ==> forall k :: k in b && regs.indexOf(k) != -1 ==> regs.kindOf(k) == IndexKind(regs, a)
  }

  /** Assigning b's keys to a: new keys come last, in b's order. */
  function Union(a: Flags, b: Flags): Flags {
    if |b| == 0 then a
    else
      var before := Union(a, b[..|b| - 1]);
      if b[|b| - 1] in before then before else before + [b[|b| - 1]]
  }

  lemma {:induction false} UnionHasBoth(a: Flags, b: Flags)
    requires Distinct(a)
    ensures Distinct(Union(a, b))
    ensures forall k :: k in Union(a, b) <==> k in a || k in b
  {
    if |b| > 0 {
      UnionHasBoth(a, b[..|b| - 1]);
      assert b == b[..|b| - 1] + [b[|b| - 1]];
    }
  }

  // ---------------------------------------------------------------- one row

  datatype Row = Row(ops: seq<Flags>, x86: bool, x64: bool, implicit: int)

  datatype Mode = X86 | X64

  predicate Runs(row: Row, mode: Mode) { if mode.X86? then row.x86 else row.x64 }

  /** Each operand of the tuple is one of the alternatives that the row lists for it. */
  predicate Takes(row: Row, implicit: int, tuple: seq<string>) {
    row.implicit == implicit && |tuple| == |row.ops| && forall i :: 0 <= i < |tuple| ==> tuple[i] in row.ops[i]
  }

  /** The first operand from i on that the rows list differently, or their length. */
  function FirstDifference(a: seq<Flags>, b: seq<Flags>, i: nat): (d: nat)
    requires |a| == |b| && i <= |a|
    ensures i <= d <= |a| && (forall k :: i <= k < d ==> SameKeys(a[k], b[k])) && (d < |a| ==> !SameKeys(a[d], b[d]))
    decreases |a| - i
  {
    if i == |a| || !SameKeys(a[i], b[i]) then i else FirstDifference(a, b, i + 1)
  }

  predicate SameFrom(a: seq<Flags>, b: seq<Flags>, i: nat)
    requires |a| == |b|
  {
    forall k :: i <= k < |a| ==> SameKeys(a[k], b[k])
  }

  predicate ModesMerge(a: Row, b: Row) {
    || (a.x86 == b.x86 && a.x64 == b.x64)
    || (a.x86 && a.x64 && !b.x86 && b.x64)
  }

  predicate RowsMerge(regs: Registers, a: Row, b: Row) {
    && ModesMerge(a, b) && a.implicit == b.implicit && |a.ops| == |b.ops|
    && var d := FirstDifference(a.ops, b.ops, 0);
       d < |a.ops| ==> SameFrom(a.ops, b.ops, d + 1) && OperandsMerge(regs, a.ops[d], b.ops[d])
  }

  function Merged(a: Row, b: Row): Row
    requires |a.ops| == |b.ops|
  {
    var d := FirstDifference(a.ops, b.ops, 0);
    var ops := if d < |a.ops| then a.ops[d := Union(a.ops[d], b.ops[d])] else a.ops;
    Row(ops, a.x86 || b.x86, a.x64 || b.x64, a.implicit)
  }

  predicate WellFormed(row: Row) { forall i :: 0 <= i < |row.ops| ==> Distinct(row.ops[i]) }

  /** The merged row takes the tuples that one of the two took, and no other. */
  lemma MergedTakesBoth(regs: Registers, a: Row, b: Row, implicit: int, tuple: seq<string>)
    requires WellFormed(a) && RowsMerge(regs, a, b)
    ensures WellFormed(Merged(a, b))
    ensures Takes(Merged(a, b), implicit, tuple) <==> Takes(a, implicit, tuple) || Takes(b, implicit, tuple)
  {
    var d := FirstDifference(a.ops, b.ops, 0);
    if d < |a.ops| {
      UnionHasBoth(a.ops[d], b.ops[d]);
    }
    hide Union;
    hide FirstDifference;
    hide OperandsMerge;
    if |tuple| == |a.ops| {
      assert forall i :: 0 <= i < |tuple| && i != d ==> (tuple[i] in a.ops[i] <==> tuple[i] in b.ops[i]);
      assert forall i :: 0 <= i < |tuple| && i != d ==> Merged(a, b).ops[i] == a.ops[i];
      if d < |a.ops| {
        assert forall k :: k in Merged(a, b).ops[d] <==> k in a.ops[d] || k in b.ops[d];
      }
    }
  }

  // ---------------------------------------------------------------- tables

  /** Some row accepts the tuple with that number of implicit operands in that mode. */
  ghost predicate Accepts(rows: seq<Row>, mode: Mode, implicit: int, tuple: seq<string>) {
    exists i :: 0 <= i < |rows| && Runs(rows[i], mode) && Takes(rows[i], implicit, tuple)
  }

  /** X64 as before; X86 as before and perhaps more, but only tuples that X64 accepted. */
  ghost predicate SameMeaning(before: seq<Row>, after: seq<Row>) {
    && (forall n, t :: Accepts(after, X64, n, t) <==> Accepts(before, X64, n, t))
    && (forall n, t :: Accepts(before, X86, n, t) ==> Accepts(after, X86, n, t))
    && (forall n, t :: Accepts(after, X86, n, t) ==> Accepts(before, X86, n, t) || Accepts(before, X64, n, t))
  }

  /** Row i takes in row j, which leaves the table. */
  function MergeAt(rows: seq<Row>, i: nat, j: nat): (merged: seq<Row>)
    requires i < j < |rows| && |rows[i].ops| == |rows[j].ops|
    ensures |merged| == |rows| - 1
  {
    var now := rows[i := Merged(rows[i], rows[j])];
    now[..j] + now[j + 1..]
  }

  lemma MergeAtIndex(rows: seq<Row>, i: nat, j: nat, k: nat)
    requires i < j < |rows| && |rows[i].ops| == |rows[j].ops| && k < |rows| - 1
    ensures MergeAt(rows, i, j)[k]
         == if k == i then Merged(rows[i], rows[j]) else if k < j then rows[k] else rows[k + 1]
  {
  }

  /** What a merge does to each mode: X86 gains the other row's tuples exactly when only the first row ran in X86. */
  lemma MergeAccepts(regs: Registers, rows: seq<Row>, i: nat, j: nat, mode: Mode, n: int, t: seq<string>)
    requires i < j < |rows| && WellFormed(rows[i]) && RowsMerge(regs, rows[i], rows[j])
    ensures Accepts(MergeAt(rows, i, j), mode, n, t)
       <==> Accepts(rows, mode, n, t) || (mode.X86? && rows[i].x86 && !rows[j].x86 && Takes(rows[j], n, t))
  {
    MergedTakesBoth(regs, rows[i], rows[j], n, t);
    assert ModesMerge(rows[i], rows[j]);
    forall k: nat | k < |rows| - 1
      ensures MergeAt(rows, i, j)[k]
           == if k == i then Merged(rows[i], rows[j]) else if k < j then rows[k] else rows[k + 1]
    {
      MergeAtIndex(rows, i, j, k);
    }
    AcceptsMoved(rows, MergeAt(rows, i, j), Merged(rows[i], rows[j]), i, j, mode, n, t);
  }

  lemma AcceptsMoved(rows: seq<Row>, after: seq<Row>, m: Row, i: nat, j: nat, mode: Mode, n: int, t: seq<string>)
    requires i < j < |rows| && |after| == |rows| - 1 && ModesMerge(rows[i], rows[j])
    requires forall k {:trigger after[k]} :: 0 <= k < |after| ==>
      after[k] == if k == i then m else if k < j then rows[k] else rows[k + 1]
    requires m.x86 == (rows[i].x86 || rows[j].x86) && m.x64 == (rows[i].x64 || rows[j].x64)
    requires Takes(m, n, t) <==> Takes(rows[i], n, t) || Takes(rows[j], n, t)
    ensures Accepts(after, mode, n, t)
       <==> Accepts(rows, mode, n, t) || (mode.X86? && rows[i].x86 && !rows[j].x86 && Takes(rows[j], n, t))
  {
    if Accepts(rows, mode, n, t) {
      var k :| 0 <= k < |rows| && Runs(rows[k], mode) && Takes(rows[k], n, t);
      var at := if k == j then i else if k < j then k else k - 1;
      assert Runs(after[at], mode) && Takes(after[at], n, t);
    }
    if mode.X86? && rows[i].x86 && !rows[j].x86 && Takes(rows[j], n, t) {
      assert Runs(after[i], mode) && Takes(after[i], n, t);
    }
    if Accepts(after, mode, n, t) {
      var k :| 0 <= k < |after| && Runs(after[k], mode) && Takes(after[k], n, t);
      if k == i {
        assert Takes(rows[i], n, t) || Takes(rows[j], n, t);
      } else {
        var from := if k < j then k else k + 1;
        assert Runs(rows[from], mode) && Takes(rows[from], n, t);
      }
    }
  }

  lemma MergeKeepsMeaning(regs: Registers, rows: seq<Row>, i: nat, j: nat)
    requires i < j < |rows| && WellFormed(rows[i]) && RowsMerge(regs, rows[i], rows[j])
    ensures SameMeaning(rows, MergeAt(rows, i, j))
  {
    forall mode, n, t
      ensures Accepts(MergeAt(rows, i, j), mode, n, t)
         <==> Accepts(rows, mode, n, t) || (mode.X86? && rows[i].x86 && !rows[j].x86 && Takes(rows[j], n, t))
    {
      MergeAccepts(regs, rows, i, j, mode, n, t);
    }
    forall n, t | rows[i].x86 && !rows[j].x86 && Takes(rows[j], n, t)
      ensures Accepts(rows, X64, n, t)
    {
      assert Runs(rows[j], X64);
    }
    hide MergeAt;
    hide Takes;
    hide RowsMerge;
  }

  lemma MeaningStays(a: seq<Row>)
    ensures SameMeaning(a, a)
  {
  }

  lemma MeaningChains(a: seq<Row>, b: seq<Row>, c: seq<Row>)
    requires SameMeaning(a, b) && SameMeaning(b, c)
    ensures SameMeaning(a, c)
  {
    hide Accepts;
  }

  /** No row can take in a later one. */
  predicate Settled(regs: Registers, rows: seq<Row>) {
    forall i, j :: 0 <= i < j < |rows| ==> !RowsMerge(regs, rows[i], rows[j])
  }

  // ---------------------------------------------------------------- the order of the rows

  /**
   * Row b takes in row a, but a does not take in b: the rows list the same operands but for at most one, and either a
   * is for X64 alone and b for both modes, or the modes are equal and the operand that differs merges only towards b.
   */
  predicate OnlyBackward(regs: Registers, a: Row, b: Row) {
    && a.implicit == b.implicit && |a.ops| == |b.ops|
    && var d := FirstDifference(a.ops, b.ops, 0);
    && (d < |a.ops| ==> SameFrom(a.ops, b.ops, d + 1) && OperandsMerge(regs, b.ops[d], a.ops[d]))
    && (|| (!a.x86 && a.x64 && b.x86 && b.x64)
        || (a.x86 == b.x86 && a.x64 == b.x64 && d < |a.ops| && !OperandsMerge(regs, a.ops[d], b.ops[d])))
  }

  lemma {:induction false} FirstDifferenceSwaps(a: seq<Flags>, b: seq<Flags>, i: nat)
    requires |a| == |b| && i <= |a|
    ensures FirstDifference(a, b, i) == FirstDifference(b, a, i)
    decreases |a| - i
  {
    if i < |a| && SameKeys(a[i], b[i]) {
      FirstDifferenceSwaps(a, b, i + 1);
    }
  }

  /** Exactly when merging works in one order only. */
  lemma OrderMatters(regs: Registers, a: Row, b: Row)
    ensures !RowsMerge(regs, a, b) && RowsMerge(regs, b, a) <==> OnlyBackward(regs, a, b)
  {
    hide OperandsMerge;
    hide SameKeys;
    if |a.ops| == |b.ops| {
      FirstDifferenceSwaps(a.ops, b.ops, 0);
      SameFromSwaps(a.ops, b.ops, FirstDifference(a.ops, b.ops, 0) + 1);
      hide SameFrom;
      hide FirstDifference;
    }
  }

  lemma SameFromSwaps(a: seq<Flags>, b: seq<Flags>, i: nat)
    requires |a| == |b|
    ensures SameFrom(a, b, i) <==> SameFrom(b, a, i)
  {
    assert forall k :: i <= k < |a| ==> (SameKeys(a[k], b[k]) <==> SameKeys(b[k], a[k]));
    hide SameKeys;
  }

  /** No row can take in any other, before it or after it. */
  predicate Independent(regs: Registers, rows: seq<Row>) {
    forall i, j :: 0 <= i < |rows| && 0 <= j < |rows| && i != j ==> !RowsMerge(regs, rows[i], rows[j])
  }

  predicate NoneOnlyBackward(regs: Registers, rows: seq<Row>) {
    forall i, j :: 0 <= i < j < |rows| ==> !OnlyBackward(regs, rows[i], rows[j])
  }

  /** A settled table has no merge left in any order exactly when no pair of its rows merges only backward. */
  lemma SettledInAnyOrder(regs: Registers, rows: seq<Row>)
    requires Settled(regs, rows)
    ensures Independent(regs, rows) <==> NoneOnlyBackward(regs, rows)
  {
    forall i, j | 0 <= i < j < |rows|
      ensures RowsMerge(regs, rows[j], rows[i]) <==> OnlyBackward(regs, rows[i], rows[j])
    {
      OrderMatters(regs, rows[i], rows[j]);
    }
    hide RowsMerge;
    hide OnlyBackward;
  }

  /** First witness: a row for X64 alone does not take in the same row for both modes. */
  lemma ModesMatter(regs: Registers)
    ensures var narrow, wide := Row([["r64"]], false, true, 0), Row([["r64"]], true, true, 0);
      Settled(regs, [narrow, wide]) && OnlyBackward(regs, narrow, wide) && !Settled(regs, [wide, narrow])
  {
    var narrow, wide := Row([["r64"]], false, true, 0), Row([["r64"]], true, true, 0);
    assert RowsMerge(regs, [wide, narrow][0], [wide, narrow][1]);
  }

  lemma IndexKindOfOne(regs: Registers, key: string)
    ensures IndexKind(regs, [key]) == if regs.indexOf(key) != -1 then regs.kindOf(key) else ""
  {
    assert [key][..0] == [];
  }

  /** Second witness: any 32-bit register does not take in eax, the one with an index, but eax takes in the others. */
  lemma OperandsMatter(regs: Registers)
    requires regs.kindOf("r32") == regs.kindOf("eax") != "" && regs.indexOf("r32") == -1 && regs.indexOf("eax") == 0
    ensures var all, eax := Row([["r32"]], true, true, 0), Row([["eax"]], true, true, 0);
      Settled(regs, [all, eax]) && OnlyBackward(regs, all, eax) && !Settled(regs, [eax, all])
  {
    var all, eax := Row([["r32"]], true, true, 0), Row([["eax"]], true, true, 0);
    assert "eax" in ["eax"] && "r32" in ["r32"];
    IndexKindOfOne(regs, "r32");
    IndexKindOfOne(regs, "eax");
    hide IndexKind;
    assert !SameKeys(["r32"], ["eax"]) && !SameKeys(["eax"], ["r32"]);
    assert RowsMerge(regs, [eax, all][0], [eax, all][1]);
  }

  // ---------------------------------------------------------------- MapUtils

  method Equals(a: Flags, b: Flags) returns (equal: bool)
    ensures equal <==> SameKeys(a, b)
  {
    for i := 0 to |a|
      invariant forall k :: 0 <= k < i ==> a[k] in b
    {
      if a[i] !in b { return false; }
    }
    for i := 0 to |b|
      invariant forall k :: 0 <= k < i ==> b[k] in a
    {
      if b[i] !in a { return false; }
    }
    equal := true;
  }

  /** The keys that exactly one of the two has. */
  method XorKeys(a: Flags, b: Flags) returns (out: Flags)
    requires Distinct(a) && Distinct(b)
    ensures Distinct(out)
    ensures forall k :: k in out <==> (k in a) != (k in b)
  {
    out := [];
    for i := 0 to |a|
      invariant Distinct(out)
      invariant forall k :: k in out <==> k in a[..i] && k !in b
    {
      assert a[..i + 1] == a[..i] + [a[i]];
      assert a[i] !in a[..i];
      if a[i] !in b { out := out + [a[i]]; }
    }
    assert a[..|a|] == a;
    for i := 0 to |b|
      invariant Distinct(out)
      invariant forall k :: k in out <==> (k in a && k !in b) || (k in b[..i] && k !in a)
    {
      assert b[..i + 1] == b[..i] + [b[i]];
      assert b[i] !in b[..i];
      if b[i] !in a { out := out + [b[i]]; }
    }
    assert b[..|b|] == b;
  }

  lemma NoKeyDiffers(a: Flags, b: Flags, xor: Flags)
    requires forall k :: k in xor <==> (k in a) != (k in b)
    ensures xor == [] <==> SameKeys(a, b)
  {
    if xor != [] {
      assert xor[0] in xor;
    }
  }

  // ---------------------------------------------------------------- the classes

  class OSignature {
    var flags: Flags

    /** Nothing, the source's null, exactly when the two operands list the same flags. */
    method Xor(other: OSignature) returns (result: Option<Flags>)
      requires Distinct(flags) && Distinct(other.flags)
      ensures result.None? <==> SameKeys(flags, other.flags)
    {
      var keys := XorKeys(flags, other.flags);
      NoKeyDiffers(flags, other.flags, keys);
      result := if keys == [] then None else Some(keys);
    }

    method MergeWith(regs: Registers, other: OSignature) returns (ok: bool)
      requires this != other && Distinct(flags)
      modifies `flags
      ensures ok == OperandsMerge(regs, old(flags), other.flags)
      ensures flags == if ok then Union(old(flags), other.flags) else old(flags)
    {
      var indexKind, hasReg := "", false;
      for i := 0 to |flags|
        invariant flags == old(flags)
        invariant indexKind == IndexKind(regs, flags[..i])
        invariant hasReg == HasReg(regs, flags[..i])
      {
        assert flags[..i + 1][..i] == flags[..i];
        assert flags[..i + 1] == flags[..i] + [flags[i]];
        var index, kind := regs.indexOf(flags[i]), regs.kindOf(flags[i]);
        if kind != "" { hasReg := true; }
        if index != -1 { indexKind := kind; }
      }
      assert flags[..|flags|] == flags;
      if hasReg {
        for i := 0 to |other.flags|
          invariant flags == old(flags)
          invariant forall k :: k in other.flags[..i] && regs.indexOf(k) != -1 ==> regs.kindOf(k) == indexKind
        {
          assert other.flags[..i + 1] == other.flags[..i] + [other.flags[i]];
          if regs.indexOf(other.flags[i]) != -1 && indexKind != regs.kindOf(other.flags[i]) {
            assert other.flags[i] in other.flags;
            return false;
          }
        }
        assert other.flags[..|other.flags|] == other.flags;
      }
      for i := 0 to |other.flags|
        invariant flags == Union(old(flags), other.flags[..i])
      {
        assert other.flags[..i + 1][..i] == other.flags[..i];
        if other.flags[i] !in flags { flags := flags + [other.flags[i]]; }
      }
      assert other.flags[..|other.flags|] == other.flags;
      ok := true;
    }
  }

  ghost function FlagsOf(ops: seq<OSignature>): (flags: seq<Flags>)
    reads ops`flags
    ensures |flags| == |ops| && forall i :: 0 <= i < |ops| ==> flags[i] == ops[i].flags
  {
    if |ops| == 0 then [] else FlagsOf(ops[..|ops| - 1]) + [ops[|ops| - 1].flags]
  }

  ghost predicate Separate(ops: seq<OSignature>)
    reads ops`flags
  {
    && (forall i, j :: 0 <= i < j < |ops| ==> ops[i] != ops[j])
    && (forall i :: 0 <= i < |ops| ==> Distinct(ops[i].flags))
  }

  twostate lemma SameFlags(ops: seq<OSignature>)
    requires forall m :: 0 <= m < |ops| ==> ops[m].flags == old(ops[m].flags)
    ensures FlagsOf(ops) == old(FlagsOf(ops)) && Separate(ops) == old(Separate(ops))
  {
  }

  lemma DistinctAt(ops: seq<OSignature>, i: nat)
    requires Separate(ops) && i < |ops|
    ensures Distinct(ops[i].flags)
  {
  }

  /** At most one operand is listed differently, and xorIndex is that operand or -1. */
  predicate Found(a: seq<Flags>, b: seq<Flags>, found: bool, xorIndex: int)
    requires |a| == |b|
  {
    var d := FirstDifference(a, b, 0);
    (found <==> d < |a| ==> SameFrom(a, b, d + 1)) && (found ==> xorIndex == if d < |a| then d else -1)
  }

  /** The same of the operands before i. */
  predicate Searched(a: seq<Flags>, b: seq<Flags>, i: nat, xorIndex: int)
    requires |a| == |b| && i <= |a|
  {
    var d := FirstDifference(a, b, 0);
    xorIndex == (if d < i then d else -1) && forall k :: d < k < i ==> SameKeys(a[k], b[k])
  }

  lemma SearchSteps(a: seq<Flags>, b: seq<Flags>, i: nat, x: int)
    requires |a| == |b| && i <= |a|
    ensures Searched(a, b, 0, -1)
    ensures Searched(a, b, i, x) && i < |a| && SameKeys(a[i], b[i]) ==> Searched(a, b, i + 1, x)
    ensures Searched(a, b, i, x) && i < |a| && !SameKeys(a[i], b[i]) && x == -1 ==> Searched(a, b, i + 1, i)
    ensures Searched(a, b, i, x) && i < |a| && !SameKeys(a[i], b[i]) && x != -1 ==> Found(a, b, false, x)
    ensures Searched(a, b, |a|, x) ==> Found(a, b, true, x)
  {
    hide SameKeys;
  }

  class ISignature {
    var ops: seq<OSignature>
    var x86: bool
    var x64: bool
    var implicit: int

    ghost predicate Valid()
      reads this, ops`flags
    {
      Separate(ops)
    }

    ghost function Value(): (row: Row)
      reads this, ops`flags
      ensures Valid() ==> WellFormed(row)
    {
      Row(FlagsOf(ops), x86, x64, implicit)
    }

    /** The operand that the two signatures list differently, or -1; not found when there are several. */
    method OnlyDifference(other: ISignature) returns (found: bool, xorIndex: int)
      requires Valid() && other.Valid() && |ops| == |other.ops|
      ensures Found(Value().ops, other.Value().ops, found, xorIndex)
    {
      hide Separate;
      hide FlagsOf;
      hide SameKeys;
      hide Found;
      hide Searched;
      ghost var a, b := Value().ops, other.Value().ops;
      xorIndex := -1;
      SearchSteps(a, b, 0, -1);
      for i := 0 to |ops|
        invariant Searched(a, b, i, xorIndex)
      {
        DistinctAt(ops, i);
        DistinctAt(other.ops, i);
        SearchSteps(a, b, i, xorIndex);
        var xor := ops[i].Xor(other.ops[i]);
        if xor.None? { continue; }
        if xorIndex == -1 {
          xorIndex := i;
        } else {
          return false, xorIndex;
        }
      }
      SearchSteps(a, b, |ops|, xorIndex);
      found := true;
    }

    /** Operand d takes in the other's, if it can; nothing else changes. */
    method MergeOperand(regs: Registers, other: ISignature, d: nat) returns (fits: bool)
      requires Valid() && d < |ops| == |other.ops| && ops[d] != other.ops[d]
      modifies ops`flags
      ensures Valid() && fits == OperandsMerge(regs, old(FlagsOf(ops))[d], old(FlagsOf(other.ops))[d])
      ensures FlagsOf(ops)
           == if fits then old(FlagsOf(ops))[d := Union(old(FlagsOf(ops))[d], old(FlagsOf(other.ops))[d])]
              else old(FlagsOf(ops))
    {
      hide OperandsMerge;
      hide Union;
      hide FlagsOf;
      UnionHasBoth(ops[d].flags, other.ops[d].flags);
      fits := ops[d].MergeWith(regs, other.ops[d]);
      assert forall k :: 0 <= k < |ops| && k != d ==> ops[k].flags == old(ops[k].flags);
    }

    method JoinModes(other: ISignature)
      requires Valid()
      modifies `x86, `x64
      ensures Valid() && Value() == old(Value()).(x86 := old(x86) || other.x86, x64 := old(x64) || other.x64)
    {
      hide Separate;
      x86 := x86 || other.x86;
      x64 := x64 || other.x64;
    }

    method MergeWith(regs: Registers, other: ISignature) returns (merged: bool)
      requires Valid() && other.Valid() && this != other && (forall o :: o in ops ==> o !in other.ops)
      modifies `x86, `x64, ops`flags
      ensures Valid()
      ensures merged == RowsMerge(regs, old(Value()), old(other.Value()))
      ensures !merged ==> Value() == old(Value())
      ensures merged ==> Value() == Merged(old(Value()), old(other.Value()))
    {
      hide Separate;
      hide OperandsMerge;
      hide Union;
      hide FlagsOf;
      hide WellFormed;
      hide SameFrom;
      hide FirstDifference;
      hide Found;
      var ok := x86 == other.x86 && x64 == other.x64;
      if !ok && x86 && x64 && !other.x86 && other.x64 { ok := true; }
      if !ok || implicit != other.implicit { return false; }
      if |ops| != |other.ops| { return false; }
      var found, xorIndex := OnlyDifference(other);
      OutcomeOfSearch(regs, Value(), other.Value(), found, xorIndex);
      hide RowsMerge;
      hide Merged;
      if !found { return false; }
      if xorIndex != -1 {
        assert ops[xorIndex] in ops && other.ops[xorIndex] in other.ops;
        var fits := MergeOperand(regs, other, xorIndex);
        if !fits { return false; }
      }
      JoinModes(other);
      merged := true;
    }
  }

  lemma OutcomeOfSearch(regs: Registers, a: Row, b: Row, found: bool, xorIndex: int)
    requires ModesMerge(a, b) && a.implicit == b.implicit && |a.ops| == |b.ops|
    requires Found(a.ops, b.ops, found, xorIndex)
    ensures !found ==> !RowsMerge(regs, a, b)
    ensures found && xorIndex == -1 ==>
      RowsMerge(regs, a, b) && Merged(a, b) == Row(a.ops, a.x86 || b.x86, a.x64 || b.x64, a.implicit)
    ensures found && xorIndex != -1 ==>
      && 0 <= xorIndex < |a.ops|
      && (RowsMerge(regs, a, b) <==> OperandsMerge(regs, a.ops[xorIndex], b.ops[xorIndex]))
      && var ops := a.ops[xorIndex := Union(a.ops[xorIndex], b.ops[xorIndex])];
         Merged(a, b) == Row(ops, a.x86 || b.x86, a.x64 || b.x64, a.implicit)
  {
  }

  /** No row before row i can take in a later one, nor can row i take in one before row j. */
  predicate SettledBefore(regs: Registers, rows: seq<Row>, i: int, j: int) {
    forall a, b :: 0 <= a < b < |rows| && (a < i || (a == i && b < j)) ==> !RowsMerge(regs, rows[a], rows[b])
  }

  lemma SettledSteps(regs: Registers, rows: seq<Row>, i: nat, j: nat)
    ensures SettledBefore(regs, rows, 0, 0)
    ensures SettledBefore(regs, rows, i, i) ==> SettledBefore(regs, rows, i, i + 1)
    ensures SettledBefore(regs, rows, i, |rows|) ==> SettledBefore(regs, rows, i + 1, i + 1)
    ensures SettledBefore(regs, rows, |rows|, |rows|) ==> Settled(regs, rows)
    ensures i < j < |rows| && SettledBefore(regs, rows, i, j) && !RowsMerge(regs, rows[i], rows[j]) ==>
      SettledBefore(regs, rows, i, j + 1)
  {
    hide RowsMerge;
  }

  ghost predicate Apart(rows: seq<ISignature>)
    reads rows
  {
    && (forall i, j :: 0 <= i < j < |rows| ==> rows[i] != rows[j])
    && (forall i, j, o :: 0 <= i < |rows| && 0 <= j < |rows| && o in rows[i].ops && o in rows[j].ops ==> i == j)
  }

  lemma ApartWithout(rows: seq<ISignature>, j: nat)
    requires Apart(rows) && j < |rows|
    ensures Apart(rows[..j] + rows[j + 1..]) && forall r :: r in rows[..j] + rows[j + 1..] ==> r in rows
  {
    var left := rows[..j] + rows[j + 1..];
    forall a, b, o | 0 <= a < |left| && 0 <= b < |left| && o in left[a].ops && o in left[b].ops
      ensures a == b
    {
      assert left[a] == rows[if a < j then a else a + 1] && left[b] == rows[if b < j then b else b + 1];
    }
  }

  class SignatureArray {
    var rows: seq<ISignature>
    /** The array, its rows and their operands. */
    ghost var Repr: set<object>

    /** The rows share neither row objects nor operand objects. */
    ghost predicate Valid()
      reads this, Repr
    {
      && this in Repr
      && (forall r :: r in rows ==> r in Repr)
      && (forall r, o :: r in rows && o in r.ops ==> o in Repr)
      && (forall r :: r in rows ==> r.Valid())
      && Apart(rows)
    }

    ghost function Values(): (values: seq<Row>)
      requires Valid()
      reads this, Repr
      ensures |values| == |rows|
      ensures forall i :: 0 <= i < |rows| ==> values[i] == rows[i].Value() && WellFormed(values[i])
    {
      seq(|rows|, i requires 0 <= i < |rows| && Valid() reads this, Repr => assert rows[i] in rows; rows[i].Value())
    }

    /** Row i takes in the row j after it, if it can. */
    method MergeOne(regs: Registers, i: nat, j: nat) returns (merged: bool)
      requires Valid() && i < j < |rows|
      modifies Repr
      ensures Valid() && Repr == old(Repr)
      ensures merged == RowsMerge(regs, old(Values())[i], old(Values())[j])
      ensures Values() == if merged then MergeAt(old(Values()), i, j) else old(Values())
    {
      hide RowsMerge;
      hide Merged;
      hide WellFormed;
      hide FlagsOf;
      hide Separate;
      ghost var before := Values();
      assert rows[i] in rows && rows[j] in rows;
      label start:
      merged := rows[i].MergeWith(regs, rows[j]);
      forall k | 0 <= k < |rows| && k != i
        ensures rows[k].Valid() && rows[k].Value() == before[k]
      {
        assert rows[k] in rows && old@start(rows[k].Valid());
        assert forall m :: 0 <= m < |rows[k].ops| ==> rows[k].ops[m] in rows[k].ops && rows[k].ops[m] !in rows[i].ops;
        SameFlags@start(rows[k].ops);
      }
      assert Values() == if merged then before[i := rows[i].Value()] else before;
      if merged {
        Splice(j);
      }
    }

    /** this.splice(j, 1). */
    method Splice(j: nat)
      requires Valid() && j < |rows|
      modifies `rows
      ensures Valid() && rows == old(rows[..j] + rows[j + 1..])
      ensures Values() == old(Values()[..j] + Values()[j + 1..])
    {
      hide Separate;
      hide FlagsOf;
      ghost var before := Values();
      ApartWithout(rows, j);
      hide Apart;
      rows := rows[..j] + rows[j + 1..];
      assert Values() == before[..j] + before[j + 1..];
    }

    method Compact(regs: Registers)
      requires Valid()
      modifies Repr
      ensures Valid() && |rows| <= |old(rows)|
      ensures SameMeaning(old(Values()), Values())
      ensures Settled(regs, Values())
      ensures Independent(regs, Values()) <==> NoneOnlyBackward(regs, Values())
    {
      hide Independent;
      hide NoneOnlyBackward;
      hide SameMeaning;
      hide RowsMerge;
      hide MergeAt;
      hide WellFormed;
      hide Valid;
      hide Values;
      hide ISignature.Value;
      hide FlagsOf;
      hide SettledBefore;
      hide Settled;
      ghost var start := Values();
      var didSomething := true;
      MeaningStays(start);
      while didSomething
        invariant Valid() && Repr == old(Repr)
        invariant |rows| <= |start| && SameMeaning(start, Values())
        invariant !didSomething ==> Settled(regs, Values())
        decreases |rows|, if didSomething then 1 else 0
      {
        didSomething := false;
        ghost var size := |rows|;
        var i := 0;
        SettledSteps(regs, Values(), 0, 0);
        while i < |rows|
          invariant Valid() && Repr == old(Repr)
          invariant i <= |rows| <= size && (didSomething <==> |rows| < size)
          invariant SameMeaning(start, Values())
          invariant !didSomething ==> SettledBefore(regs, Values(), i, i)
          decreases |rows| - i
        {
          var j := i + 1;
          ghost var left := |rows|;
          SettledSteps(regs, Values(), i, i);
          while j < |rows|
            invariant Valid() && Repr == old(Repr)
            invariant i < j <= |rows| <= left && (didSomething <==> |rows| < size)
            invariant SameMeaning(start, Values())
            invariant !didSomething ==> SettledBefore(regs, Values(), i, j)
            decreases |rows| - j
          {
            ghost var previous := Values();
            var merged := MergeOne(regs, i, j);
            if merged {
              MergeKeepsMeaning(regs, previous, i, j);
              MeaningChains(start, previous, Values());
              didSomething := true;
              continue;
            }
            SettledSteps(regs, previous, i, j);
            j := j + 1;
          }
          SettledSteps(regs, Values(), i, j);
          i := i + 1;
        }
        SettledSteps(regs, Values(), i, i);
      }
      SettledInAnyOrder(regs, Values());
    }
  }
}
