/** Aligning two traces by longest common subsequence of their steps. */
module Diverge {
  import opened Base
  import opened Trace

  datatype Step = Step(dir: Direction, hash: string, method_: Option<string>, seqNo: nat)

  datatype DiffOp =
    | Common(aSeq: nat, bSeq: nat, dir: Direction, hash: string, method_: Option<string>)
    | OnlyA(aSeq: nat, dir: Direction, hash: string, method_: Option<string>)
    | OnlyB(bSeq: nat, dir: Direction, hash: string, method_: Option<string>)

  datatype DiffStats = DiffStats(common: nat, onlyA: nat, onlyB: nat, firstDivergence: Option<nat>)

  function StepsOf(events: seq<EventRecord>): (r: seq<Step>)
    ensures |r| == |events|
    ensures forall i | 0 <= i < |r| :: r[i] == Step(events[i].dir, events[i].hash, events[i].method_, events[i].seqNo)
  {
    seq(|events|, i requires 0 <= i < |events| =>
      Step(events[i].dir, events[i].hash, events[i].method_, events[i].seqNo))
  }

  predicate StepEq(a: Step, b: Step) {
    a.dir == b.dir && a.hash == b.hash
  }

  function CommonOf(a: Step, b: Step): DiffOp {
    Common(a.seqNo, b.seqNo, a.dir, a.hash, a.method_)
  }

  function OnlyAOf(a: Step): DiffOp {
    OnlyA(a.seqNo, a.dir, a.hash, a.method_)
  }

  function OnlyBOf(b: Step): DiffOp {
    OnlyB(b.seqNo, b.dir, b.hash, b.method_)
  }

  function Max(x: nat, y: nat): nat {
    if x >= y then x else y
  }

  // The value of the table cell for the first `i` steps of `a` and the first `j` steps of `b`.
  function Cell(a: seq<Step>, b: seq<Step>, i: nat, j: nat): (c: nat)
    requires i <= |a| && j <= |b|
    ensures c <= i && c <= j
  {
    if i == 0 || j == 0 then 0
    else if StepEq(a[i - 1], b[j - 1]) then Cell(a, b, i - 1, j - 1) + 1
    else Max(Cell(a, b, i - 1, j), Cell(a, b, i, j - 1))
  }

  // The alignment read off the table from the end; ties drop a step of `a`.
  function Align(a: seq<Step>, b: seq<Step>, i: nat, j: nat): seq<DiffOp>
    requires i <= |a| && j <= |b|
    decreases i + j
  {
    if i > 0 && j > 0 then
      if StepEq(a[i - 1], b[j - 1]) then Align(a, b, i - 1, j - 1) + [CommonOf(a[i - 1], b[j - 1])]
      else if Cell(a, b, i - 1, j) >= Cell(a, b, i, j - 1) then Align(a, b, i - 1, j) + [OnlyAOf(a[i - 1])]
      else Align(a, b, i, j - 1) + [OnlyBOf(b[j - 1])]
    else if i > 0 then Align(a, b, i - 1, j) + [OnlyAOf(a[i - 1])]
    else if j > 0 then Align(a, b, i, j - 1) + [OnlyBOf(b[j - 1])]
    else []
  }

  // ---- the flat table ----

  type U32 = x: int | 0 <= x < 0x1_0000_0000

  function Idx(m: nat, i: nat, j: nat): nat {
    i * (m + 1) + j
  }

  // Cells have distinct places inside a table of (n+1)(m+1) entries.
  lemma {:induction false} IdxInTable(n: nat, m: nat, i: nat, j: nat)
    requires i <= n && j <= m
    ensures Idx(m, i, j) < (n + 1) * (m + 1)
  {
    assert (i + 1) * (m + 1) <= (n + 1) * (m + 1);
    assert (i + 1) * (m + 1) == i * (m + 1) + (m + 1);
  }

  lemma {:induction false} RowsApart(m: nat, i: nat, j: nat, k: nat)
    requires i < k && j <= m
    ensures Idx(m, i, j) < k * (m + 1)
  {
    IdxInTable(k - 1, m, i, j);
  }

  lemma {:induction false} IdxDistinct(m: nat, i: nat, j: nat, k: nat, l: nat)
    requires j <= m && l <= m && (i, j) != (k, l)
    ensures Idx(m, i, j) != Idx(m, k, l)
  {
    if i < k {
      RowsApart(m, i, j, k);
    } else if k < i {
      RowsApart(m, k, l, i);
    }
  }

  // What the allocation of the table asks for: its size in bytes must fit an isize.
  predicate TableFits(n: nat, m: nat) {
    (n + 1) * (m + 1) * 4 <= 0x7FFF_FFFF_FFFF_FFFF
  }

  lemma {:induction false} ProductAtLeast(x: nat, y: nat, c: nat)
    requires x >= c && y >= c
    ensures x * y >= c * c
  {
    assert x * y >= c * y;
    assert c * y >= c * c;
  }

  // A table that can be allocated has cells that fit 32 bits with room for the increment.
  lemma {:induction false} CellsFit(n: nat, m: nat)
    requires TableFits(n, m)
    ensures n < 0x8000_0000 || m < 0x8000_0000
  {
    if n >= 0x8000_0000 && m >= 0x8000_0000 {
      ProductAtLeast(n + 1, m + 1, 0x8000_0001);
    }
  }

  ghost predicate Holds(dp: array<U32>, n: nat, m: nat, i: nat, j: nat, v: int)
    reads dp
  {
    i <= n && j <= m && Idx(m, i, j) < dp.Length && dp[Idx(m, i, j)] == v
  }

  method SetCell(dp: array<U32>, n: nat, m: nat, i: nat, j: nat, v: U32)
    requires dp.Length == (n + 1) * (m + 1) && i <= n && j <= m
    modifies dp
    ensures Holds(dp, n, m, i, j, v)
    ensures forall k: nat, l: nat, x | (k, l) != (i, j) && old(Holds(dp, n, m, k, l, x)) :: Holds(dp, n, m, k, l, x)
  {
    IdxInTable(n, m, i, j);
    dp[Idx(m, i, j)] := v;
    forall k: nat, l: nat, x | (k, l) != (i, j) && old(Holds(dp, n, m, k, l, x)) ensures Holds(dp, n, m, k, l, x) {
      IdxDistinct(m, k, l, i, j);
    }
  }

  // Row `i` of the table is right up to column `j`.
  ghost predicate RowFilled(dp: array<U32>, a: seq<Step>, b: seq<Step>, i: nat, j: nat)
    requires i <= |a|
    reads dp
  {
    forall l: nat | l <= j && l <= |b| :: Holds(dp, |a|, |b|, i, l, Cell(a, b, i, l))
  }

  // Rows up to `i` are filled; below them the first column is still zero.
  ghost predicate RowsFilled(dp: array<U32>, a: seq<Step>, b: seq<Step>, i: nat)
    requires i <= |a|
    reads dp
  {
    && (forall k: nat | k <= i :: RowFilled(dp, a, b, k, |b|))
    && (forall k: nat | i < k <= |a| :: Holds(dp, |a|, |b|, k, 0, 0))
  }

  method FillRow(dp: array<U32>, a: seq<Step>, b: seq<Step>, i: nat)
    requires dp.Length == (|a| + 1) * (|b| + 1) && TableFits(|a|, |b|) && i < |a|
    requires RowsFilled(dp, a, b, i)
    modifies dp
    ensures RowsFilled(dp, a, b, i + 1)
  {
    var n, m, i' := |a|, |b|, i + 1;
    CellsFit(n, m);
    for j := 0 to m
      invariant RowsFilled(dp, a, b, i) && RowFilled(dp, a, b, i', j)
    {
      assert RowFilled(dp, a, b, i, m);
      assert Holds(dp, n, m, i, j, Cell(a, b, i, j)) && Holds(dp, n, m, i, j + 1, Cell(a, b, i, j + 1));
      assert Holds(dp, n, m, i', j, Cell(a, b, i', j));
      var v: U32 := if StepEq(a[i], b[j]) then dp[Idx(m, i, j)] + 1
                    else if dp[Idx(m, i, j + 1)] >= dp[Idx(m, i', j)] then dp[Idx(m, i, j + 1)]
                    else dp[Idx(m, i', j)];
      IdxInTable(n, m, i', j + 1);
      assert v == Cell(a, b, i', j + 1);
      label Before:
      SetCell(dp, n, m, i', j + 1, v);
      forall k: nat | k <= i ensures RowFilled(dp, a, b, k, m) {
        assert old@Before(RowFilled(dp, a, b, k, m));
      }
    }
  }

  method FillTable(a: seq<Step>, b: seq<Step>) returns (dp: array<U32>)
    requires TableFits(|a|, |b|)
    ensures fresh(dp) && dp.Length == (|a| + 1) * (|b| + 1) && RowsFilled(dp, a, b, |a|)
  {
    dp := new U32[(|a| + 1) * (|b| + 1)](_ => 0);
    forall k: nat, l: nat | k <= |a| && l <= |b| ensures Holds(dp, |a|, |b|, k, l, 0) {
      IdxInTable(|a|, |b|, k, l);
    }
    for i := 0 to |a|
      invariant RowsFilled(dp, a, b, i)
    {
      FillRow(dp, a, b, i);
    }
  }

  function Reversed(s: seq<DiffOp>): seq<DiffOp> {
    if s == [] then [] else Reversed(s[1..]) + [s[0]]
  }

  lemma {:induction false} ReversedPush(s: seq<DiffOp>, op: DiffOp)
    ensures Reversed(s + [op]) == [op] + Reversed(s)
  {
    if s != [] {
      assert (s + [op])[1..] == s[1..] + [op];
      ReversedPush(s[1..], op);
    } else {
      assert s + [op] == [op];
    }
  }

  lemma {:induction false} PushStep(s: seq<DiffOp>, op: DiffOp, before: seq<DiffOp>)
    ensures before + Reversed(s + [op]) == (before + [op]) + Reversed(s)
  {
    ReversedPush(s, op);
    Assoc(before, [op], Reversed(s));
  }

  // One step of the backtrack, taken at a cell off both edges.
  method BacktrackStep(
    dp: array<U32>, a: seq<Step>, b: seq<Step>, i: nat, j: nat) returns (op: DiffOp, i': nat, j': nat)
    requires dp.Length == (|a| + 1) * (|b| + 1) && RowsFilled(dp, a, b, |a|)
    requires 0 < i <= |a| && 0 < j <= |b|
    ensures i' <= i && j' <= j && i' + j' < i + j
    ensures Align(a, b, i, j) == Align(a, b, i', j') + [op]
  {
    var n, m, k, l := |a|, |b|, i - 1, j - 1;
    assert RowFilled(dp, a, b, k, m) && RowFilled(dp, a, b, i, m);
    assert Holds(dp, n, m, k, j, Cell(a, b, k, j)) && Holds(dp, n, m, i, l, Cell(a, b, i, l));
    if StepEq(a[k], b[l]) {
      op, i', j' := CommonOf(a[k], b[l]), k, l;
    } else if dp[Idx(m, k, j)] >= dp[Idx(m, i, l)] {
      op, i', j' := OnlyAOf(a[k]), k, j;
    } else {
      op, i', j' := OnlyBOf(b[l]), i, l;
    }
  }

  // What is left of one trace when the other is used up.
  method PushRest(a: seq<Step>, b: seq<Step>, i0: nat, j0: nat, pushed0: seq<DiffOp>) returns (pushed: seq<DiffOp>)
    requires i0 <= |a| && j0 <= |b| && (i0 == 0 || j0 == 0)
    ensures Reversed(pushed) == Align(a, b, i0, j0) + Reversed(pushed0)
  {
    ghost var whole := Align(a, b, i0, j0) + Reversed(pushed0);
    var i: nat, j: nat := i0, j0;
    pushed := pushed0;
    while i > 0
      invariant i <= i0 && (i == 0 || j == 0)
      invariant Align(a, b, i, j) + Reversed(pushed) == whole
    {
      PushStep(pushed, OnlyAOf(a[i - 1]), Align(a, b, i - 1, j));
      pushed, i := pushed + [OnlyAOf(a[i - 1])], i - 1;
    }
    while j > 0
      invariant i == 0 && j <= j0
      invariant Align(a, b, i, j) + Reversed(pushed) == whole
    {
      PushStep(pushed, OnlyBOf(b[j - 1]), Align(a, b, i, j - 1));
      pushed, j := pushed + [OnlyBOf(b[j - 1])], j - 1;
    }
    assert [] + Reversed(pushed) == Reversed(pushed);
  }

  method LcsDiff(a: seq<Step>, b: seq<Step>) returns (ops: seq<DiffOp>)
    requires TableFits(|a|, |b|)
    ensures ops == Align(a, b, |a|, |b|)
  {
    var dp := FillTable(a, b);
    ghost var whole := Align(a, b, |a|, |b|);
    var pushed: seq<DiffOp> := [];
    var i: nat, j: nat := |a|, |b|;
    assert whole + Reversed([]) == whole;
    while i > 0 && j > 0
      invariant RowsFilled(dp, a, b, |a|)
      invariant i <= |a| && j <= |b|
      invariant Align(a, b, i, j) + Reversed(pushed) == whole
      decreases i + j
    {
      var op, i', j' := BacktrackStep(dp, a, b, i, j);
      PushStep(pushed, op, Align(a, b, i', j'));
      pushed, i, j := pushed + [op], i', j';
    }
    pushed := PushRest(a, b, i, j, pushed);
    ops := Reversed(pushed);
  }

  // ---- statistics ----

  function CountCommon(ops: seq<DiffOp>): nat {
    if ops == [] then 0 else CountCommon(ops[..|ops| - 1]) + (if ops[|ops| - 1].Common? then 1 else 0)
  }

  function CountOnlyA(ops: seq<DiffOp>): nat {
    if ops == [] then 0 else CountOnlyA(ops[..|ops| - 1]) + (if ops[|ops| - 1].OnlyA? then 1 else 0)
  }

  function CountOnlyB(ops: seq<DiffOp>): nat {
    if ops == [] then 0 else CountOnlyB(ops[..|ops| - 1]) + (if ops[|ops| - 1].OnlyB? then 1 else 0)
  }

  lemma {:induction false} CountPush(ops: seq<DiffOp>, op: DiffOp)
    ensures CountCommon(ops + [op]) == CountCommon(ops) + (if op.Common? then 1 else 0)
    ensures CountOnlyA(ops + [op]) == CountOnlyA(ops) + (if op.OnlyA? then 1 else 0)
    ensures CountOnlyB(ops + [op]) == CountOnlyB(ops) + (if op.OnlyB? then 1 else 0)
  {
    assert (ops + [op])[..|ops|] == ops;
  }

  // The position of the first op that is not common to both.
  ghost predicate FirstDivergenceIs(ops: seq<DiffOp>, d: Option<nat>) {
    match d
    case None => forall k | 0 <= k < |ops| :: ops[k].Common?
    case Some(i) => i < |ops| && !ops[i].Common? && forall k | 0 <= k < i :: ops[k].Common?
  }

  // The statistics of a list of ops.
  ghost predicate StatsAre(ops: seq<DiffOp>, stats: DiffStats) {
    && stats.common == CountCommon(ops) && stats.onlyA == CountOnlyA(ops) && stats.onlyB == CountOnlyB(ops)
    && FirstDivergenceIs(ops, stats.firstDivergence)
  }

  function FirstOf(stats: DiffStats, i: nat): Option<nat> {
    if stats.firstDivergence.None? then Some(i) else stats.firstDivergence
  }

  lemma {:induction false} StatsPush(ops: seq<DiffOp>, op: DiffOp, stats: DiffStats, stats': DiffStats)
    requires StatsAre(ops, stats)
    requires stats' == match op
                       case Common(_, _, _, _, _) => stats.(common := stats.common + 1)
                       case OnlyA(_, _, _, _) =>
                         stats.(onlyA := stats.onlyA + 1, firstDivergence := FirstOf(stats, |ops|))
                       case OnlyB(_, _, _, _) =>
                         stats.(onlyB := stats.onlyB + 1, firstDivergence := FirstOf(stats, |ops|))
    ensures StatsAre(ops + [op], stats')
  {
    CountPush(ops, op);
  }

  method DiffSteps(a: seq<Step>, b: seq<Step>) returns (ops: seq<DiffOp>, stats: DiffStats)
    requires TableFits(|a|, |b|)
    ensures ops == Align(a, b, |a|, |b|)
    ensures stats.common == CountCommon(ops) && stats.onlyA == CountOnlyA(ops) && stats.onlyB == CountOnlyB(ops)
    ensures FirstDivergenceIs(ops, stats.firstDivergence)
  {
    ops := LcsDiff(a, b);
    stats := DiffStats(0, 0, 0, None);
    for i := 0 to |ops|
      invariant StatsAre(ops[..i], stats)
    {
      ghost var before := stats;
      match ops[i] {
        case Common(_, _, _, _, _) => stats := stats.(common := stats.common + 1);
        case OnlyA(_, _, _, _) => stats := stats.(onlyA := stats.onlyA + 1, firstDivergence := FirstOf(stats, i));
        case OnlyB(_, _, _, _) => stats := stats.(onlyB := stats.onlyB + 1, firstDivergence := FirstOf(stats, i));
      }
      StatsPush(ops[..i], ops[i], before, stats);
      assert ops[..i + 1] == ops[..i] + [ops[i]];
    }
    assert ops[..|ops|] == ops;
  }
}
