/** The alignment is a faithful edit script, and no script keeps more steps in common. */
module DivergeTheory {
  import opened Base
  import opened Trace
  import opened Diverge

  // ---- optimality against every common subsequence ----

  // A common subsequence, as the strictly increasing list of matched positions.
  ghost predicate IsMatching(a: seq<Step>, b: seq<Step>, i: nat, j: nat, p: seq<(nat, nat)>)
    requires i <= |a| && j <= |b|
  {
    && (forall k | 0 <= k < |p| :: p[k].0 < i && p[k].1 < j && StepEq(a[p[k].0], b[p[k].1]))
    && (forall k, l | 0 <= k < l < |p| :: p[k].0 < p[l].0 && p[k].1 < p[l].1)
  }

  lemma {:induction false} NoLongerMatching(a: seq<Step>, b: seq<Step>, i: nat, j: nat, p: seq<(nat, nat)>)
    requires i <= |a| && j <= |b| && IsMatching(a, b, i, j, p)
    ensures |p| <= Cell(a, b, i, j)
    decreases i + j
  {
    if p != [] {
      var n := |p| - 1;
      var (x, y) := p[n];
      if StepEq(a[i - 1], b[j - 1]) {
        NoLongerMatching(a, b, i - 1, j - 1, p[..n]);
      } else if x < i - 1 {
        NoLongerMatching(a, b, i - 1, j, p);
      } else {
        NoLongerMatching(a, b, i, j - 1, p);
      }
    }
  }

  // The positions the alignment matches.
  function Matched(a: seq<Step>, b: seq<Step>, i: nat, j: nat): seq<(nat, nat)>
    requires i <= |a| && j <= |b|
    decreases i + j
  {
    if i == 0 || j == 0 then []
    else if StepEq(a[i - 1], b[j - 1]) then Matched(a, b, i - 1, j - 1) + [(i - 1, j - 1)]
    else if Cell(a, b, i - 1, j) >= Cell(a, b, i, j - 1) then Matched(a, b, i - 1, j)
    else Matched(a, b, i, j - 1)
  }

  lemma {:induction false} MatchingExtends(a: seq<Step>, b: seq<Step>, i: nat, j: nat, p: seq<(nat, nat)>)
    requires 0 < i <= |a| && 0 < j <= |b| && StepEq(a[i - 1], b[j - 1])
    requires IsMatching(a, b, i - 1, j - 1, p)
    ensures IsMatching(a, b, i, j, p + [(i - 1, j - 1)])
  {}

  lemma {:induction false} MatchingWidens(
    a: seq<Step>, b: seq<Step>, i: nat, j: nat, k: nat, l: nat, p: seq<(nat, nat)>)
    requires i <= k <= |a| && j <= l <= |b| && IsMatching(a, b, i, j, p)
    ensures IsMatching(a, b, k, l, p)
  {}

  lemma {:induction false} MatchedIsMatching(a: seq<Step>, b: seq<Step>, i: nat, j: nat)
    requires i <= |a| && j <= |b|
    ensures IsMatching(a, b, i, j, Matched(a, b, i, j)) && |Matched(a, b, i, j)| == Cell(a, b, i, j)
    decreases i + j
  {
    if i > 0 && j > 0 {
      if StepEq(a[i - 1], b[j - 1]) {
        MatchedIsMatching(a, b, i - 1, j - 1);
        MatchingExtends(a, b, i, j, Matched(a, b, i - 1, j - 1));
      } else if Cell(a, b, i - 1, j) >= Cell(a, b, i, j - 1) {
        MatchedIsMatching(a, b, i - 1, j);
        MatchingWidens(a, b, i - 1, j, i, j, Matched(a, b, i - 1, j));
      } else {
        MatchedIsMatching(a, b, i, j - 1);
        MatchingWidens(a, b, i, j - 1, i, j, Matched(a, b, i, j - 1));
      }
    }
  }

  // The last op of an alignment, and the cell it came from.
  lemma {:induction false} AlignStep(a: seq<Step>, b: seq<Step>, i: nat, j: nat) returns (op: DiffOp, i': nat, j': nat)
    requires i <= |a| && j <= |b| && i + j > 0
    ensures i' <= i && j' <= j && i' + j' < i + j
    ensures Align(a, b, i, j) == Align(a, b, i', j') + [op]
    ensures Cell(a, b, i, j) == Cell(a, b, i', j') + (if op.Common? then 1 else 0)
    ensures op.OnlyB? ==> exists y | 0 <= y < |b| :: op == OnlyBOf(b[y])
  {
    if i > 0 && j > 0 && StepEq(a[i - 1], b[j - 1]) {
      op, i', j' := CommonOf(a[i - 1], b[j - 1]), i - 1, j - 1;
    } else if i > 0 && (j == 0 || Cell(a, b, i - 1, j) >= Cell(a, b, i, j - 1)) {
      op, i', j' := OnlyAOf(a[i - 1]), i - 1, j;
    } else {
      op, i', j' := OnlyBOf(b[j - 1]), i, j - 1;
    }
  }

  lemma {:induction false} CommonIsCell(a: seq<Step>, b: seq<Step>, i: nat, j: nat)
    requires i <= |a| && j <= |b|
    ensures CountCommon(Align(a, b, i, j)) == Cell(a, b, i, j)
    decreases i + j
  {
    if i + j > 0 {
      var op, i', j' := AlignStep(a, b, i, j);
      CommonIsCell(a, b, i', j');
      CountPush(Align(a, b, i', j'), op);
    }
  }

  /** The number of common ops is the length of a longest common subsequence: some strictly increasing
      matching of equal steps has that length, and none is longer. */
  lemma {:induction false} CommonIsLongest(a: seq<Step>, b: seq<Step>)
    ensures var c := CountCommon(Align(a, b, |a|, |b|));
            && (exists p :: IsMatching(a, b, |a|, |b|, p) && |p| == c)
            && (forall p | IsMatching(a, b, |a|, |b|, p) :: |p| <= c)
  {
    CommonIsCell(a, b, |a|, |b|);
    MatchedIsMatching(a, b, |a|, |b|);
    forall p | IsMatching(a, b, |a|, |b|, p) ensures |p| <= Cell(a, b, |a|, |b|) {
      NoLongerMatching(a, b, |a|, |b|, p);
    }
  }

  // ---- faithful edit scripts ----

  // What an op says of `b`: the method text of a common op is that of `a`.
  datatype Bare = Bare(dir: Direction, hash: string, seqNo: nat)

  function BareOf(s: Step): Bare {
    Bare(s.dir, s.hash, s.seqNo)
  }

  // A script accounts for the first `i` steps of `a` and the first `j` of `b`: erasing its b-only ops leaves
  // exactly those of `a`, erasing its a-only ops exactly those of `b`, in order.
  predicate IsScript(ops: seq<DiffOp>, a: seq<Step>, b: seq<Step>, i: nat, j: nat)
    requires i <= |a| && j <= |b|
  {
    ErasedToA(ops) == a[..i] && ErasedToB(ops) == BareAll(b[..j])
  }

  function BareAll(s: seq<Step>): (r: seq<Bare>)
    ensures |r| == |s| && forall k | 0 <= k < |s| :: r[k] == BareOf(s[k])
  {
    seq(|s|, k requires 0 <= k < |s| => BareOf(s[k]))
  }

  function ErasedToA(ops: seq<DiffOp>): seq<Step> {
    if ops == [] then []
    else
      ErasedToA(ops[..|ops| - 1]) +
      match ops[|ops| - 1]
      case Common(x, _, d, h, m) => [Step(d, h, m, x)]
      case OnlyA(x, d, h, m) => [Step(d, h, m, x)]
      case OnlyB(_, _, _, _) => []
  }

  function ErasedToB(ops: seq<DiffOp>): seq<Bare> {
    if ops == [] then []
    else
      ErasedToB(ops[..|ops| - 1]) +
      match ops[|ops| - 1]
      case Common(_, y, d, h, _) => [Bare(d, h, y)]
      case OnlyA(_, _, _, _) => []
      case OnlyB(y, d, h, _) => [Bare(d, h, y)]
  }

  lemma {:induction false} ErasePush(ops: seq<DiffOp>, op: DiffOp)
    ensures ErasedToA(ops + [op]) == ErasedToA(ops) + match op
              case Common(x, _, d, h, m) => [Step(d, h, m, x)]
              case OnlyA(x, d, h, m) => [Step(d, h, m, x)]
              case OnlyB(_, _, _, _) => []
    ensures ErasedToB(ops + [op]) == ErasedToB(ops) + match op
              case Common(_, y, d, h, _) => [Bare(d, h, y)]
              case OnlyA(_, _, _, _) => []
              case OnlyB(y, d, h, _) => [Bare(d, h, y)]
  {
    assert (ops + [op])[..|ops|] == ops;
  }

  lemma {:induction false} ScriptTakesA(ops: seq<DiffOp>, a: seq<Step>, b: seq<Step>, i: nat, j: nat)
    requires 0 < i <= |a| && j <= |b| && IsScript(ops, a, b, i - 1, j)
    ensures IsScript(ops + [OnlyAOf(a[i - 1])], a, b, i, j)
  {
    ErasePush(ops, OnlyAOf(a[i - 1]));
    assert a[..i] == a[..i - 1] + [a[i - 1]];
  }

  lemma {:induction false} ScriptTakesB(ops: seq<DiffOp>, a: seq<Step>, b: seq<Step>, i: nat, j: nat)
    requires i <= |a| && 0 < j <= |b| && IsScript(ops, a, b, i, j - 1)
    ensures IsScript(ops + [OnlyBOf(b[j - 1])], a, b, i, j)
  {
    ErasePush(ops, OnlyBOf(b[j - 1]));
    assert BareAll(b[..j]) == BareAll(b[..j - 1]) + [BareOf(b[j - 1])];
  }

  lemma {:induction false} ScriptTakesBoth(ops: seq<DiffOp>, a: seq<Step>, b: seq<Step>, i: nat, j: nat)
    requires 0 < i <= |a| && 0 < j <= |b| && StepEq(a[i - 1], b[j - 1]) && IsScript(ops, a, b, i - 1, j - 1)
    ensures IsScript(ops + [CommonOf(a[i - 1], b[j - 1])], a, b, i, j)
  {
    ErasePush(ops, CommonOf(a[i - 1], b[j - 1]));
    assert a[..i] == a[..i - 1] + [a[i - 1]];
    assert BareAll(b[..j]) == BareAll(b[..j - 1]) + [BareOf(b[j - 1])];
  }

  /** The diff is a faithful edit script between the two traces. */
  lemma {:induction false} AlignIsScript(a: seq<Step>, b: seq<Step>, i: nat, j: nat)
    requires i <= |a| && j <= |b|
    ensures IsScript(Align(a, b, i, j), a, b, i, j)
    decreases i + j
  {
    if i > 0 && j > 0 && StepEq(a[i - 1], b[j - 1]) {
      AlignIsScript(a, b, i - 1, j - 1);
      ScriptTakesBoth(Align(a, b, i - 1, j - 1), a, b, i, j);
    } else if i > 0 && (j == 0 || Cell(a, b, i - 1, j) >= Cell(a, b, i, j - 1)) {
      AlignIsScript(a, b, i - 1, j);
      ScriptTakesA(Align(a, b, i - 1, j), a, b, i, j);
    } else if j > 0 {
      AlignIsScript(a, b, i, j - 1);
      ScriptTakesB(Align(a, b, i, j - 1), a, b, i, j);
    }
  }

  /** An op that only `b` has quotes a step of `b` in full. */
  lemma {:induction false} OnlyBQuotes(a: seq<Step>, b: seq<Step>, i: nat, j: nat)
    requires i <= |a| && j <= |b|
    ensures forall k | 0 <= k < |Align(a, b, i, j)| && Align(a, b, i, j)[k].OnlyB? ::
              var op := Align(a, b, i, j)[k]; Step(op.dir, op.hash, op.method_, op.bSeq) in b
    decreases i + j
  {
    if i + j > 0 {
      var op, i', j' := AlignStep(a, b, i, j);
      OnlyBQuotes(a, b, i', j');
      QuotedStep(a, b, op);
    }
  }

  lemma {:induction false} QuotedStep(a: seq<Step>, b: seq<Step>, op: DiffOp)
    requires op.OnlyB? ==> exists y | 0 <= y < |b| :: op == OnlyBOf(b[y])
    ensures op.OnlyB? ==> Step(op.dir, op.hash, op.method_, op.bSeq) in b
  {}

  lemma {:induction false} EraseCounts(ops: seq<DiffOp>)
    ensures CountCommon(ops) + CountOnlyA(ops) == |ErasedToA(ops)|
    ensures CountCommon(ops) + CountOnlyB(ops) == |ErasedToB(ops)|
  {
    if ops != [] {
      EraseCounts(ops[..|ops| - 1]);
    }
  }

  // Neighbouring cells differ by at most one, and grow to the right and downwards.
  lemma {:induction false} CellSteps(a: seq<Step>, b: seq<Step>, i: nat, j: nat)
    requires i <= |a| && j <= |b|
    ensures i > 0 ==> Cell(a, b, i - 1, j) <= Cell(a, b, i, j) <= Cell(a, b, i - 1, j) + 1
    ensures j > 0 ==> Cell(a, b, i, j - 1) <= Cell(a, b, i, j) <= Cell(a, b, i, j - 1) + 1
    decreases i + j
  {
    if i > 0 && j > 0 {
      CellSteps(a, b, i - 1, j);
      CellSteps(a, b, i, j - 1);
      CellSteps(a, b, i - 1, j - 1);
    }
  }

  // How a script can end, read off its last op.
  lemma {:induction false} ScriptLastOp(ops: seq<DiffOp>, a: seq<Step>, b: seq<Step>, i: nat, j: nat)
    requires i <= |a| && j <= |b| && ops != [] && IsScript(ops, a, b, i, j)
    ensures var init, last := ops[..|ops| - 1], ops[|ops| - 1];
            match last
            case Common(_, _, _, _, _) =>
              i > 0 && j > 0 && StepEq(a[i - 1], b[j - 1]) && IsScript(init, a, b, i - 1, j - 1)
            case OnlyA(_, _, _, _) => i > 0 && IsScript(init, a, b, i - 1, j)
            case OnlyB(_, _, _, _) => j > 0 && IsScript(init, a, b, i, j - 1)
  {
    var n := |ops| - 1;
    var init, last := ops[..n], ops[n];
    var ea, eb := ErasedToA(ops), ErasedToB(ops);
    if !last.OnlyB? {
      assert ea[|ea| - 1] == a[i - 1] && ea[..|ea| - 1] == ErasedToA(init);
      assert a[..i][..i - 1] == a[..i - 1];
    }
    if !last.OnlyA? {
      assert eb[|eb| - 1] == BareOf(b[j - 1]) && eb[..|eb| - 1] == ErasedToB(init);
      assert BareAll(b[..j])[..j - 1] == BareAll(b[..j - 1]);
    }
  }

  // Without its last op a script spans a smaller table, and the cell there leaves room for what the op kept.
  lemma {:induction false} ScriptShortens(
    ops: seq<DiffOp>, a: seq<Step>, b: seq<Step>, i: nat, j: nat) returns (i': nat, j': nat)
    requires i <= |a| && j <= |b| && ops != [] && IsScript(ops, a, b, i, j)
    ensures i' <= i && j' <= j && IsScript(ops[..|ops| - 1], a, b, i', j')
    ensures Cell(a, b, i', j') + (if ops[|ops| - 1].Common? then 1 else 0) <= Cell(a, b, i, j)
  {
    var last := ops[|ops| - 1];
    ScriptLastOp(ops, a, b, i, j);
    i', j' := if last.OnlyB? then i else i - 1, if last.OnlyA? then j else j - 1;
    if !last.Common? {
      CellSteps(a, b, i, j);
    }
  }

  lemma {:induction false} ScriptKeepsAtMost(ops: seq<DiffOp>, a: seq<Step>, b: seq<Step>, i: nat, j: nat)
    requires i <= |a| && j <= |b| && IsScript(ops, a, b, i, j)
    ensures CountCommon(ops) <= Cell(a, b, i, j)
    decreases |ops|
  {
    if ops != [] {
      var i', j' := ScriptShortens(ops, a, b, i, j);
      ScriptKeepsAtMost(ops[..|ops| - 1], a, b, i', j');
    }
  }

  /** Of all edit scripts that turn one trace into the other, the diff has the fewest insertions and
      deletions; and its counts add up to the lengths of the traces. */
  lemma {:induction false} DiffIsMinimal(a: seq<Step>, b: seq<Step>, other: seq<DiffOp>)
    requires IsScript(other, a, b, |a|, |b|)
    ensures var ops := Align(a, b, |a|, |b|);
            && CountOnlyA(ops) + CountOnlyB(ops) <= CountOnlyA(other) + CountOnlyB(other)
            && CountCommon(ops) + CountOnlyA(ops) == |a|
            && CountCommon(ops) + CountOnlyB(ops) == |b|
  {
    var ops := Align(a, b, |a|, |b|);
    AlignIsScript(a, b, |a|, |b|);
    EraseCounts(ops);
    EraseCounts(other);
    CommonIsCell(a, b, |a|, |b|);
    ScriptKeepsAtMost(other, a, b, |a|, |b|);
  }

  // ---- symmetry ----

  lemma {:induction false} CellSymmetric(a: seq<Step>, b: seq<Step>, i: nat, j: nat)
    requires i <= |a| && j <= |b|
    ensures Cell(b, a, j, i) == Cell(a, b, i, j)
    decreases i + j
  {
    if i > 0 && j > 0 {
      CellSymmetric(a, b, i - 1, j - 1);
      CellSymmetric(a, b, i - 1, j);
      CellSymmetric(a, b, i, j - 1);
    }
  }

  /** Swapping the traces keeps the number of common steps and exchanges the other two counts, although
      ties are broken one-sidedly. */
  lemma {:induction false} CountsSymmetric(a: seq<Step>, b: seq<Step>)
    ensures var ops, swapped := Align(a, b, |a|, |b|), Align(b, a, |b|, |a|);
            && CountCommon(swapped) == CountCommon(ops)
            && CountOnlyA(swapped) == CountOnlyB(ops) && CountOnlyB(swapped) == CountOnlyA(ops)
  {
    CommonIsCell(a, b, |a|, |b|);
    CommonIsCell(b, a, |b|, |a|);
    CellSymmetric(a, b, |a|, |b|);
    AlignIsScript(a, b, |a|, |b|);
    AlignIsScript(b, a, |b|, |a|);
    EraseCounts(Align(a, b, |a|, |b|));
    EraseCounts(Align(b, a, |b|, |a|));
  }

  // ---- common suffixes and prefixes ----

  // The ops that align `k` steps pairwise.
  function CommonRun(a: seq<Step>, b: seq<Step>, i: nat, j: nat, k: nat): seq<DiffOp>
    requires i + k <= |a| && j + k <= |b|
  {
    if k == 0 then [] else CommonRun(a, b, i, j, k - 1) + [CommonOf(a[i + k - 1], b[j + k - 1])]
  }

  /** A common suffix of the two traces comes out whole, as trailing common ops. */
  lemma {:induction false} SuffixStaysCommon(a: seq<Step>, b: seq<Step>, i: nat, j: nat, k: nat)
    requires i + k <= |a| && j + k <= |b|
    requires forall x | i <= x < i + k :: StepEq(a[x], b[x - i + j])
    ensures Align(a, b, i + k, j + k) == Align(a, b, i, j) + CommonRun(a, b, i, j, k)
  {
    if k > 0 {
      assert StepEq(a[i + k - 1], b[j + k - 1]);
      SuffixStaysCommon(a, b, i, j, k - 1);
      Assoc(Align(a, b, i, j), CommonRun(a, b, i, j, k - 1), [CommonOf(a[i + k - 1], b[j + k - 1])]);
    } else {
      assert Align(a, b, i, j) + [] == Align(a, b, i, j);
    }
  }

  ghost predicate AgreeFirst(a: seq<Step>, b: seq<Step>, k: nat) {
    k <= |a| && k <= |b| && forall d | 0 <= d < k :: StepEq(a[d], b[d])
  }

  lemma {:induction false} AllCommonErased(ops: seq<DiffOp>)
    requires forall k | 0 <= k < |ops| :: ops[k].Common?
    ensures |ErasedToA(ops)| == |ops| == |ErasedToB(ops)|
    ensures forall k | 0 <= k < |ops| ::
              ErasedToA(ops)[k].dir == ErasedToB(ops)[k].dir && ErasedToA(ops)[k].hash == ErasedToB(ops)[k].hash
  {
    if ops != [] {
      AllCommonErased(ops[..|ops| - 1]);
    }
  }

  lemma {:induction false} ErasePrefix(ops: seq<DiffOp>, k: nat)
    requires k <= |ops|
    ensures ErasedToA(ops[..k]) <= ErasedToA(ops) && ErasedToB(ops[..k]) <= ErasedToB(ops)
    decreases |ops|
  {
    if k < |ops| {
      ErasePrefix(ops[..|ops| - 1], k);
      assert ops[..|ops| - 1][..k] == ops[..k];
    } else {
      assert ops[..k] == ops;
    }
  }

  // Leading common ops mean that the traces agree that far.
  lemma {:induction false} CommonPrefixAgrees(a: seq<Step>, b: seq<Step>, ops: seq<DiffOp>, k: nat)
    requires IsScript(ops, a, b, |a|, |b|) && k <= |ops| && forall d | 0 <= d < k :: ops[d].Common?
    ensures AgreeFirst(a, b, k)
  {
    var lead := ops[..k];
    AllCommonErased(lead);
    ErasePrefix(ops, k);
    assert a[..|a|] == a && b[..|b|] == b;
    var ea, eb := ErasedToA(lead), ErasedToB(lead);
    forall d | 0 <= d < k ensures StepEq(a[d], b[d]) {
      assert ea[d] == a[d] && eb[d] == BareOf(b[d]);
    }
  }

  lemma {:induction false} AgreeingAlign(a: seq<Step>, b: seq<Step>, n: nat)
    requires AgreeFirst(a, b, n)
    ensures Align(a, b, n, n) == CommonRun(a, b, 0, 0, n)
  {
    forall x | 0 <= x < 0 + n ensures StepEq(a[x], b[x - 0 + 0]) {}
    SuffixStaysCommon(a, b, 0, 0, n);
    assert Align(a, b, 0, 0) == [];
    assert [] + CommonRun(a, b, 0, 0, n) == CommonRun(a, b, 0, 0, n);
  }

  lemma {:induction false} AllCommonLengths(a: seq<Step>, b: seq<Step>, ops: seq<DiffOp>)
    requires IsScript(ops, a, b, |a|, |b|) && forall k | 0 <= k < |ops| :: ops[k].Common?
    ensures |a| == |b| == |ops|
  {
    AllCommonErased(ops);
  }

  /** No divergence is reported exactly when the traces agree step by step; and a divergence at op `k` means
      that they agree on their first `k` steps. */
  lemma {:induction false} FirstDivergenceMeans(a: seq<Step>, b: seq<Step>, d: Option<nat>)
    requires FirstDivergenceIs(Align(a, b, |a|, |b|), d)
    ensures d == None <==> |a| == |b| && AgreeFirst(a, b, |a|)
    ensures d.Some? ==> AgreeFirst(a, b, d.value)
  {
    var ops := Align(a, b, |a|, |b|);
    AlignIsScript(a, b, |a|, |b|);
    if |a| == |b| && AgreeFirst(a, b, |a|) {
      AgreeingAlign(a, b, |a|);
      AllCommonRun(a, b, 0, 0, |a|);
    }
    match d
    case None =>
      AllCommonLengths(a, b, ops);
      CommonPrefixAgrees(a, b, ops, |ops|);
    case Some(k) =>
      CommonPrefixAgrees(a, b, ops, k);
  }

  lemma {:induction false} AllCommonRun(a: seq<Step>, b: seq<Step>, i: nat, j: nat, k: nat)
    requires i + k <= |a| && j + k <= |b|
    ensures forall d | 0 <= d < |CommonRun(a, b, i, j, k)| :: CommonRun(a, b, i, j, k)[d].Common?
  {
    if k > 0 {
      AllCommonRun(a, b, i, j, k - 1);
    }
  }

  function NamedStep(name: string): Step {
    Step(C2a, name, None, 0)
  }

  // The reported position is not that of the longest common prefix: a repeated step is matched at its last
  // occurrence, so `[x]` against `[x, x]` diverges at once.
  lemma {:induction false} FirstDivergenceMissesPrefix()
    ensures var x := NamedStep("x");
            FirstDivergenceIs(Align([x], [x, x], 1, 2), Some(0)) && AgreeFirst([x], [x, x], 1)
  {
    var x := NamedStep("x");
    var a, b := [x], [x, x];
    assert Align(a, b, 0, 0) == [];
    assert Align(a, b, 0, 1) == [OnlyBOf(x)];
    assert Align(a, b, 1, 2) == [OnlyBOf(x), CommonOf(x, x)];
  }

  // Nor is it symmetric: with a = x,a,b and b = x,b,x,a it is 0 one way and 1 the other.
  lemma {:induction false} FirstDivergenceAsymmetric()
    ensures var x, y, z := NamedStep("x"), NamedStep("y"), NamedStep("z");
            var a, b := [x, y, z], [x, z, x, y];
            && FirstDivergenceIs(Align(a, b, 3, 4), Some(0))
            && FirstDivergenceIs(Align(b, a, 4, 3), Some(1))
  {
    var x, y, z := NamedStep("x"), NamedStep("y"), NamedStep("z");
    assert "x"[0] != "y"[0] && "x"[0] != "z"[0] && "y"[0] != "z"[0];
    var a, b := [x, y, z], [x, z, x, y];
    assert Cell(a, b, 1, 1) == 1 && Cell(a, b, 1, 2) == 1 && Cell(a, b, 1, 3) == 1 && Cell(a, b, 1, 4) == 1;
    assert Cell(a, b, 2, 1) == 1 && Cell(a, b, 2, 2) == 1 && Cell(a, b, 2, 3) == 1 && Cell(a, b, 2, 4) == 2;
    assert Cell(a, b, 3, 1) == 1 && Cell(a, b, 3, 2) == 2 && Cell(a, b, 3, 3) == 2 && Cell(a, b, 3, 4) == 2;
    CellSymmetric(a, b, 2, 4);
    CellSymmetric(a, b, 3, 3);
    CellSymmetric(a, b, 3, 2);
    CellSymmetric(a, b, 2, 3);
    CellSymmetric(a, b, 1, 3);
    CellSymmetric(a, b, 2, 2);
    CellSymmetric(a, b, 1, 2);
    assert Align(a, b, 3, 4) == Align(a, b, 2, 4) + [OnlyAOf(z)];
    assert Align(a, b, 2, 4) == Align(a, b, 1, 3) + [CommonOf(y, y)];
    assert Align(a, b, 1, 3) == Align(a, b, 0, 2) + [CommonOf(x, x)];
    assert Align(a, b, 0, 2) == Align(a, b, 0, 1) + [OnlyBOf(z)];
    assert Align(a, b, 0, 1) == Align(a, b, 0, 0) + [OnlyBOf(x)];
    assert Align(b, a, 4, 3) == Align(b, a, 3, 3) + [OnlyAOf(y)];
    assert Align(b, a, 3, 3) == Align(b, a, 2, 3) + [OnlyAOf(x)];
    assert Align(b, a, 2, 3) == Align(b, a, 1, 2) + [CommonOf(z, z)];
    assert Align(b, a, 1, 2) == Align(b, a, 1, 1) + [OnlyBOf(y)];
    assert Align(b, a, 1, 1) == Align(b, a, 0, 0) + [CommonOf(x, x)];
  }
}
