/** Where the diff says two traces part: exactly when that is the end of their common prefix. */
module FirstDivergence {
  import opened Base
  import opened Diverge
  import opened DivergeTheory

  // The traces agree on their first `l` steps and no further.
  ghost predicate CommonPrefix(a: seq<Step>, b: seq<Step>, l: nat) {
    AgreeFirst(a, b, l) && !AgreeFirst(a, b, l + 1)
  }

  // The cell the backtrack goes to from (i, j).
  function Previous(a: seq<Step>, b: seq<Step>, i: nat, j: nat): (c: (nat, nat))
    requires i <= |a| && j <= |b| && i + j > 0
    ensures c.0 <= i && c.1 <= j && c.0 + c.1 < i + j
  {
    if i > 0 && j > 0 && StepEq(a[i - 1], b[j - 1]) then (i - 1, j - 1)
    else if i > 0 && (j == 0 || Cell(a, b, i - 1, j) >= Cell(a, b, i, j - 1)) then (i - 1, j)
    else (i, j - 1)
  }

  lemma {:induction false} PreviousAlign(a: seq<Step>, b: seq<Step>, i: nat, j: nat)
    requires i <= |a| && j <= |b| && i + j > 0
    ensures var (i', j') := Previous(a, b, i, j); Align(a, b, i', j') <= Align(a, b, i, j)
  {
    var op, i', j' := AlignStep(a, b, i, j);
  }

  // Where the backtrack from cell (i, j) first uses up one trace down to its first `l` steps.
  function Edge(a: seq<Step>, b: seq<Step>, l: nat, i: nat, j: nat): (e: (nat, nat))
    requires l <= i <= |a| && l <= j <= |b|
    ensures l <= e.0 <= i && l <= e.1 <= j && (e.0 == l || e.1 == l)
    decreases i + j
  {
    if i == l || j == l then (i, j)
    else
      var (i', j') := Previous(a, b, i, j);
      Edge(a, b, l, i', j')
  }

  // The last step of the prefix comes again among the steps from `l` up to the cell (i, j).
  predicate Recurs(a: seq<Step>, b: seq<Step>, l: nat, i: nat, j: nat)
    requires i <= |a| && j <= |b|
  {
    && 0 < l <= |a| && l <= |b|
    && ((exists y | l <= y < j :: StepEq(a[l - 1], b[y])) || (exists x | l <= x < i :: StepEq(a[x], b[l - 1])))
  }

  // The backtrack from (i, j) goes through (x, y).
  predicate Passes(a: seq<Step>, b: seq<Step>, x: nat, y: nat, i: nat, j: nat)
    requires i <= |a| && j <= |b|
    decreases i + j
  {
    (x == i && y == j) ||
    (i + j > 0 && var c := Previous(a, b, i, j); Passes(a, b, x, y, c.0, c.1))
  }

  lemma {:induction false} PrefixThrough<T>(x: seq<T>, y: seq<T>, z: seq<T>)
    requires x <= y <= z
    ensures x <= z
  {}

  // What is aligned there is what the alignment begins with.
  lemma {:induction false} PassesAlign(a: seq<Step>, b: seq<Step>, x: nat, y: nat, i: nat, j: nat)
    requires i <= |a| && j <= |b| && Passes(a, b, x, y, i, j)
    ensures x <= i && y <= j && Align(a, b, x, y) <= Align(a, b, i, j)
    decreases i + j
  {
    if x != i || y != j {
      var c := Previous(a, b, i, j);
      PassesAlign(a, b, x, y, c.0, c.1);
      PreviousAlign(a, b, i, j);
      PrefixThrough(Align(a, b, x, y), Align(a, b, c.0, c.1), Align(a, b, i, j));
    }
  }

  lemma {:induction false} PassesEdge(a: seq<Step>, b: seq<Step>, l: nat, i: nat, j: nat)
    requires l <= i <= |a| && l <= j <= |b|
    ensures var (x, y) := Edge(a, b, l, i, j); Passes(a, b, x, y, i, j)
    decreases i + j
  {
    if i > l && j > l {
      var (i', j') := Previous(a, b, i, j);
      PassesEdge(a, b, l, i', j');
    }
  }

  // Agreeing on `l` steps, the traces have that much in common from there on.
  lemma {:induction false} CellAtLeast(a: seq<Step>, b: seq<Step>, l: nat, i: nat, j: nat)
    requires AgreeFirst(a, b, l) && l <= i <= |a| && l <= j <= |b|
    ensures Cell(a, b, i, j) >= l
    decreases i + j
  {
    if i > l {
      CellAtLeast(a, b, l, i - 1, j);
      CellSteps(a, b, i, j);
    } else if j > l {
      CellAtLeast(a, b, l, i, j - 1);
      CellSteps(a, b, i, j);
    } else if l > 0 {
      assert AgreeFirst(a, b, l - 1);
      assert StepEq(a[l - 1], b[l - 1]);
      CellAtLeast(a, b, l - 1, l - 1, l - 1);
    }
  }

  // The cell the backtrack goes to from a cell of the edge.
  lemma {:induction false} EdgePrevious(a: seq<Step>, b: seq<Step>, l: nat, k: nat)
    requires AgreeFirst(a, b, l) && l < k
    ensures k <= |b| ==> Previous(a, b, l, k) ==
                         if l > 0 && StepEq(a[l - 1], b[k - 1]) then (l - 1, k - 1) else (l, k - 1)
    ensures k <= |a| ==> Previous(a, b, k, l) ==
                         if l > 0 && StepEq(a[k - 1], b[l - 1]) then (k - 1, l - 1) else (k - 1, l)
  {
    if k <= |b| {
      CellAtLeast(a, b, l, l, k - 1);
    }
    if k <= |a| {
      CellAtLeast(a, b, l, k - 1, l);
    }
  }

  // What is kept of the first `l` steps when they are matched as late as possible among the first `e`: those
  // that still meet themselves.
  function Lead(t: seq<Step>, l: nat, e: nat): (k: nat)
    requires l <= e <= |t|
    ensures k <= l
    decreases e
  {
    if l == 0 || e == l then l
    else if StepEq(t[l - 1], t[e - 1]) then Lead(t, l - 1, e - 1)
    else Lead(t, l, e - 1)
  }

  lemma {:induction false} LeadIsWhole(t: seq<Step>, l: nat, e: nat)
    requires l <= e <= |t|
    ensures Lead(t, l, e) == l <==> l == 0 || forall y | l <= y < e :: !StepEq(t[l - 1], t[y])
    decreases e
  {
    if l > 0 && e > l {
      if StepEq(t[l - 1], t[e - 1]) {
        assert !(forall y | l <= y < e :: !StepEq(t[l - 1], t[y]));
      } else {
        LeadIsWhole(t, l, e - 1);
      }
    }
  }

  lemma {:induction false} LeadStops(t: seq<Step>, l: nat, e: nat)
    requires l < e <= |t|
    ensures var k := Lead(t, l, e); k == 0 || !StepEq(t[k - 1], t[k])
    decreases e
  {
    if l > 0 {
      if StepEq(t[l - 1], t[e - 1]) {
        LeadStops(t, l - 1, e - 1);
      } else if e > l + 1 {
        LeadStops(t, l, e - 1);
      }
    }
  }

  // One step of the backtrack along the edge leaves the lead as it is.
  lemma {:induction false} RowPrevious(a: seq<Step>, b: seq<Step>, l: nat, j: nat)
    requires AgreeFirst(a, b, l) && l < j <= |b|
    ensures var c := Previous(a, b, l, j);
            && c.0 <= c.1 == j - 1 && AgreeFirst(a, b, c.0) && (c.0 == c.1 ==> c.0 == l)
            && Lead(b, c.0, c.1) == Lead(b, l, j)
  {
    EdgePrevious(a, b, l, j);
    assert l > 0 ==> StepEq(a[l - 1], b[l - 1]);
  }

  lemma {:induction false} ColumnPrevious(a: seq<Step>, b: seq<Step>, l: nat, i: nat)
    requires AgreeFirst(a, b, l) && l < i <= |a|
    ensures var c := Previous(a, b, i, l);
            && c.1 <= c.0 == i - 1 && AgreeFirst(a, b, c.1) && (c.0 == c.1 ==> c.1 == l)
            && Lead(a, c.1, c.0) == Lead(a, l, i)
  {
    EdgePrevious(a, b, l, i);
    assert l > 0 ==> StepEq(a[l - 1], b[l - 1]);
  }

  // From the edge the backtrack walks down the diagonals of the recurring steps, to where only the lead is left.
  lemma {:induction false} AlongRow(a: seq<Step>, b: seq<Step>, l: nat, j: nat)
    requires AgreeFirst(a, b, l) && l <= j <= |b|
    ensures var k := Lead(b, l, j); Passes(a, b, k, k, l, j) && (j > l ==> Passes(a, b, k, k + 1, l, j))
    decreases j
  {
    if j > l {
      var c := Previous(a, b, l, j);
      RowPrevious(a, b, l, j);
      AlongRow(a, b, c.0, c.1);
    }
  }

  lemma {:induction false} AlongColumn(a: seq<Step>, b: seq<Step>, l: nat, i: nat)
    requires AgreeFirst(a, b, l) && l <= i <= |a|
    ensures var k := Lead(a, l, i); Passes(a, b, k, k, i, l) && (i > l ==> Passes(a, b, k + 1, k, i, l))
    decreases i
  {
    if i > l {
      var c := Previous(a, b, i, l);
      ColumnPrevious(a, b, l, i);
      AlongColumn(a, b, c.1, c.0);
    }
  }

  lemma {:induction false} NextOp(x: seq<DiffOp>, op: DiffOp, y: seq<DiffOp>, ops: seq<DiffOp>)
    requires x + [op] <= y <= ops
    ensures |x| < |ops| && ops[|x|] == op
  {
    assert (x + [op])[|x|] == op;
  }

  // Off the diagonal the next op is not common.
  lemma {:induction false} StepsOffRow(a: seq<Step>, b: seq<Step>, l: nat, j: nat, ops: seq<DiffOp>)
    requires AgreeFirst(a, b, l) && l < j <= |b| && Align(a, b, l, j) <= ops
    ensures var k := Lead(b, l, j); k < |ops| && !ops[k].Common?
  {
    var k := Lead(b, l, j);
    LeadStops(b, l, j);
    AlongRow(a, b, l, j);
    PassesAlign(a, b, k, k + 1, l, j);
    assert AgreeFirst(a, b, k);
    EdgePrevious(a, b, k, k + 1);
    AlignsPrefix(a, b, k, Align(a, b, k, k));
    NextOp(Align(a, b, k, k), OnlyBOf(b[k]), Align(a, b, l, j), ops);
  }

  lemma {:induction false} StepsOffColumn(a: seq<Step>, b: seq<Step>, l: nat, i: nat, ops: seq<DiffOp>)
    requires AgreeFirst(a, b, l) && l < i <= |a| && Align(a, b, i, l) <= ops
    ensures var k := Lead(a, l, i); k < |ops| && !ops[k].Common?
  {
    var k := Lead(a, l, i);
    LeadStops(a, l, i);
    AlongColumn(a, b, l, i);
    PassesAlign(a, b, k + 1, k, i, l);
    assert AgreeFirst(a, b, k);
    EdgePrevious(a, b, k, k + 1);
    AlignsPrefix(a, b, k, Align(a, b, k, k));
    NextOp(Align(a, b, k, k), OnlyAOf(a[k]), Align(a, b, i, l), ops);
  }

  lemma {:induction false} AlignsPrefix(a: seq<Step>, b: seq<Step>, l: nat, ops: seq<DiffOp>)
    requires AgreeFirst(a, b, l) && Align(a, b, l, l) <= ops
    ensures |Align(a, b, l, l)| == l <= |ops| && forall k | 0 <= k < l :: ops[k].Common?
  {
    AgreeingAlign(a, b, l);
    AllCommonRun(a, b, 0, 0, l);
    AlignIsScript(a, b, l, l);
    AllCommonErased(Align(a, b, l, l));
  }

  // How many leading steps the diff pairs, both traces agreeing on their first `l`.
  function EdgeLead(a: seq<Step>, b: seq<Step>, l: nat): (k: nat)
    requires l <= |a| && l <= |b|
    ensures k <= l
  {
    var e := Edge(a, b, l, |a|, |b|);
    if e.0 == l then Lead(b, l, e.1) else Lead(a, l, e.0)
  }

  lemma {:induction false} OpsBeginWith(a: seq<Step>, b: seq<Step>, l: nat)
    requires AgreeFirst(a, b, l)
    ensures var ops, e, k := Align(a, b, |a|, |b|), Edge(a, b, l, |a|, |b|), EdgeLead(a, b, l);
            && k <= |ops| && (forall x | 0 <= x < k :: ops[x].Common?)
            && (e == (l, l) ==> k == l)
            && (e != (l, l) ==> k < |ops| && !ops[k].Common?)
  {
    var ops, e, k := Align(a, b, |a|, |b|), Edge(a, b, l, |a|, |b|), EdgeLead(a, b, l);
    PassesEdge(a, b, l, |a|, |b|);
    PassesAlign(a, b, e.0, e.1, |a|, |b|);
    assert AgreeFirst(a, b, k);
    if e.0 == l {
      AlongRow(a, b, l, e.1);
      if e.1 > l {
        StepsOffRow(a, b, l, e.1, ops);
      }
    } else {
      AlongColumn(a, b, l, e.0);
      StepsOffColumn(a, b, l, e.0, ops);
    }
    PassesAlign(a, b, k, k, e.0, e.1);
    PrefixThrough(Align(a, b, k, k), Align(a, b, e.0, e.1), ops);
    AlignsPrefix(a, b, k, ops);
  }

  // What a reader hopes for: the length of the common prefix, or nothing for traces that agree throughout.
  function Parting(a: seq<Step>, b: seq<Step>, l: nat): Option<nat> {
    if |a| == l && |b| == l then None else Some(l)
  }

  lemma {:induction false} PrefixIsLongest(a: seq<Step>, b: seq<Step>, l: nat, k: nat)
    requires CommonPrefix(a, b, l) && AgreeFirst(a, b, k)
    ensures k <= l
  {}

  /** The first divergence, for all traces: none if they agree throughout, else the lead at the edge. */
  lemma {:induction false} FirstDivergenceExactly(a: seq<Step>, b: seq<Step>, l: nat, d: Option<nat>)
    requires CommonPrefix(a, b, l) && FirstDivergenceIs(Align(a, b, |a|, |b|), d)
    ensures d == if |a| == l && |b| == l then None else Some(EdgeLead(a, b, l))
  {
    FirstDivergenceMeans(a, b, d);
    OpsBeginWith(a, b, l);
    if d.Some? {
      PrefixIsLongest(a, b, l, d.value);
    } else {
      PrefixIsLongest(a, b, l, |a|);
    }
  }

  lemma {:induction false} LeadIsPrefix(a: seq<Step>, b: seq<Step>, l: nat)
    requires AgreeFirst(a, b, l)
    ensures var e := Edge(a, b, l, |a|, |b|); EdgeLead(a, b, l) == l <==> !Recurs(a, b, l, e.0, e.1)
  {
    var e := Edge(a, b, l, |a|, |b|);
    assert l > 0 ==> StepEq(a[l - 1], b[l - 1]);
    if e.0 == l {
      LeadIsWhole(b, l, e.1);
    } else {
      LeadIsWhole(a, l, e.0);
    }
  }

  /** So the reported position is the length of the common prefix exactly when the last step of that prefix does
      not recur between the prefix and the edge. */
  lemma {:induction false} FirstDivergenceIsPrefix(a: seq<Step>, b: seq<Step>, l: nat, d: Option<nat>)
    requires CommonPrefix(a, b, l) && FirstDivergenceIs(Align(a, b, |a|, |b|), d)
    ensures var e := Edge(a, b, l, |a|, |b|); d == Parting(a, b, l) <==> !Recurs(a, b, l, e.0, e.1)
  {
    FirstDivergenceExactly(a, b, l, d);
    LeadIsPrefix(a, b, l);
  }

  /** In particular, whatever the table holds, when the last step of the common prefix does not recur at all. */
  lemma {:induction false} NoRecurrence(a: seq<Step>, b: seq<Step>, l: nat, d: Option<nat>)
    requires CommonPrefix(a, b, l) && FirstDivergenceIs(Align(a, b, |a|, |b|), d)
    requires !Recurs(a, b, l, |a|, |b|)
    ensures d == Parting(a, b, l)
  {
    FirstDivergenceIsPrefix(a, b, l, d);
  }

  /** The position is the same both ways round exactly when the two leads are. In particular it is when the last
      step of the common prefix recurs in neither direction's backtrack, and is not when it recurs in one. */
  lemma {:induction false} FirstDivergenceSymmetric(
    a: seq<Step>, b: seq<Step>, l: nat, d: Option<nat>, d': Option<nat>)
    requires CommonPrefix(a, b, l)
    requires FirstDivergenceIs(Align(a, b, |a|, |b|), d) && FirstDivergenceIs(Align(b, a, |b|, |a|), d')
    ensures d == d' <==> EdgeLead(a, b, l) == EdgeLead(b, a, l)
    ensures var e, e' := Edge(a, b, l, |a|, |b|), Edge(b, a, l, |b|, |a|);
            var r, r' := Recurs(a, b, l, e.0, e.1), Recurs(b, a, l, e'.0, e'.1);
            (!r && !r' ==> d == d') && (r != r' ==> d != d')
    ensures !Recurs(a, b, l, |a|, |b|) ==> d == d'
  {
    assert CommonPrefix(b, a, l);
    FirstDivergenceExactly(a, b, l, d);
    FirstDivergenceExactly(b, a, l, d');
    LeadIsPrefix(a, b, l);
    LeadIsPrefix(b, a, l);
  }

  // The condition on the traces alone is not necessary: a step that recurs behind the edge does no harm.
  lemma {:induction false} RecurrenceMayBeHarmless()
    ensures var x, p, q := NamedStep("x"), NamedStep("p"), NamedStep("q");
            var a, b := [x, p, x], [x, q, x];
            && CommonPrefix(a, b, 1) && Recurs(a, b, 1, 3, 3)
            && FirstDivergenceIs(Align(a, b, 3, 3), Some(1))
  {
    var x, p, q := NamedStep("x"), NamedStep("p"), NamedStep("q");
    var a, b := [x, p, x], [x, q, x];
    assert "x"[0] != "p"[0] && "x"[0] != "q"[0] && "p"[0] != "q"[0];
    assert StepEq(a[0], b[2]);
    assert Cell(a, b, 1, 1) == 1;
    assert Cell(a, b, 1, 2) == 1 && Cell(a, b, 2, 1) == 1;
    assert Align(a, b, 1, 1) == Align(a, b, 0, 0) + [CommonOf(x, x)];
    assert Align(a, b, 1, 2) == Align(a, b, 1, 1) + [OnlyBOf(q)];
    assert Align(a, b, 2, 2) == Align(a, b, 1, 2) + [OnlyAOf(p)];
    assert Align(a, b, 3, 3) == Align(a, b, 2, 2) + [CommonOf(x, x)];
  }
}
