/** Diffing two recorded sessions: what the ops and the first divergence say of the messages exchanged. */
module Sessions {
  import opened Base
  import opened Json
  import opened Wire
  import opened Trace
  import opened Diverge
  import opened DivergeTheory
  import opened FirstDivergence
  import opened EndToEnd

  // The steps of a recorded session, as the diff sees them.
  function StepsIn(w: World, hist: seq<Entry>): (r: seq<Step>)
    ensures |r| == |hist|
  {
    StepsOf(EventsOf(w, hist))
  }

  // The same message, key order aside, in the same direction.
  ghost predicate SameMessage(x: Entry, y: Entry) {
    x.dir == y.dir && Same(x.frame.value, y.frame.value)
  }

  ghost predicate Comparable(w: World, h: seq<Entry>, g: seq<Entry>) {
    && Sound(w) && AllFrames(w, Frames(h)) && AllFrames(w, Frames(g))
    && NoCollision(w, ValuesOf(Frames(h)) + ValuesOf(Frames(g)))
  }

  /** Steps match exactly when they are the same message. */
  lemma {:induction false} StepsCompareMessages(w: World, h: seq<Entry>, g: seq<Entry>, i: nat, j: nat)
    requires Comparable(w, h, g) && i < |h| && j < |g|
    ensures StepEq(StepsIn(w, h)[i], StepsIn(w, g)[j]) <==> SameMessage(h[i], g[j])
    ensures StepsIn(w, h)[i].seqNo == i && StepsIn(w, h)[i].method_ == h[i].frame.method_
  {
    EntryIsFrame(w, h, i);
    EntryIsFrame(w, g, j);
    FrameFacts(w, h[i].frame);
    FrameFacts(w, g[j].frame);
    assert Frames(h)[i].value in ValuesOf(Frames(h)) && Frames(g)[j].value in ValuesOf(Frames(g));
    HashDecidesEquality(w, ValuesOf(Frames(h)) + ValuesOf(Frames(g)), h[i].frame.value, g[j].frame.value);
  }

  // The sessions exchange the same messages for `l` messages and no further.
  ghost predicate SameUntil(h: seq<Entry>, g: seq<Entry>, l: nat) {
    && l <= |h| && l <= |g| && (forall i | 0 <= i < l :: SameMessage(h[i], g[i]))
    && (l < |h| && l < |g| ==> !SameMessage(h[l], g[l]))
  }

  // The message before the parting is said again later on, in one session or the other.
  ghost predicate SaidAgain(h: seq<Entry>, g: seq<Entry>, l: nat) {
    && 0 < l <= |h| && l <= |g|
    && ((exists y | l <= y < |g| :: SameMessage(h[l - 1], g[y])) ||
        (exists x | l <= x < |h| :: SameMessage(h[x], g[l - 1])))
  }

  lemma {:induction false} PrefixOfMessages(w: World, h: seq<Entry>, g: seq<Entry>, l: nat)
    requires Comparable(w, h, g) && SameUntil(h, g, l)
    ensures CommonPrefix(StepsIn(w, h), StepsIn(w, g), l)
  {
    var a, b := StepsIn(w, h), StepsIn(w, g);
    forall i | 0 <= i < l ensures StepEq(a[i], b[i]) {
      StepsCompareMessages(w, h, g, i, i);
    }
    if l < |h| && l < |g| {
      StepsCompareMessages(w, h, g, l, l);
    }
    assert l < |h| && l < |g| ==> !StepEq(a[l], b[l]);
  }

  lemma {:induction false} SaidAgainInSecond(h: seq<Entry>, g: seq<Entry>, l: nat, y: nat)
    requires 0 < l <= |h| && l <= y < |g| && SameMessage(h[l - 1], g[y])
    ensures SaidAgain(h, g, l)
  {}

  lemma {:induction false} SaidAgainInFirst(h: seq<Entry>, g: seq<Entry>, l: nat, x: nat)
    requires 0 < l <= |g| && l <= x < |h| && SameMessage(h[x], g[l - 1])
    ensures SaidAgain(h, g, l)
  {}

  // A step that recurs is a message said again.
  lemma {:induction false} RecurrenceIsRepetition(w: World, h: seq<Entry>, g: seq<Entry>, l: nat)
    requires Comparable(w, h, g) && Recurs(StepsIn(w, h), StepsIn(w, g), l, |h|, |g|)
    ensures SaidAgain(h, g, l)
  {
    if y: nat :| l <= y < |g| && StepEq(StepsIn(w, h)[l - 1], StepsIn(w, g)[y]) {
      StepsCompareMessages(w, h, g, l - 1, y);
      SaidAgainInSecond(h, g, l, y);
    } else {
      var x: nat :| l <= x < |h| && StepEq(StepsIn(w, h)[x], StepsIn(w, g)[l - 1]);
      StepsCompareMessages(w, h, g, x, l - 1);
      SaidAgainInFirst(h, g, l, x);
    }
  }

  /** Where did they part ways? No divergence is reported exactly for sessions that exchange the same messages
      throughout; any other report lies within the messages they share, and is where they part unless the last
      shared message is said again later. */
  lemma {:induction false} WhereTheyPart(w: World, h: seq<Entry>, g: seq<Entry>, l: nat, d: Option<nat>)
    requires Comparable(w, h, g) && SameUntil(h, g, l)
    requires FirstDivergenceIs(Align(StepsIn(w, h), StepsIn(w, g), |h|, |g|), d)
    ensures d == None <==> |h| == l && |g| == l
    ensures d.Some? ==> d.value <= l
    ensures !SaidAgain(h, g, l) ==> d == if |h| == l && |g| == l then None else Some(l)
  {
    var a, b := StepsIn(w, h), StepsIn(w, g);
    PrefixOfMessages(w, h, g, l);
    FirstDivergenceMeans(a, b, d);
    PrefixIsLongest(a, b, l, if d.Some? then d.value else |a|);
    if Recurs(a, b, l, |h|, |g|) {
      RecurrenceIsRepetition(w, h, g, l);
    } else {
      NoRecurrence(a, b, l, d);
    }
  }
}
