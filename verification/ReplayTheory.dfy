/** What interactive replay does, in closed form: after `k` accepted client frames the cursor stands at the
    next c2a event, and everything the agent said before it has been written. The control loop is studied
    for any lines and verdicts; `ReplayModes` fills them in. */
module ReplayTheory {
  import opened Base
  import opened Wire
  import opened Framing
  import opened Trace
  import opened Replay

  // ---- positions in the log ----

  // The events of one direction among the first `p`.
  function ProjectTo(events: seq<EventRecord>, dir: Direction, p: nat): seq<EventRecord>
    requires p <= |events|
  {
    if p == 0 then []
    else ProjectTo(events, dir, p - 1) + (if events[p - 1].dir == dir then [events[p - 1]] else [])
  }

  function Project(events: seq<EventRecord>, dir: Direction): seq<EventRecord> {
    ProjectTo(events, dir, |events|)
  }

  // How many client frames the log holds before position `p`.
  function ClientFramesBefore(events: seq<EventRecord>, p: nat): nat
    requires p <= |events|
  {
    |ProjectTo(events, C2a, p)|
  }

  // Where the k-th c2a event stands; the end of the log when there is none.
  function C2aPos(events: seq<EventRecord>, k: nat): (p: nat)
    ensures p <= |events| && (p < |events| ==> events[p].dir == C2a)
  {
    if k == 0 then NextC2a(events, 0)
    else
      var p := C2aPos(events, k - 1);
      if p < |events| then NextC2a(events, p + 1) else p
  }

  // The first event after the k-th client frame.
  function BlockStart(events: seq<EventRecord>, k: nat): nat {
    if k == 0 then 0 else C2aPos(events, k - 1) + 1
  }

  lemma {:induction false} ProjectGrows(events: seq<EventRecord>, dir: Direction, p: nat, q: nat)
    requires p <= q <= |events|
    ensures ProjectTo(events, dir, p) <= ProjectTo(events, dir, q)
    decreases q
  {
    if p < q {
      ProjectGrows(events, dir, p, q - 1);
    }
  }

  lemma {:induction false} SkipsNothing(events: seq<EventRecord>, from: nat, q: nat)
    requires from <= q <= NextC2a(events, from) && q <= |events|
    ensures ClientFramesBefore(events, q) == ClientFramesBefore(events, from)
    decreases q
  {
    if from < q {
      SkipsNothing(events, from, q - 1);
    }
  }

  // Between the k-th client frame and the next there are no client frames: exactly k come before.
  lemma {:induction false} BlockCounts(events: seq<EventRecord>, k: nat, q: nat)
    requires k == 0 || C2aPos(events, k - 1) < |events|
    requires BlockStart(events, k) <= q <= C2aPos(events, k)
    ensures ClientFramesBefore(events, q) == k
    ensures q < C2aPos(events, k) ==> events[q].dir != C2a
    decreases k
  {
    SkipsNothing(events, BlockStart(events, k), q);
    if k > 0 {
      var p := C2aPos(events, k - 1);
      BlockCounts(events, k - 1, p);
      CountsClientFrame(events, p);
    }
  }

  lemma {:induction false} CountsClientFrame(events: seq<EventRecord>, p: nat)
    requires p < |events| && events[p].dir == C2a
    ensures ClientFramesBefore(events, p + 1) == ClientFramesBefore(events, p) + 1
  {}

  // `C2aPos` enumerates the c2a events of the log, in order and without gaps.
  lemma {:induction false} C2aPosEnumerates(events: seq<EventRecord>, k: nat)
    ensures var p := C2aPos(events, k);
            var clients := Project(events, C2a);
            && (p < |events| <==> k < |clients|)
            && (p < |events| ==> events[p] == clients[k] && ClientFramesBefore(events, p) == k)
    decreases k
  {
    var p := C2aPos(events, k);
    if k > 0 && C2aPos(events, k - 1) == |events| {
      C2aPosEnumerates(events, k - 1);
    } else {
      BlockCounts(events, k, p);
      if p < |events| {
        StandsInProjection(events, p);
      }
    }
  }

  lemma {:induction false} StandsInProjection(events: seq<EventRecord>, p: nat)
    requires p < |events| && events[p].dir == C2a
    ensures var k := ClientFramesBefore(events, p); k < |Project(events, C2a)| && Project(events, C2a)[k] == events[p]
  {
    assert ProjectTo(events, C2a, p + 1)[ClientFramesBefore(events, p)] == events[p];
    ProjectGrows(events, C2a, p + 1, |events|);
  }

  // ---- the state after accepting some frames ----

  predicate MatchesAt(r: Rules, events: seq<EventRecord>, k: nat, f: Frame) {
    var p := C2aPos(events, k);
    p < |events| && r.judge(events[p], f) != Refused
  }

  // The first `k` client frames match the first `k` recorded c2a events.
  predicate AcceptsFirst(r: Rules, events: seq<EventRecord>, frames: seq<Frame>, k: nat)
    requires k <= |frames|
  {
    forall i | 0 <= i < k :: MatchesAt(r, events, i, frames[i])
  }

  function Learn(r: Rules, idMap: map<Id, Id>, rec: EventRecord, f: Frame): map<Id, Id> {
    if r.judge(rec, f) == Slow && rec.id.Some? && f.id.Some? then idMap[rec.id.value := f.id.value] else idMap
  }

  // The ids learnt from the first `k` client frames.
  function MapAfter(r: Rules, events: seq<EventRecord>, frames: seq<Frame>, k: nat): map<Id, Id>
    requires k <= |frames|
  {
    if k == 0 then map[]
    else
      var m := MapAfter(r, events, frames, k - 1);
      var p := C2aPos(events, k - 1);
      if p < |events| then Learn(r, m, events[p], frames[k - 1]) else m
  }

  function Min(a: nat, b: nat): nat {
    if a <= b then a else b
  }

  // What is due for the a2c event at `p`: it sees the ids of the client frames before it, and no others.
  function LineFor(r: Rules, events: seq<EventRecord>, frames: seq<Frame>, p: nat): Result<Bytes, ReplayError>
    requires p < |events|
  {
    r.line(events[p], MapAfter(r, events, frames, Min(ClientFramesBefore(events, p), |frames|)))
  }

  function LineAt(r: Rules, events: seq<EventRecord>, frames: seq<Frame>, p: nat): Bytes
    requires p < |events|
  {
    match LineFor(r, events, frames, p)
    case Ok(line) => line
    case Err(_) => []
  }

  predicate CanWrite(r: Rules, events: seq<EventRecord>, frames: seq<Frame>, p: nat)
    requires p < |events|
  {
    events[p].dir == C2a || LineFor(r, events, frames, p).Ok?
  }

  ghost predicate WritableTo(r: Rules, events: seq<EventRecord>, frames: seq<Frame>, upto: nat)
    requires upto <= |events|
  {
    forall p | 0 <= p < upto :: CanWrite(r, events, frames, p)
  }

  // The first a2c event before `upto` that cannot be written; `upto` when there is none.
  function FirstUnwritable(r: Rules, events: seq<EventRecord>, frames: seq<Frame>, upto: nat): (q: nat)
    requires upto <= |events|
    ensures q <= upto && WritableTo(r, events, frames, q)
    ensures q < upto ==> !CanWrite(r, events, frames, q)
  {
    if upto == 0 then 0
    else
      var q := FirstUnwritable(r, events, frames, upto - 1);
      if q < upto - 1 || !CanWrite(r, events, frames, upto - 1) then q else upto
  }

  function LinesUpTo(r: Rules, events: seq<EventRecord>, frames: seq<Frame>, upto: nat): seq<Bytes>
    requires upto <= |events|
  {
    if upto == 0 then []
    else
      LinesUpTo(r, events, frames, upto - 1) +
      (if events[upto - 1].dir != C2a then [LineAt(r, events, frames, upto - 1)] else [])
  }

  // The state within the emit block that follows `k` client frames, standing at `p`.
  function BlockState(r: Rules, events: seq<EventRecord>, frames: seq<Frame>, k: nat, p: nat): State
    requires p <= |events| && k <= |frames|
  {
    State(p, k, MapAfter(r, events, frames, k), LinesUpTo(r, events, frames, p))
  }

  function StateAfter(r: Rules, events: seq<EventRecord>, frames: seq<Frame>, k: nat): State
    requires k <= |frames|
  {
    BlockState(r, events, frames, k, C2aPos(events, k))
  }

  // What stops an emit block at `q`: nothing at a c2a event or the end, else the event there.
  function BlockError(r: Rules, events: seq<EventRecord>, frames: seq<Frame>, q: nat): Option<ReplayError>
    requires q <= |events|
  {
    if q == |events| || CanWrite(r, events, frames, q) then None else Some(LineFor(r, events, frames, q).error)
  }

  lemma {:induction false} OneEventOfBlock(r: Rules, events: seq<EventRecord>, frames: seq<Frame>, k: nat, p: nat)
    requires k <= |frames|
    requires p < |events| && events[p].dir != C2a && ClientFramesBefore(events, p) == k
    ensures var st := BlockState(r, events, frames, k, p);
            EmitBlock(r, events, st) ==
            if CanWrite(r, events, frames, p) then EmitBlock(r, events, BlockState(r, events, frames, k, p + 1))
            else Outcome(st, Some(LineFor(r, events, frames, p).error))
  {
    EmitOneMore(r, events, BlockState(r, events, frames, k, p));
  }

  // An emit block runs up to the next c2a event, or to the first event it cannot write, and leaves the state
  // in closed form.
  lemma {:induction false} BlockRuns(r: Rules, events: seq<EventRecord>, frames: seq<Frame>, k: nat, p: nat, q: nat)
    requires k <= |frames| && (k == 0 || C2aPos(events, k - 1) < |events|)
    requires BlockStart(events, k) <= p <= q <= C2aPos(events, k)
    requires WritableTo(r, events, frames, q)
    requires q < C2aPos(events, k) ==> !CanWrite(r, events, frames, q)
    ensures EmitBlock(r, events, BlockState(r, events, frames, k, p)) ==
            Outcome(BlockState(r, events, frames, k, q), BlockError(r, events, frames, q))
    decreases q - p
  {
    if p < q {
      BlockCounts(events, k, p);
      OneEventOfBlock(r, events, frames, k, p);
      BlockRuns(r, events, frames, k, p + 1, q);
    } else {
      if q < C2aPos(events, k) {
        BlockCounts(events, k, q);
      }
      BlockStops(r, events, frames, k, q);
    }
  }

  lemma {:induction false} BlockStops(r: Rules, events: seq<EventRecord>, frames: seq<Frame>, k: nat, q: nat)
    requires k <= |frames| && q <= |events|
    requires q < |events| && events[q].dir != C2a ==>
               ClientFramesBefore(events, q) == k && !CanWrite(r, events, frames, q)
    ensures EmitBlock(r, events, BlockState(r, events, frames, k, q)) ==
            Outcome(BlockState(r, events, frames, k, q), BlockError(r, events, frames, q))
  {
    if q < |events| && events[q].dir != C2a {
      OneEventOfBlock(r, events, frames, k, q);
    }
  }

  lemma {:induction false} ClientFrameNotWritten(r: Rules, events: seq<EventRecord>, frames: seq<Frame>, p: nat)
    requires p < |events| && events[p].dir == C2a
    ensures LinesUpTo(r, events, frames, p + 1) == LinesUpTo(r, events, frames, p)
  {
    var lines := LinesUpTo(r, events, frames, p);
    assert lines + [] == lines;
  }

  // Passing a client frame teaches the map and writes nothing.
  lemma {:induction false} PassClientFrame(r: Rules, events: seq<EventRecord>, frames: seq<Frame>, k: nat)
    requires k < |frames| && C2aPos(events, k) < |events|
    ensures var st := StateAfter(r, events, frames, k);
            BlockState(r, events, frames, k + 1, st.cursor + 1) ==
            State(st.cursor + 1, k + 1, Learn(r, st.idMap, events[st.cursor], frames[k]), st.lines)
  {
    ClientFrameNotWritten(r, events, frames, C2aPos(events, k));
  }

  lemma {:induction false} AcceptStep(r: Rules, events: seq<EventRecord>, frames: seq<Frame>, k: nat)
    requires k < |frames| && MatchesAt(r, events, k, frames[k])
    ensures AcceptFrame(r, events, StateAfter(r, events, frames, k), frames[k]) ==
            Outcome(BlockState(r, events, frames, k + 1, C2aPos(events, k) + 1), None)
  {
    assert NextC2a(events, C2aPos(events, k)) == C2aPos(events, k);
    PassClientFrame(r, events, frames, k);
  }

  lemma {:induction false} RunFramesStep(r: Rules, events: seq<EventRecord>, st: State, f: Frame, rest: seq<Frame>)
    ensures var a := AcceptFrame(r, events, st, f);
            var b := EmitBlock(r, events, a.st);
            RunFrames(r, events, st, [f] + rest) ==
            if a.error.Some? then a else if b.error.Some? then b else RunFrames(r, events, b.st, rest)
  {
    assert ([f] + rest)[1..] == rest;
  }

  // What remains of the run once `k` client frames are accepted.
  function RestOfRun(r: Rules, events: seq<EventRecord>, frames: seq<Frame>, k: nat): Outcome
    requires k <= |frames|
  {
    RunFrames(r, events, StateAfter(r, events, frames, k), frames[k..])
  }

  lemma {:induction false} FramesFrom(frames: seq<Frame>, k: nat)
    requires k < |frames|
    ensures frames[k..] == [frames[k]] + frames[k + 1..]
  {}

  // One accepted frame and the block after it, which ends at `q`.
  lemma {:induction false} FrameAndBlock(r: Rules, events: seq<EventRecord>, frames: seq<Frame>, k: nat, q: nat)
    requires k < |frames| && MatchesAt(r, events, k, frames[k])
    requires BlockStart(events, k + 1) <= q <= C2aPos(events, k + 1) && WritableTo(r, events, frames, q)
    requires q < C2aPos(events, k + 1) ==> !CanWrite(r, events, frames, q)
    ensures var st, e := BlockState(r, events, frames, k + 1, q), BlockError(r, events, frames, q);
            RestOfRun(r, events, frames, k) ==
            if e.Some? then Outcome(st, e) else RunFrames(r, events, st, frames[k + 1..])
  {
    var p := C2aPos(events, k) + 1;
    AcceptStep(r, events, frames, k);
    BlockRuns(r, events, frames, k + 1, p, q);
    FramesFrom(frames, k);
    AcceptThenEmit(r, events, StateAfter(r, events, frames, k), frames[k], frames[k + 1..],
                   BlockState(r, events, frames, k + 1, p), BlockState(r, events, frames, k + 1, q),
                   BlockError(r, events, frames, q));
  }

  lemma {:induction false} AcceptThenEmit(
    r: Rules, events: seq<EventRecord>, st: State, f: Frame, rest: seq<Frame>,
    accepted: State, emitted: State, e: Option<ReplayError>)
    requires AcceptFrame(r, events, st, f) == Outcome(accepted, None)
    requires EmitBlock(r, events, accepted) == Outcome(emitted, e)
    ensures RunFrames(r, events, st, [f] + rest) ==
            if e.Some? then Outcome(emitted, e) else RunFrames(r, events, emitted, rest)
  {
    RunFramesStep(r, events, st, f, rest);
  }

  lemma {:induction false} C2aPosGrows(events: seq<EventRecord>, i: nat, k: nat)
    requires i <= k
    ensures C2aPos(events, i) <= C2aPos(events, k)
    decreases k
  {
    if i < k {
      C2aPosGrows(events, i, k - 1);
    }
  }

  lemma {:induction false} AcceptedSoFar(r: Rules, events: seq<EventRecord>, frames: seq<Frame>, k: nat)
    requires k <= |frames| && AcceptsFirst(r, events, frames, k) && WritableTo(r, events, frames, C2aPos(events, k))
    ensures RestOfRun(r, events, frames, 0) == RestOfRun(r, events, frames, k)
  {
    for i := 0 to k
      invariant RestOfRun(r, events, frames, 0) == RestOfRun(r, events, frames, i)
    {
      C2aPosGrows(events, i + 1, k);
      FrameAndBlock(r, events, frames, i, C2aPos(events, i + 1));
    }
  }

  // A frame the trace cannot match stops the run where it stands.
  lemma {:induction false} RefusedAt(r: Rules, events: seq<EventRecord>, frames: seq<Frame>, k: nat)
    requires k < |frames| && !MatchesAt(r, events, k, frames[k])
    ensures var p := C2aPos(events, k);
            var st := StateAfter(r, events, frames, k);
            RestOfRun(r, events, frames, k) == Outcome(st, Some(
              if p == |events| then TraceExhausted(None) else r.refuse(events[p], frames[k], k)))
  {
    FramesFrom(frames, k);
    var p := C2aPos(events, k);
    assert NextC2a(events, p) == p;
    RunFramesStep(r, events, StateAfter(r, events, frames, k), frames[k], frames[k + 1..]);
  }

  // The block before the first client frame.
  lemma {:induction false} FirstBlock(r: Rules, events: seq<EventRecord>, input: Input, q: nat)
    requires q <= C2aPos(events, 0) && WritableTo(r, events, input.frames, q)
    requires q < C2aPos(events, 0) ==> !CanWrite(r, events, input.frames, q)
    ensures var st, e := BlockState(r, events, input.frames, 0, q), BlockError(r, events, input.frames, q);
            Run(r, events, input) == if e.Some? then Outcome(st, e) else RunInput(r, events, st, input)
  {
    assert START == BlockState(r, events, input.frames, 0, 0);
    BlockRuns(r, events, input.frames, 0, 0, q);
  }

  // The block an a2c event belongs to.
  lemma {:induction false} BlockOf(events: seq<EventRecord>, q: nat, k: nat) returns (m: nat)
    requires q < C2aPos(events, k) && events[q].dir != C2a
    ensures m <= k && BlockStart(events, m) <= q < C2aPos(events, m)
    ensures m == ClientFramesBefore(events, q)
    decreases k
  {
    if k == 0 || C2aPos(events, k - 1) <= q {
      m := k;
      BlockCounts(events, k, q);
    } else {
      m := BlockOf(events, q, k - 1);
    }
  }

  // An a2c event that cannot be written stops the run there.
  lemma {:induction false} StopsAt(r: Rules, events: seq<EventRecord>, input: Input, k: nat, q: nat)
    requires k <= |input.frames| && AcceptsFirst(r, events, input.frames, k)
    requires q < C2aPos(events, k) && WritableTo(r, events, input.frames, q) && !CanWrite(r, events, input.frames, q)
    ensures ClientFramesBefore(events, q) <= k
    ensures Run(r, events, input) ==
            Outcome(BlockState(r, events, input.frames, ClientFramesBefore(events, q), q),
                    Some(LineFor(r, events, input.frames, q).error))
  {
    var m := BlockOf(events, q, k);
    if m == 0 {
      FirstBlock(r, events, input, q);
    } else {
      StopsLater(r, events, input, m - 1, q);
    }
  }

  lemma {:induction false} StopsLater(r: Rules, events: seq<EventRecord>, input: Input, i: nat, q: nat)
    requires i < |input.frames| && AcceptsFirst(r, events, input.frames, i + 1)
    requires BlockStart(events, i + 1) <= q < C2aPos(events, i + 1)
    requires WritableTo(r, events, input.frames, q) && !CanWrite(r, events, input.frames, q)
    ensures Run(r, events, input) ==
            Outcome(BlockState(r, events, input.frames, i + 1, q), Some(LineFor(r, events, input.frames, q).error))
  {
    var frames := input.frames;
    RunsUpTo(r, events, input, i);
    assert MatchesAt(r, events, i, frames[i]);
    FrameAndBlock(r, events, frames, i, q);
  }

  // The run as seen once `k` frames are accepted and the block after them is written.
  lemma {:induction false} RunsUpTo(r: Rules, events: seq<EventRecord>, input: Input, k: nat)
    requires k <= |input.frames| && AcceptsFirst(r, events, input.frames, k)
    requires WritableTo(r, events, input.frames, C2aPos(events, k))
    ensures var o := RestOfRun(r, events, input.frames, k);
            Run(r, events, input) ==
            if o.error.None? && input.error.Some? then Outcome(o.st, Some(WireFailure(input.error.value))) else o
  {
    C2aPosGrows(events, 0, k);
    FirstBlock(r, events, input, C2aPos(events, 0));
    assert input.frames[0..] == input.frames;
    AcceptedSoFar(r, events, input.frames, k);
  }

  // How a run ends that wrote everything due after `k` accepted frames and could accept no more.
  function Ending(r: Rules, events: seq<EventRecord>, input: Input, k: nat): Option<ReplayError>
    requires k <= |input.frames|
  {
    var clients := Project(events, C2a);
    if k == |input.frames| then
      match input.error
      case None => None
      case Some(e) => Some(WireFailure(e))
    else if k >= |clients| then Some(TraceExhausted(None))
    else Some(r.refuse(clients[k], input.frames[k], k))
  }

  // `k` is the number of leading client frames that match the recorded c2a events.
  ghost predicate Accepted(r: Rules, events: seq<EventRecord>, frames: seq<Frame>, k: nat) {
    && k <= |frames| && AcceptsFirst(r, events, frames, k)
    && (k < |frames| ==> !MatchesAt(r, events, k, frames[k]))
  }

  lemma {:induction false} EndsAfter(r: Rules, events: seq<EventRecord>, input: Input, k: nat)
    requires Accepted(r, events, input.frames, k) && WritableTo(r, events, input.frames, C2aPos(events, k))
    ensures Run(r, events, input) == Outcome(StateAfter(r, events, input.frames, k), Ending(r, events, input, k))
  {
    var frames := input.frames;
    RunsUpTo(r, events, input, k);
    C2aPosEnumerates(events, k);
    if k < |frames| {
      RefusedAt(r, events, frames, k);
    }
  }

  /** Exactly what a replay does, strict or remapping, on any client stream and any trace. With `k` the number
      of leading client frames that match, it writes every a2c event before the (k+1)-st c2a event, up to the
      first that cannot be written, whose error it then returns. Otherwise it ends with the stream, with the
      stream's own error, with the trace exhausted, or with frame `k` diverging. Output, cursor, id map and
      number of frames consumed are in closed form in every case. */
  lemma {:induction false} RunCharacterized(r: Rules, events: seq<EventRecord>, input: Input, k: nat)
    requires Accepted(r, events, input.frames, k)
    ensures var p := C2aPos(events, k);
            var q := FirstUnwritable(r, events, input.frames, p);
            && (q < p ==> ClientFramesBefore(events, q) <= k)
            && Run(r, events, input) ==
               if q < p then
                 Outcome(BlockState(r, events, input.frames, ClientFramesBefore(events, q), q),
                         Some(LineFor(r, events, input.frames, q).error))
               else Outcome(StateAfter(r, events, input.frames, k), Ending(r, events, input, k))
  {
    var q := FirstUnwritable(r, events, input.frames, C2aPos(events, k));
    if q < C2aPos(events, k) {
      StopsAt(r, events, input, k, q);
    } else {
      EndsAfter(r, events, input, k);
    }
  }

  // The longest accepted prefix, found by looking.
  lemma {:induction false} LongestAccepted(r: Rules, events: seq<EventRecord>, frames: seq<Frame>) returns (k: nat)
    ensures Accepted(r, events, frames, k)
  {
    k := 0;
    while k < |frames| && MatchesAt(r, events, k, frames[k])
      invariant k <= |frames| && AcceptsFirst(r, events, frames, k)
    {
      k := k + 1;
    }
  }

  /** A replay succeeds exactly when the client's stream can be read, its frames match a prefix of the recorded
      c2a events one by one, and every a2c event before the next can be written; it then ends in the
      closed-form state. */
  lemma {:induction false} SucceedsExactly(r: Rules, events: seq<EventRecord>, input: Input)
    ensures var o, n := Run(r, events, input), |input.frames|;
            var clients := Project(events, C2a);
            && (o.error == None <==>
                && input.error == None && n <= |clients|
                && (forall i | 0 <= i < n :: r.judge(clients[i], input.frames[i]) != Refused)
                && WritableTo(r, events, input.frames, C2aPos(events, n)))
            && (o.error == None ==> o.st == StateAfter(r, events, input.frames, n))
  {
    var clients, n := Project(events, C2a), |input.frames|;
    var k := LongestAccepted(r, events, input.frames);
    RunCharacterized(r, events, input, k);
    forall i | 0 <= i < n
      ensures MatchesAt(r, events, i, input.frames[i]) <==>
              i < |clients| && r.judge(clients[i], input.frames[i]) != Refused
    {
      C2aPosEnumerates(events, i);
    }
    if k == n && k > 0 {
      assert MatchesAt(r, events, k - 1, input.frames[k - 1]);
    }
  }

  /** One line is written per a2c event before the cursor: none is skipped or repeated. */
  lemma {:induction false} LinesCounted(r: Rules, events: seq<EventRecord>, frames: seq<Frame>, upto: nat)
    requires upto <= |events|
    ensures |LinesUpTo(r, events, frames, upto)| + ClientFramesBefore(events, upto) == upto
    decreases upto
  {
    if upto > 0 {
      LinesCounted(r, events, frames, upto - 1);
    }
  }

  // Where the line of the event at `p` stands in the output.
  lemma {:induction false} LineStandsAt(r: Rules, events: seq<EventRecord>, frames: seq<Frame>, p: nat, upto: nat)
    requires p < upto <= |events| && events[p].dir != C2a
    ensures var n := p - ClientFramesBefore(events, p);
            0 <= n < |LinesUpTo(r, events, frames, upto)| &&
            LinesUpTo(r, events, frames, upto)[n] == LineAt(r, events, frames, p)
    decreases upto
  {
    LinesCounted(r, events, frames, p);
    if p + 1 < upto {
      LineStandsAt(r, events, frames, p, upto - 1);
    }
  }

  // The lines of the a2c events before a position, when each depends on its event alone.
  function PlainLines(events: seq<EventRecord>, text: EventRecord -> Bytes, upto: nat): seq<Bytes>
    requires upto <= |events|
  {
    if upto == 0 then []
    else PlainLines(events, text, upto - 1) + (if events[upto - 1].dir != C2a then [text(events[upto - 1])] else [])
  }

  lemma {:induction false} PlainStandsAt(events: seq<EventRecord>, text: EventRecord -> Bytes, p: nat, upto: nat)
    requires p <= upto <= |events|
    ensures |PlainLines(events, text, upto)| + ClientFramesBefore(events, upto) == upto
    ensures var n := p - ClientFramesBefore(events, p);
            p < upto && events[p].dir != C2a ==>
              0 <= n < |PlainLines(events, text, upto)| && PlainLines(events, text, upto)[n] == text(events[p])
    decreases upto
  {
    if p < upto {
      PlainStandsAt(events, text, p, upto - 1);
      if p == upto - 1 {
        assert |PlainLines(events, text, p)| == p - ClientFramesBefore(events, p);
      }
    } else if upto > 0 {
      PlainStandsAt(events, text, upto - 1, upto - 1);
    }
  }

  // The lines due before `upto` depend on their events alone.
  ghost predicate PlainTo(
    r: Rules, events: seq<EventRecord>, frames: seq<Frame>, text: EventRecord -> Bytes, upto: nat)
    requires upto <= |events|
  {
    forall p | 0 <= p < upto :: PlainAt(r, events, frames, text, p)
  }

  predicate PlainAt(r: Rules, events: seq<EventRecord>, frames: seq<Frame>, text: EventRecord -> Bytes, p: nat)
    requires p < |events|
  {
    events[p].dir != C2a ==> LineAt(r, events, frames, p) == text(events[p])
  }

  lemma {:induction false} LinesArePlain(
    r: Rules, events: seq<EventRecord>, frames: seq<Frame>, text: EventRecord -> Bytes, upto: nat)
    requires upto <= |events|
    requires PlainTo(r, events, frames, text, upto)
    ensures LinesUpTo(r, events, frames, upto) == PlainLines(events, text, upto)
    decreases upto
  {
    if upto > 0 {
      LinesArePlain(r, events, frames, text, upto - 1);
      LastLineIsPlain(r, events, frames, text, upto - 1);
    }
  }

  lemma {:induction false} LastLineIsPlain(
    r: Rules, events: seq<EventRecord>, frames: seq<Frame>, text: EventRecord -> Bytes, p: nat)
    requires p < |events| && LinesUpTo(r, events, frames, p) == PlainLines(events, text, p)
    requires PlainAt(r, events, frames, text, p)
    ensures LinesUpTo(r, events, frames, p + 1) == PlainLines(events, text, p + 1)
  {}

  // A run that consumes every recorded client frame has written a line for every a2c event of the trace.
  lemma {:induction false} CompleteRun(r: Rules, events: seq<EventRecord>, frames: seq<Frame>)
    requires |frames| == |Project(events, C2a)|
    requires Run(r, events, Input(frames, None)).error == None
    ensures Run(r, events, Input(frames, None)).st.lines == LinesUpTo(r, events, frames, |events|)
  {
    SucceedsExactly(r, events, Input(frames, None));
    C2aPosEnumerates(events, |frames|);
  }
}
