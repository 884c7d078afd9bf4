/** The recording proxy as a step system: two threads that read, forward and record frames through a
    mutex-guarded writer slot, and the main thread that finally takes the writer out of the slot. */
module Proxy {
  import opened Base
  import opened Json
  import opened Wire
  import opened Trace

  // Where a forwarding thread stands with the frame in its hands. `Locked` and `Filled` hold the mutex.
  datatype Pc = Idle | Forwarded(frame: Frame) | Locked(frame: Frame) | Filled(frame: Frame) | Stopped

  // A thread, and what it has written to its sink so far.
  datatype Thread = Thread(pc: Pc, sent: seq<Frame>)

  datatype Final = Final(store: Store, eventCount: nat)

  datatype ProxyState = ProxyState(
    c2a: Thread,
    a2c: Thread,
    lock: Option<Direction>,
    slot: Option<Store>,    // the writer, until it is taken
    final: Option<Final>,   // the finished trace
    hist: seq<Entry>)       // completed `record` calls, in order

  datatype Action =
    | Forward(dir: Direction, frame: Frame)    // read a frame and write it to the sink
    | Acquire(dir: Direction)                  // lock the slot and look inside
    | Fill(dir: Direction)                     // `record`: the blob
    | Append(dir: Direction, now: nat)         // `record`: the event; then unlock
    | Stop(dir: Direction)                     // end of the stream
    | Finalize                                 // main: a2c joined; lock, take, finalize, unlock

  function ThreadOf(s: ProxyState, dir: Direction): Thread {
    match dir case C2a => s.c2a case A2c => s.a2c
  }

  function PcOf(s: ProxyState, dir: Direction): Pc {
    ThreadOf(s, dir).pc
  }

  function WithThread(s: ProxyState, dir: Direction, t: Thread): ProxyState {
    match dir case C2a => s.(c2a := t) case A2c => s.(a2c := t)
  }

  function WithPc(s: ProxyState, dir: Direction, pc: Pc): ProxyState {
    WithThread(s, dir, Thread(pc, ThreadOf(s, dir).sent))
  }

  function Init(existing: Blobs): ProxyState {
    ProxyState(Thread(Idle, []), Thread(Idle, []), None, Some(Store(existing, [], 0)), None, [])
  }

  predicate Enabled(w: World, s: ProxyState, a: Action) {
    match a
    case Forward(d, f) => PcOf(s, d) == Idle && IsFrame(w, f)
    case Acquire(d) => PcOf(s, d).Forwarded? && s.lock == None
    case Fill(d) => PcOf(s, d).Locked? && s.slot.Some?
    case Append(d, _) => PcOf(s, d).Filled? && s.slot.Some?
    case Stop(d) => PcOf(s, d) == Idle
    case Finalize => s.a2c.pc == Stopped && s.lock == None && s.slot.Some?
  }

  function Apply(w: World, s: ProxyState, a: Action): ProxyState
    requires Enabled(w, s, a)
  {
    match a
    case Forward(d, f) => WithThread(s, d, Thread(Forwarded(f), ThreadOf(s, d).sent + [f]))
    case Acquire(d) =>
      if s.slot.None? then WithPc(s, d, Idle)  // the writer is gone: nothing is recorded
      else WithPc(s, d, Locked(PcOf(s, d).frame)).(lock := Some(d))
    case Fill(d) =>
      var f := PcOf(s, d).frame;
      WithPc(s, d, Filled(f)).(slot := Some(FillStore(w, s.slot.value, f)))
    case Append(d, now) =>
      var e := Entry(d, now, PcOf(s, d).frame);
      WithPc(s, d, Idle).(lock := None, slot := Some(AppendEvent(w, s.slot.value, e)), hist := s.hist + [e])
    case Stop(d) => WithPc(s, d, Stopped)
    case Finalize => s.(slot := None, final := Some(Final(s.slot.value, s.slot.value.nextSeq)))
  }

  // Any schedule: a list of actions each of which is possible when its turn comes.
  predicate ValidRun(w: World, s: ProxyState, acts: seq<Action>)
    decreases |acts|
  {
    acts == [] || (Enabled(w, s, acts[0]) && ValidRun(w, Apply(w, s, acts[0]), acts[1..]))
  }

  function Exec(w: World, s: ProxyState, acts: seq<Action>): ProxyState
    requires ValidRun(w, s, acts)
    decreases |acts|
  {
    if acts == [] then s else Exec(w, Apply(w, s, acts[0]), acts[1..])
  }

  // ---- the invariant ----

  // The frame a thread has forwarded but not yet finished recording.
  function Pending(pc: Pc): seq<Frame> {
    match pc
    case Forwarded(f) => [f]
    case Locked(f) => [f]
    case Filled(f) => [f]
    case _ => []
  }

  // The frame whose blob is written but whose event is not.
  function InFlight(s: ProxyState): seq<Frame> {
    if s.c2a.pc.Filled? then [s.c2a.pc.frame] else if s.a2c.pc.Filled? then [s.a2c.pc.frame] else []
  }

  predicate HoldsLock(pc: Pc) {
    pc.Locked? || pc.Filled?
  }

  // The mutex excludes: a thread inside `record` holds it, and the writer is then in the slot.
  ghost predicate LockInv(s: ProxyState) {
    && (HoldsLock(s.c2a.pc) <==> s.lock == Some(C2a))
    && (HoldsLock(s.a2c.pc) <==> s.lock == Some(A2c))
    && (s.lock.Some? ==> s.slot.Some?)
    && (s.slot.Some? <==> s.final.None?)
  }

  // The writer's state, wherever it is.
  function Log(s: ProxyState): Store
    requires s.slot.Some? || s.final.Some?
  {
    if s.slot.Some? then s.slot.value else s.final.value.store
  }

  // The store after `hist` has been recorded and the blobs of `flying` written.
  ghost predicate StoreIs(w: World, start: Blobs, hist: seq<Entry>, flying: seq<Frame>, st: Store) {
    st == Store(BlobsAfter(w, start, Frames(hist) + flying), EventsOf(w, hist), |hist|)
  }

  ghost predicate LogInv(w: World, start: Blobs, s: ProxyState)
    requires LockInv(s)
  {
    StoreIs(w, start, s.hist, InFlight(s), Log(s))
  }

  // Every frame handled came out of the frame parser.
  ghost predicate FramesInv(w: World, s: ProxyState) {
    && AllFrames(w, s.c2a.sent) && AllFrames(w, s.a2c.sent) && AllFrames(w, Frames(s.hist))
    && AllFrames(w, Pending(s.c2a.pc)) && AllFrames(w, Pending(s.a2c.pc))
  }

  // What is recorded of a direction is what was forwarded, but for the frame in hand; once the writer is
  // gone it is a prefix of what was forwarded.
  ghost predicate InStep(s: ProxyState, dir: Direction) {
    && (s.slot.Some? ==> ThreadOf(s, dir).sent == Recordings(s.hist, dir) + Pending(PcOf(s, dir)))
    && (s.slot.None? ==> Recordings(s.hist, dir) <= ThreadOf(s, dir).sent)
  }

  ghost predicate OrderInv(s: ProxyState) {
    && InStep(s, C2a) && InStep(s, A2c)
    && (s.slot.None? ==> s.a2c.pc == Stopped && Recordings(s.hist, A2c) == s.a2c.sent)
    && (s.final.Some? ==> s.final.value.eventCount == s.final.value.store.nextSeq)
  }

  ghost predicate Inv(w: World, start: Blobs, s: ProxyState) {
    LockInv(s) && LogInv(w, start, s) && FramesInv(w, s) && OrderInv(s)
  }

  lemma {:induction false} InitInv(w: World, start: Blobs)
    ensures Inv(w, start, Init(start))
  {
    assert Frames([]) + [] == [];
  }

  lemma {:induction false} LockStep(w: World, s: ProxyState, a: Action)
    requires LockInv(s) && Enabled(w, s, a)
    ensures LockInv(Apply(w, s, a))
  {}

  lemma {:induction false} FillStep(w: World, start: Blobs, hist: seq<Entry>, f: Frame, st: Store)
    requires StoreIs(w, start, hist, [], st)
    ensures StoreIs(w, start, hist, [f], FillStore(w, st, f))
  {
    assert Frames(hist) + [] == Frames(hist);
    RecordedStep(w, start, hist, Entry(C2a, 0, f));
  }

  lemma {:induction false} AppendStep(w: World, start: Blobs, hist: seq<Entry>, e: Entry, st: Store)
    requires StoreIs(w, start, hist, [e.frame], st)
    ensures StoreIs(w, start, hist + [e], [], AppendEvent(w, st, e))
  {
    assert Frames(hist + [e]) + [] == Frames(hist) + [e.frame];
    assert EventsOf(w, hist + [e]) == EventsOf(w, hist) + [EventOf(w, |hist|, e)];
  }

  lemma {:induction false} LogUntouched(w: World, s: ProxyState, a: Action)
    requires LockInv(s) && Enabled(w, s, a) && !a.Fill? && !a.Append?
    ensures var s' := Apply(w, s, a);
            LockInv(s') && s'.hist == s.hist && InFlight(s') == InFlight(s) && Log(s') == Log(s)
  {
    LockStep(w, s, a);
  }

  lemma {:induction false} FillTouches(w: World, s: ProxyState, d: Direction)
    requires LockInv(s) && Enabled(w, s, Fill(d))
    ensures var s', f := Apply(w, s, Fill(d)), PcOf(s, d).frame;
            && LockInv(s') && s'.hist == s.hist && InFlight(s) == [] && InFlight(s') == [f]
            && Log(s') == FillStore(w, Log(s), f)
  {
    LockStep(w, s, Fill(d));
  }

  lemma {:induction false} AppendTouches(w: World, s: ProxyState, d: Direction, now: nat)
    requires LockInv(s) && Enabled(w, s, Append(d, now))
    ensures var s', e := Apply(w, s, Append(d, now)), Entry(d, now, PcOf(s, d).frame);
            && LockInv(s') && s'.hist == s.hist + [e] && InFlight(s) == [e.frame] && InFlight(s') == []
            && Log(s') == AppendEvent(w, Log(s), e)
  {
    LockStep(w, s, Append(d, now));
  }

  lemma {:induction false} LogStep(w: World, start: Blobs, s: ProxyState, a: Action)
    requires LockInv(s) && LogInv(w, start, s) && Enabled(w, s, a)
    ensures LockInv(Apply(w, s, a)) && LogInv(w, start, Apply(w, s, a))
  {
    match a
    case Fill(d) =>
      FillTouches(w, s, d);
      FillStep(w, start, s.hist, PcOf(s, d).frame, Log(s));
    case Append(d, now) =>
      AppendTouches(w, s, d, now);
      AppendStep(w, start, s.hist, Entry(d, now, PcOf(s, d).frame), Log(s));
    case _ => LogUntouched(w, s, a);
  }

  lemma {:induction false} AllFramesPush(w: World, fs: seq<Frame>, f: Frame)
    requires AllFrames(w, fs) && IsFrame(w, f)
    ensures AllFrames(w, fs + [f]) && AllFrames(w, [f])
  {}

  lemma {:induction false} FramesStep(w: World, s: ProxyState, a: Action)
    requires FramesInv(w, s) && Enabled(w, s, a)
    ensures FramesInv(w, Apply(w, s, a))
  {
    match a
    case Forward(d, f) => AllFramesPush(w, ThreadOf(s, d).sent, f);
    case Append(d, now) =>
      var f := PcOf(s, d).frame;
      assert IsFrame(w, Pending(PcOf(s, d))[0]);
      AllFramesPush(w, Frames(s.hist), f);
      assert Frames(s.hist + [Entry(d, now, f)]) == Frames(s.hist) + [f];
    case _ =>
      forall d: Direction ensures
        Pending(PcOf(Apply(w, s, a), d)) == Pending(PcOf(s, d)) || Pending(PcOf(Apply(w, s, a), d)) == [] {}
  }

  lemma {:induction false} RecordingsPush(hist: seq<Entry>, e: Entry, dir: Direction)
    ensures Recordings(hist + [e], dir) == Recordings(hist, dir) + (if e.dir == dir then [e.frame] else [])
  {
    RecordingsOfPrefix(hist, e, dir, |hist|);
  }

  lemma {:induction false} InStepAfter(w: World, s: ProxyState, a: Action, dir: Direction)
    requires LockInv(s) && InStep(s, dir) && Enabled(w, s, a)
    ensures InStep(Apply(w, s, a), dir)
  {
    if a.Append? {
      InStepAppend(w, s, a.dir, a.now, dir);
    }
  }

  lemma {:induction false} InStepAppend(w: World, s: ProxyState, d: Direction, now: nat, dir: Direction)
    requires LockInv(s) && InStep(s, dir) && Enabled(w, s, Append(d, now))
    ensures InStep(Apply(w, s, Append(d, now)), dir)
  {
    var f, recorded := PcOf(s, d).frame, Recordings(s.hist, dir);
    RecordingsPush(s.hist, Entry(d, now, f), dir);
    assert (recorded + [f]) + [] == recorded + [f] && recorded + [] == recorded;
  }

  lemma {:induction false} OrderStep(w: World, s: ProxyState, a: Action)
    requires LockInv(s) && OrderInv(s) && Enabled(w, s, a)
    ensures OrderInv(Apply(w, s, a))
  {
    InStepAfter(w, s, a, C2a);
    InStepAfter(w, s, a, A2c);
  }

  lemma {:induction false} StepKeepsInv(w: World, start: Blobs, s: ProxyState, a: Action)
    requires Inv(w, start, s) && Enabled(w, s, a)
    ensures Inv(w, start, Apply(w, s, a))
  {
    LogStep(w, start, s, a);
    FramesStep(w, s, a);
    OrderStep(w, s, a);
  }

  /** Every state of every schedule satisfies the invariant. */
  lemma {:induction false} ReachableInv(w: World, start: Blobs, s: ProxyState, acts: seq<Action>)
    requires Inv(w, start, s) && ValidRun(w, s, acts)
    ensures Inv(w, start, Exec(w, s, acts))
    decreases |acts|
  {
    if acts != [] {
      StepKeepsInv(w, start, s, acts[0]);
      ReachableInv(w, start, Apply(w, s, acts[0]), acts[1..]);
    }
  }

  // ---- what the invariant says of whole runs ----

  // A state some schedule reaches from a fresh writer over the given blob directory.
  ghost predicate Reached(w: World, start: Blobs, acts: seq<Action>, s: ProxyState) {
    ValidRun(w, Init(start), acts) && Exec(w, Init(start), acts) == s
  }

  lemma {:induction false} ReachedInv(w: World, start: Blobs, acts: seq<Action>, s: ProxyState)
    requires Reached(w, start, acts, s)
    ensures Inv(w, start, s)
  {
    InitInv(w, start);
    ReachableInv(w, start, Init(start), acts);
  }

  /** Concurrent recording, for every schedule: in each direction the log holds the forwarded frames in
      order, at most one behind until the writer is taken; from then on the a2c side is complete, the c2a
      side a prefix, and the manifest's count is the length of the log. */
  lemma {:induction false} ConcurrentRecording(w: World, start: Blobs, acts: seq<Action>, s: ProxyState)
    requires Reached(w, start, acts, s)
    ensures s.slot.Some? || s.final.Some?
    ensures Log(s).events == EventsOf(w, s.hist) && Log(s).nextSeq == |Log(s).events|
    ensures forall i | 0 <= i < |Log(s).events| ::
              var e, h := Log(s).events[i], s.hist[i];
              e.seqNo == i && e.dir == h.dir && e.tWallNs == h.now && e.bytes == |h.frame.raw|
    ensures forall d :: Recordings(s.hist, d) <= ThreadOf(s, d).sent
    ensures s.final.None? ==> forall d :: |ThreadOf(s, d).sent| <= |Recordings(s.hist, d)| + 1
    ensures s.final.Some? ==> Recordings(s.hist, A2c) == s.a2c.sent
    ensures s.final.Some? ==> s.final.value.eventCount == |s.final.value.store.events|
  {
    ReachedInv(w, start, acts, s);
    forall d ensures Recordings(s.hist, d) <= ThreadOf(s, d).sent
                     && (s.final.None? ==> |ThreadOf(s, d).sent| <= |Recordings(s.hist, d)| + 1) {
      match d
      case C2a => assert InStep(s, C2a);
      case A2c => assert InStep(s, A2c);
    }
  }

  /** Store safety, for every schedule and at every cut between a blob and its event: every logged event
      loads, as a frame with the event's hash, and every blob lies where its hash says. */
  lemma {:induction false} StoreIsSafe(w: World, start: Blobs, acts: seq<Action>, s: ProxyState)
    requires Sound(w) && GoodBlobs(w, start) && Reached(w, start, acts, s)
    ensures s.slot.Some? || s.final.Some?
    ensures GoodBlobs(w, Log(s).blobs)
    ensures forall i | 0 <= i < |Log(s).events| :: LoadBlob(w, Log(s).blobs, Log(s).events[i]).Ok?
  {
    ReachedInv(w, start, acts, s);
    var fs := Frames(s.hist) + InFlight(s);
    assert AllFrames(w, InFlight(s)) by {
      assert InFlight(s) == Pending(s.c2a.pc) || InFlight(s) == Pending(s.a2c.pc) || InFlight(s) == [];
    }
    BlobsStayGood(w, start, fs);
    forall i | 0 <= i < |Log(s).events| ensures LoadBlob(w, Log(s).blobs, Log(s).events[i]).Ok? {
      EventsLoad(w, start, fs, i, Log(s).events[i]);
    }
  }

  /** Short of a hash collision, what an event loads is a frame of the same kind, method and id, even when
      its blob came from an earlier frame with permuted keys. */
  lemma {:induction false} LoggedEventsAgree(w: World, start: Blobs, acts: seq<Action>, s: ProxyState, i: nat)
    requires Sound(w) && GoodBlobs(w, start) && Reached(w, start, acts, s)
    requires NoCollisionInRun(w, start, Frames(s.hist) + InFlight(s)) && i < |s.hist|
    ensures (s.slot.Some? || s.final.Some?) && i < |Log(s).events|
    ensures var e, b := Log(s).events[i], LoadBlob(w, Log(s).blobs, Log(s).events[i]);
            && b.Ok? && ParseFrame(w, b.value).Ok?
            && var g := ParseFrame(w, b.value).value;
               g.kind == e.kind && g.method_ == e.method_ && g.id == e.id && Same(g.value, s.hist[i].frame.value)
  {
    ReachedInv(w, start, acts, s);
    var fs := Frames(s.hist) + InFlight(s);
    assert InFlight(s) == Pending(s.c2a.pc) || InFlight(s) == Pending(s.a2c.pc) || InFlight(s) == [];
    assert fs[i] == s.hist[i].frame;
    EventsLoad(w, start, fs, i, Log(s).events[i]);
    LoadedFrameAgrees(w, start, fs, i);
  }

  lemma {:induction false} StepKeepsBlobs(w: World, s: ProxyState, a: Action, p: Path)
    requires LockInv(s) && Enabled(w, s, a) && p in Log(s).blobs
    ensures LockInv(Apply(w, s, a))
    ensures p in Log(Apply(w, s, a)).blobs && Log(Apply(w, s, a)).blobs[p] == Log(s).blobs[p]
  {
    match a
    case Fill(d) => FillTouches(w, s, d);
    case Append(d, now) => AppendTouches(w, s, d, now);
    case _ => LogUntouched(w, s, a);
  }

  /** A blob, once written, stays as it is through every later step. */
  lemma {:induction false} BlobsArePermanent(w: World, s: ProxyState, acts: seq<Action>, p: Path)
    requires LockInv(s) && ValidRun(w, s, acts) && p in Log(s).blobs
    ensures LockInv(Exec(w, s, acts))
    ensures p in Log(Exec(w, s, acts)).blobs && Log(Exec(w, s, acts)).blobs[p] == Log(s).blobs[p]
    decreases |acts|
  {
    if acts != [] {
      StepKeepsBlobs(w, s, acts[0], p);
      BlobsArePermanent(w, Apply(w, s, acts[0]), acts[1..], p);
    }
  }

  // ---- what the proxy does not promise ----

  lemma {:induction false} RunsTo(w: World, s: ProxyState, a: Action, rest: seq<Action>)
    requires Enabled(w, s, a) && ValidRun(w, Apply(w, s, a), rest)
    ensures ValidRun(w, s, [a] + rest) && Exec(w, s, [a] + rest) == Exec(w, Apply(w, s, a), rest)
  {
    assert ([a] + rest)[1..] == rest;
  }

  // The three steps of a thread that records the frame in its hands.
  function Recording(d: Direction, now: nat): seq<Action> {
    [Acquire(d), Fill(d), Append(d, now)]
  }

  // They amount to one `record` call on the writer in the slot.
  function AfterRecord(w: World, s: ProxyState, d: Direction, now: nat): ProxyState
    requires PcOf(s, d).Forwarded? && s.slot.Some?
  {
    var e := Entry(d, now, PcOf(s, d).frame);
    WithPc(s, d, Idle).(slot := Some(RecordEntry(w, s.slot.value, e)), hist := s.hist + [e])
  }

  lemma {:induction false} RecordRuns(w: World, s: ProxyState, d: Direction, now: nat, rest: seq<Action>)
    requires PcOf(s, d).Forwarded? && s.slot.Some? && s.lock == None
    requires ValidRun(w, AfterRecord(w, s, d, now), rest)
    ensures var acts := Recording(d, now) + rest;
            ValidRun(w, s, acts) && Exec(w, s, acts) == Exec(w, AfterRecord(w, s, d, now), rest)
  {
    var s1 := Apply(w, s, Acquire(d));
    var s2 := Apply(w, s1, Fill(d));
    assert Apply(w, s2, Append(d, now)) == AfterRecord(w, s, d, now);
    RunsTo(w, s2, Append(d, now), rest);
    RunsTo(w, s1, Fill(d), [Append(d, now)] + rest);
    RunsTo(w, s, Acquire(d), [Fill(d)] + ([Append(d, now)] + rest));
    assert [Acquire(d)] + ([Fill(d)] + ([Append(d, now)] + rest)) == Recording(d, now) + rest;
  }

  // The agent's answer is recorded before the request it answers; then the trace is finished.
  function OvertakingRun(request: Frame, response: Frame): seq<Action> {
    [Forward(C2a, request)] +
    ([Forward(A2c, response)] + (Recording(A2c, 0) + (Recording(C2a, 0) + ([Stop(A2c)] + [Finalize]))))
  }

  // Where both frames are forwarded and none is recorded.
  function BothForwarded(start: Blobs, request: Frame, response: Frame): ProxyState {
    ProxyState(Thread(Forwarded(request), [request]), Thread(Forwarded(response), [response]),
               None, Some(Store(start, [], 0)), None, [])
  }

  lemma {:induction false} BothAreForwarded(w: World, start: Blobs, request: Frame, response: Frame, rest: seq<Action>)
    requires IsFrame(w, request) && IsFrame(w, response)
    requires ValidRun(w, BothForwarded(start, request, response), rest)
    ensures var acts := [Forward(C2a, request)] + ([Forward(A2c, response)] + rest);
            && ValidRun(w, Init(start), acts)
            && Exec(w, Init(start), acts) == Exec(w, BothForwarded(start, request, response), rest)
  {
    var s1 := Apply(w, Init(start), Forward(C2a, request));
    assert [] + [request] == [request] && [] + [response] == [response];
    assert Apply(w, s1, Forward(A2c, response)) == BothForwarded(start, request, response);
    RunsTo(w, s1, Forward(A2c, response), rest);
    RunsTo(w, Init(start), Forward(C2a, request), [Forward(A2c, response)] + rest);
  }

  // With nothing in hand the a2c thread can stop and the trace be finished.
  lemma {:induction false} Finishes(w: World, s: ProxyState)
    requires s.a2c.pc == Idle && s.lock == None && s.slot.Some?
    ensures var acts := [Stop(A2c)] + [Finalize];
            && ValidRun(w, s, acts) && Exec(w, s, acts).final.Some?
            && Exec(w, s, acts).hist == s.hist && Exec(w, s, acts).c2a == s.c2a
  {
    RunsTo(w, Apply(w, s, Stop(A2c)), Finalize, []);
    RunsTo(w, s, Stop(A2c), [Finalize]);
  }

  /** Frames are forwarded before they are recorded, so a response may be logged before its request. */
  lemma {:induction false} ResponseMayBeLoggedFirst(w: World, start: Blobs, request: Frame, response: Frame)
    requires IsFrame(w, request) && IsFrame(w, response)
    ensures var acts := OvertakingRun(request, response);
            ValidRun(w, Init(start), acts) &&
            var s := Exec(w, Init(start), acts);
            s.final.Some? && s.hist == [Entry(A2c, 0, response), Entry(C2a, 0, request)]
  {
    var s2 := BothForwarded(start, request, response);
    var s3 := AfterRecord(w, s2, A2c, 0);
    var s4 := AfterRecord(w, s3, C2a, 0);
    var finish := [Stop(A2c)] + [Finalize];
    Finishes(w, s4);
    RecordRuns(w, s3, C2a, 0, finish);
    RecordRuns(w, s2, A2c, 0, Recording(C2a, 0) + finish);
    BothAreForwarded(w, start, request, response, Recording(A2c, 0) + (Recording(C2a, 0) + finish));
    TwoAppended(Entry(A2c, 0, response), Entry(C2a, 0, request), s4.hist);
  }

  lemma {:induction false} TwoAppended<T>(x: T, y: T, s: seq<T>)
    requires s == [] + [x] + [y]
    ensures s == [x, y]
  {}

  // Once the writer is taken, the c2a thread forwards frames that never reach the log.
  lemma {:induction false} LateFramesAreNotRecorded(w: World, start: Blobs, f: Frame)
    requires IsFrame(w, f)
    ensures var acts := [Stop(A2c)] + ([Finalize] + [Forward(C2a, f), Acquire(C2a)]);
            ValidRun(w, Init(start), acts) &&
            var s := Exec(w, Init(start), acts);
            s.c2a == Thread(Idle, [f]) && s.final.Some? && s.hist == []
  {
    var s1 := Apply(w, Init(start), Stop(A2c));
    var s2 := Apply(w, s1, Finalize);
    var s3 := Apply(w, s2, Forward(C2a, f));
    assert [] + [f] == [f];
    RunsTo(w, s3, Acquire(C2a), []);
    RunsTo(w, s2, Forward(C2a, f), [Acquire(C2a)]);
    assert [Forward(C2a, f)] + [Acquire(C2a)] == [Forward(C2a, f), Acquire(C2a)];
    RunsTo(w, s1, Finalize, [Forward(C2a, f), Acquire(C2a)]);
    RunsTo(w, Init(start), Stop(A2c), [Finalize] + [Forward(C2a, f), Acquire(C2a)]);
  }

  predicate ForwardsNone(acts: seq<Action>, d: Direction) {
    forall i | 0 <= i < |acts| :: !(acts[i].Forward? && acts[i].dir == d)
  }

  // Once the writer is taken nothing more is logged, and only a `Forward` changes what was sent.
  lemma {:induction false} AfterFinalize(w: World, s: ProxyState, acts: seq<Action>)
    requires LockInv(s) && s.final.Some? && ValidRun(w, s, acts)
    ensures var s' := Exec(w, s, acts);
            && s'.hist == s.hist && |s.c2a.sent| <= |s'.c2a.sent|
            && (|s.c2a.sent| == |s'.c2a.sent| <==> ForwardsNone(acts, C2a))
            && (ForwardsNone(acts, C2a) ==> s'.c2a.sent == s.c2a.sent)
    decreases |acts|
  {
    if acts != [] {
      var s1 := Apply(w, s, acts[0]);
      LockStep(w, s, acts[0]);
      AfterFinalize(w, s1, acts[1..]);
      assert forall i | 0 < i < |acts| :: acts[i] == acts[1..][i - 1];
      assert forall i | 0 <= i < |acts| - 1 :: acts[1..][i] == acts[i + 1];
    }
  }

  /** What is recorded of the client's side, exactly: all of it if and only if, when the writer was taken, no
      client frame was waiting to be recorded, and none was forwarded afterwards. */
  lemma {:induction false} ClientSideComplete(
    w: World, start: Blobs, before: seq<Action>, s: ProxyState, after: seq<Action>)
    requires Reached(w, start, before, s) && Enabled(w, s, Finalize) && ValidRun(w, Apply(w, s, Finalize), after)
    ensures var s' := Exec(w, Apply(w, s, Finalize), after);
            Recordings(s'.hist, C2a) == s'.c2a.sent <==>
            !s.c2a.pc.Forwarded? && ForwardsNone(after, C2a)
  {
    ReachedInv(w, start, before, s);
    StepKeepsInv(w, start, s, Finalize);
    AfterFinalize(w, Apply(w, s, Finalize), after);
    assert InStep(s, C2a);
  }

  // ---- the order of the log ----

  /** The log is append-only along every schedule. */
  lemma {:induction false} LogOnlyGrows(w: World, s: ProxyState, acts: seq<Action>)
    requires ValidRun(w, s, acts)
    ensures s.hist <= Exec(w, s, acts).hist
    decreases |acts|
  {
    if acts != [] {
      LogOnlyGrows(w, Apply(w, s, acts[0]), acts[1..]);
    }
  }

  // Entry `p` of the log is the `n`-th of its direction.
  ghost predicate NthOf(hist: seq<Entry>, p: nat, dir: Direction, n: nat) {
    p < |hist| && hist[p].dir == dir && |RecordingsTo(hist, dir, p)| == n
  }

  lemma {:induction false} RecordingsGrow(hist: seq<Entry>, dir: Direction, p: nat, q: nat)
    requires p <= q <= |hist|
    ensures RecordingsTo(hist, dir, p) <= RecordingsTo(hist, dir, q)
    decreases q
  {
    if p < q {
      RecordingsGrow(hist, dir, p, q - 1);
    }
  }

  lemma {:induction false} RecordingsWithin(shorter: seq<Entry>, longer: seq<Entry>, dir: Direction, p: nat)
    requires shorter <= longer && p <= |shorter|
    ensures RecordingsTo(longer, dir, p) == RecordingsTo(shorter, dir, p)
  {
    if p > 0 {
      RecordingsWithin(shorter, longer, dir, p - 1);
    }
  }

  // An entry lies in an initial part of the log exactly when that part holds enough of its direction.
  lemma {:induction false} EntryWithin(shorter: seq<Entry>, longer: seq<Entry>, p: nat, dir: Direction, n: nat)
    requires shorter <= longer && NthOf(longer, p, dir, n)
    ensures p < |shorter| <==> n < |Recordings(shorter, dir)|
  {
    RecordingsWithin(shorter, longer, dir, |shorter|);
    if p < |shorter| {
      RecordingsGrow(longer, dir, p + 1, |shorter|);
    } else {
      RecordingsGrow(longer, dir, |shorter|, p);
    }
  }

  /** Causal order, exactly. When the event of an a2c frame is appended, the `m`-th c2a frame precedes it in
      every later log if and only if that frame has been recorded by then. */
  lemma {:induction false} OrderIsFixedAtAppend(w: World, s: ProxyState, now: nat, acts: seq<Action>, p: nat, m: nat)
    requires Enabled(w, s, Append(A2c, now)) && ValidRun(w, Apply(w, s, Append(A2c, now)), acts)
    requires NthOf(Exec(w, Apply(w, s, Append(A2c, now)), acts).hist, p, C2a, m)
    ensures var hist := Exec(w, Apply(w, s, Append(A2c, now)), acts).hist;
            && |s.hist| < |hist| && hist[|s.hist|] == Entry(A2c, now, PcOf(s, A2c).frame)
            && (p < |s.hist| <==> m < |Recordings(s.hist, C2a)|)
  {
    var s1 := Apply(w, s, Append(A2c, now));
    LogOnlyGrows(w, s1, acts);
    PrefixOfAppended(s.hist, Entry(A2c, now, PcOf(s, A2c).frame), Exec(w, s1, acts).hist);
    EntryWithin(s.hist, Exec(w, s1, acts).hist, p, C2a, m);
  }

  lemma {:induction false} PrefixOfAppended<T>(s: seq<T>, x: T, t: seq<T>)
    requires s + [x] <= t
    ensures s <= t && |s| < |t| && t[|s|] == x
  {
    assert t[|s|] == (s + [x])[|s|];
  }

  // The n-th recorded a2c frame is the n-th forwarded one.
  lemma {:induction false} NthSent(s: ProxyState, p: nat, n: nat)
    requires InStep(s, A2c) && NthOf(s.hist, p, A2c, n)
    ensures n < |s.a2c.sent| && s.a2c.sent[n] == s.hist[p].frame
  {
    RecordingsGrow(s.hist, A2c, p + 1, |s.hist|);
    assert RecordingsTo(s.hist, A2c, p + 1)[n] == s.hist[p].frame;
    assert Recordings(s.hist, A2c) <= s.a2c.sent;
  }

  /** A request that is in the log when its response is forwarded precedes the response in every later log:
      entry `p` is the response, `i` the request. */
  lemma {:induction false} LoggedRequestComesFirst(
    w: World, start: Blobs, before: seq<Action>, s: ProxyState, response: Frame, acts: seq<Action>, i: nat, p: nat)
    requires Reached(w, start, before, s) && s.slot.Some? && i < |s.hist|
    requires Enabled(w, s, Forward(A2c, response)) && ValidRun(w, Apply(w, s, Forward(A2c, response)), acts)
    requires NthOf(Exec(w, Apply(w, s, Forward(A2c, response)), acts).hist, p, A2c, |s.a2c.sent|)
    ensures var hist := Exec(w, Apply(w, s, Forward(A2c, response)), acts).hist;
            i < p && hist[i] == s.hist[i] && hist[p].frame == response
  {
    var s1 := Apply(w, s, Forward(A2c, response));
    var s2 := Exec(w, s1, acts);
    ReachedInv(w, start, before, s);
    assert Recordings(s.hist, A2c) == s.a2c.sent by {
      assert InStep(s, A2c);
      assert Recordings(s.hist, A2c) + [] == Recordings(s.hist, A2c);
    }
    LogOnlyGrows(w, s1, acts);
    EntryWithin(s.hist, s2.hist, p, A2c, |s.a2c.sent|);
    assert InStep(s2, A2c) by {
      StepKeepsInv(w, start, s, Forward(A2c, response));
      ReachableInv(w, start, s1, acts);
    }
    NthSent(s2, p, |s.a2c.sent|);
    SentOnlyGrows(w, s1, acts);
    PrefixOfAppended(s.a2c.sent, response, s2.a2c.sent);
  }

  lemma {:induction false} SentOnlyGrows(w: World, s: ProxyState, acts: seq<Action>)
    requires ValidRun(w, s, acts)
    ensures s.a2c.sent <= Exec(w, s, acts).a2c.sent
    decreases |acts|
  {
    if acts != [] {
      SentOnlyGrows(w, Apply(w, s, acts[0]), acts[1..]);
    }
  }

  // ---- every session can be recorded ----

  lemma {:induction false} ExecAppend(w: World, s: ProxyState, acts: seq<Action>, more: seq<Action>)
    requires ValidRun(w, s, acts) && ValidRun(w, Exec(w, s, acts), more)
    ensures ValidRun(w, s, acts + more) && Exec(w, s, acts + more) == Exec(w, Exec(w, s, acts), more)
    decreases |acts|
  {
    if acts == [] {
      assert acts + more == more;
    } else {
      var rest := acts[1..];
      ExecAppend(w, Apply(w, s, acts[0]), rest, more);
      RunsTo(w, s, acts[0], rest + more);
      ConsAppend(acts, more);
    }
  }

  lemma {:induction false} ConsAppend<T>(s: seq<T>, t: seq<T>)
    requires s != []
    ensures s + t == [s[0]] + (s[1..] + t)
  {}

  // Both threads idle, the writer in its slot.
  predicate Resting(s: ProxyState) {
    s.c2a.pc == Idle && s.a2c.pc == Idle && s.lock == None && s.slot.Some? && s.final == None
  }

  lemma {:induction false} RecordsOneMore(w: World, s: ProxyState, e: Entry) returns (acts: seq<Action>)
    requires Resting(s) && IsFrame(w, e.frame)
    ensures ValidRun(w, s, acts) && Resting(Exec(w, s, acts)) && Exec(w, s, acts).hist == s.hist + [e]
  {
    var s1 := Apply(w, s, Forward(e.dir, e.frame));
    var recording := Recording(e.dir, e.now);
    assert recording + [] == recording;
    RecordRuns(w, s1, e.dir, e.now, []);
    RunsTo(w, s, Forward(e.dir, e.frame), recording);
    acts := [Forward(e.dir, e.frame)] + recording;
  }

  lemma {:induction false} FramesOfInit(w: World, hist: seq<Entry>)
    requires hist != [] && AllFrames(w, Frames(hist))
    ensures AllFrames(w, Frames(hist[..|hist| - 1])) && IsFrame(w, hist[|hist| - 1].frame)
  {
    assert forall i | 0 <= i < |hist| - 1 :: Frames(hist[..|hist| - 1])[i] == Frames(hist)[i];
    assert IsFrame(w, Frames(hist)[|hist| - 1]);
  }

  lemma {:induction false} RecordsAll(w: World, start: Blobs, hist: seq<Entry>) returns (acts: seq<Action>)
    requires AllFrames(w, Frames(hist))
    ensures ValidRun(w, Init(start), acts) && Resting(Exec(w, Init(start), acts))
    ensures Exec(w, Init(start), acts).hist == hist
  {
    if hist == [] {
      acts := [];
    } else {
      var init, e := hist[..|hist| - 1], hist[|hist| - 1];
      FramesOfInit(w, hist);
      var first := RecordsAll(w, start, init);
      var s := Exec(w, Init(start), first);
      var more := RecordsOneMore(w, s, e);
      ExecAppend(w, Init(start), first, more);
      acts := first + more;
      LastBack(hist);
    }
  }

  lemma {:induction false} LastBack<T>(s: seq<T>)
    requires s != []
    ensures s[..|s| - 1] + [s[|s| - 1]] == s
  {}

  /** Whatever frames are exchanged, some schedule records exactly them and finishes the trace. */
  lemma {:induction false} EverySessionIsRecorded(
    w: World, start: Blobs, hist: seq<Entry>) returns (acts: seq<Action>, s: ProxyState)
    requires AllFrames(w, Frames(hist))
    ensures Reached(w, start, acts, s) && s.final.Some? && s.hist == hist
  {
    var recording := RecordsAll(w, start, hist);
    var s0 := Exec(w, Init(start), recording);
    Finishes(w, s0);
    ExecAppend(w, Init(start), recording, [Stop(A2c)] + [Finalize]);
    acts := recording + ([Stop(A2c)] + [Finalize]);
    s := Exec(w, Init(start), acts);
  }

  // ---- the recorder cannot wedge ----

  // Whoever holds the lock can finish its record and release it.
  lemma {:induction false} ReleasesLock(w: World, s: ProxyState) returns (acts: seq<Action>)
    requires LockInv(s) && s.final.None?
    ensures ValidRun(w, s, acts)
    ensures var s' := Exec(w, s, acts); LockInv(s') && s'.final.None? && s'.lock.None?
  {
    match s.lock
    case None => acts := [];
    case Some(d) =>
      var filled := if PcOf(s, d).Locked? then Apply(w, s, Fill(d)) else s;
      RunsTo(w, filled, Append(d, 0), []);
      acts := [Append(d, 0)];
      if PcOf(s, d).Locked? {
        RunsTo(w, s, Fill(d), acts);
        acts := [Fill(d)] + acts;
      }
      ReachableLock(w, s, acts);
  }

  lemma {:induction false} ReachableLock(w: World, s: ProxyState, acts: seq<Action>)
    requires LockInv(s) && ValidRun(w, s, acts)
    ensures LockInv(Exec(w, s, acts))
    decreases |acts|
  {
    if acts != [] {
      LockStep(w, s, acts[0]);
      ReachableLock(w, Apply(w, s, acts[0]), acts[1..]);
    }
  }

  // With the lock free, the a2c thread can finish its frame and stop, and the trace be finished.
  lemma {:induction false} FinishesFrom(w: World, s: ProxyState) returns (acts: seq<Action>)
    requires LockInv(s) && s.final.None? && s.lock.None?
    ensures ValidRun(w, s, acts) && Exec(w, s, acts).final.Some?
  {
    match s.a2c.pc
    case Stopped =>
      RunsTo(w, s, Finalize, []);
      acts := [Finalize];
    case Idle =>
      Finishes(w, s);
      acts := [Stop(A2c)] + [Finalize];
    case Forwarded(_) =>
      Finishes(w, AfterRecord(w, s, A2c, 0));
      acts := Recording(A2c, 0) + ([Stop(A2c)] + [Finalize]);
      RecordRuns(w, s, A2c, 0, [Stop(A2c)] + [Finalize]);
  }

  // Once the trace is finished, the c2a thread can let go of its frame and stop.
  lemma {:induction false} ClientStops(w: World, s: ProxyState) returns (acts: seq<Action>)
    requires LockInv(s) && s.final.Some?
    ensures ValidRun(w, s, acts)
    ensures var s' := Exec(w, s, acts); s'.final == s.final && s'.hist == s.hist && s'.c2a.pc == Stopped
  {
    match s.c2a.pc
    case Stopped => acts := [];
    case Idle =>
      RunsTo(w, s, Stop(C2a), []);
      acts := [Stop(C2a)];
    case Forwarded(_) =>
      RunsTo(w, Apply(w, s, Acquire(C2a)), Stop(C2a), []);
      RunsTo(w, s, Acquire(C2a), [Stop(C2a)]);
      acts := [Acquire(C2a)] + [Stop(C2a)];
  }

  lemma {:induction false} TraceFinishes(w: World, s: ProxyState) returns (acts: seq<Action>)
    requires LockInv(s)
    ensures ValidRun(w, s, acts) && Exec(w, s, acts).final.Some?
  {
    if s.final.Some? {
      acts := [];
    } else {
      var release := ReleasesLock(w, s);
      var finish := FinishesFrom(w, Exec(w, s, release));
      ExecAppend(w, s, release, finish);
      acts := release + finish;
    }
  }

  /** Whatever has happened, the trace can still be finished and both threads can stop. */
  lemma {:induction false} CanAlwaysFinish(w: World, start: Blobs, before: seq<Action>, s: ProxyState)
    returns (acts: seq<Action>)
    requires Reached(w, start, before, s)
    ensures ValidRun(w, s, acts)
    ensures var s' := Exec(w, s, acts); s'.final.Some? && s'.c2a.pc == Stopped && s'.a2c.pc == Stopped
  {
    ReachedInv(w, start, before, s);
    var finish := TraceFinishes(w, s);
    var s1 := Exec(w, s, finish);
    ReachableLock(w, s, finish);
    var stop := ClientStops(w, s1);
    ExecAppend(w, s, finish, stop);
    acts := finish + stop;
    ReachableInv(w, start, s, acts);
  }
}
