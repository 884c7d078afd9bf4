/** Strict replay and replay with `remap_ids`: when a client frame is accepted, and what is written. */
module ReplayModes {
  import opened Base
  import opened Json
  import opened Canonical
  import opened Equality
  import opened Members
  import opened Wire
  import opened Framing
  import opened Trace
  import opened Replay
  import opened ReplayTheory

  // Every a2c event has a readable blob.
  ghost predicate Readable(w: World, t: TraceReader) {
    Sound(w) && forall p | 0 <= p < |t.events| && t.events[p].dir != C2a :: LoadBlob(w, t.blobs, t.events[p]).Ok?
  }

  lemma {:induction false} WithIdWellFormed(v: Value, id: Id)
    requires WellFormed(v)
    ensures WellFormed(WithId(v, id))
  {
    IdRoundTrip(IdToValue(id), id);
    if v.Object? {
      InsertWellFormed(v.members, "id", IdToValue(id));
    }
  }

  // A readable blob can always be written, rewritten or not.
  lemma {:induction false} OutLineOk(w: World, t: TraceReader, rec: EventRecord, idMap: map<Id, Id>, remap: bool)
    requires Sound(w) && LoadBlob(w, t.blobs, rec).Ok?
    ensures OutLine(w, t, rec, idMap, remap).Ok?
  {
    var bytes := LoadBlob(w, t.blobs, rec).value;
    var f := ParseFrame(w, bytes).value;
    ParsedIsFrame(w, bytes);
    FrameFacts(w, f);
    if f.id.Some? && f.id.value in idMap {
      WithIdWellFormed(f.value, idMap[f.id.value]);
      CanonicalPrintable(WithId(f.value, idMap[f.id.value]));
    }
  }

  lemma {:induction false} ReadableIsWritable(w: World, t: TraceReader, frames: seq<Frame>, remap: bool, upto: nat)
    requires Readable(w, t) && upto <= |t.events|
    ensures WritableTo(RulesOf(w, t, remap), t.events, frames, upto)
  {
    var r := RulesOf(w, t, remap);
    forall p | 0 <= p < upto ensures CanWrite(r, t.events, frames, p) {
      var m := MapAfter(r, t.events, frames, Min(ClientFramesBefore(t.events, p), |frames|));
      if t.events[p].dir != C2a {
        OutLineOk(w, t, t.events[p], m, remap);
      }
    }
  }

  // ---- strict ----

  function BlobOf(w: World, t: TraceReader, rec: EventRecord): Bytes {
    match LoadBlob(w, t.blobs, rec)
    case Ok(b) => b
    case Err(_) => []
  }

  // The stored bytes of the a2c events before a position.
  function A2cBlobs(w: World, t: TraceReader, upto: nat): seq<Bytes>
    requires upto <= |t.events|
  {
    PlainLines(t.events, (rec: EventRecord) => BlobOf(w, t, rec), upto)
  }

  // A strict line is the blob, and fails exactly when the blob does not load.
  lemma {:induction false} StrictLine(w: World, t: TraceReader, rec: EventRecord, m: map<Id, Id>)
    requires Sound(w)
    ensures OutLine(w, t, rec, m, false) ==
            match LoadBlob(w, t.blobs, rec)
            case Ok(_) => Ok(BlobOf(w, t, rec))
            case Err(e) => Err(TraceFailure(e))
  {
    if LoadBlob(w, t.blobs, rec).Ok? {
      OutLineOk(w, t, rec, m, false);
    }
  }

  predicate Loads(w: World, t: TraceReader, p: nat)
    requires p < |t.events|
  {
    t.events[p].dir == C2a || LoadBlob(w, t.blobs, t.events[p]).Ok?
  }

  // The first a2c event before `upto` whose blob is missing or damaged; `upto` when there is none.
  function FirstUnreadable(w: World, t: TraceReader, upto: nat): (q: nat)
    requires upto <= |t.events|
    ensures q <= upto && forall p | 0 <= p < q :: Loads(w, t, p)
    ensures q < upto ==> !Loads(w, t, q)
  {
    if upto == 0 then 0
    else
      var q := FirstUnreadable(w, t, upto - 1);
      if q < upto - 1 || !Loads(w, t, upto - 1) then q else upto
  }

  lemma {:induction false} StrictEvent(w: World, t: TraceReader, frames: seq<Frame>, p: nat)
    requires Sound(w) && p < |t.events| && t.events[p].dir != C2a
    ensures var r := RulesOf(w, t, false);
            && (CanWrite(r, t.events, frames, p) <==> Loads(w, t, p))
            && (!Loads(w, t, p) ==>
                  LineFor(r, t.events, frames, p) == Err(TraceFailure(LoadBlob(w, t.blobs, t.events[p]).error)))
            && LineAt(r, t.events, frames, p) == BlobOf(w, t, t.events[p])
  {
    var r := RulesOf(w, t, false);
    var m := MapAfter(r, t.events, frames, Min(ClientFramesBefore(t.events, p), |frames|));
    StrictLine(w, t, t.events[p], m);
  }

  lemma {:induction false} StrictLines(w: World, t: TraceReader, frames: seq<Frame>, upto: nat)
    requires Sound(w) && upto <= |t.events|
    ensures LinesUpTo(RulesOf(w, t, false), t.events, frames, upto) == A2cBlobs(w, t, upto)
  {
    var r := RulesOf(w, t, false);
    var text := (rec: EventRecord) => BlobOf(w, t, rec);
    forall p | 0 <= p < upto ensures PlainAt(r, t.events, frames, text, p) {
      if t.events[p].dir != C2a {
        StrictEvent(w, t, frames, p);
      }
    }
    LinesArePlain(r, t.events, frames, text, upto);
  }

  lemma {:induction false} UnreadableIsUnwritable(w: World, t: TraceReader, frames: seq<Frame>, upto: nat)
    requires Sound(w) && upto <= |t.events|
    ensures FirstUnwritable(RulesOf(w, t, false), t.events, frames, upto) == FirstUnreadable(w, t, upto)
  {
    var r := RulesOf(w, t, false);
    forall p | 0 <= p < upto ensures CanWrite(r, t.events, frames, p) <==> Loads(w, t, p) {
      if t.events[p].dir != C2a {
        StrictEvent(w, t, frames, p);
      }
    }
  }

  // The recorded hash is the client frame's own.
  predicate SameHashAt(w: World, clients: seq<EventRecord>, frames: seq<Frame>, i: nat)
    requires i < |frames|
  {
    i < |clients| && clients[i].hash == HashText(w, frames[i].value)
  }

  // What strict replay reports once `k` frames have matched and no more do.
  function StrictEnding(w: World, t: TraceReader, input: Input, k: nat): Option<ReplayError>
    requires k <= |input.frames|
  {
    var clients := Project(t.events, C2a);
    if k == |input.frames| then
      match input.error
      case None => None
      case Some(e) => Some(WireFailure(e))
    else if k >= |clients| then Some(TraceExhausted(None))
    else
      var f := input.frames[k];
      Some(Diverged(Divergence(
        clients[k].seqNo, clients[k].method_, clients[k].hash, f.method_,
        if f.id.None? then None else Some(Compact(IdToValue(f.id.value))),
        HashText(w, f.value), k)))
  }

  /** Strict replay, exactly, on any client stream and any trace: let `k` be the number of leading client frames
      that hash like the recorded c2a events. The a2c blobs that precede the (k+1)-st recorded client frame are
      written, up to the first that is missing or damaged, which is then the error. If none is, the run ends
      with the stream, with the line the client garbled, with the trace exhausted, or with frame `k` diverging
      from the event the error names. */
  lemma {:induction false} StrictExactly(w: World, t: TraceReader, input: Input, k: nat)
    requires Sound(w) && k <= |input.frames|
    requires forall i | 0 <= i < k :: SameHashAt(w, Project(t.events, C2a), input.frames, i)
    requires k < |input.frames| ==> !SameHashAt(w, Project(t.events, C2a), input.frames, k)
    ensures var o := Interactive(w, t, input, false);
            var p := C2aPos(t.events, k);
            var q := FirstUnreadable(w, t, p);
            && o.st.lines == A2cBlobs(w, t, q)
            && o.error == if q < p then Some(TraceFailure(LoadBlob(w, t.blobs, t.events[q]).error))
                          else StrictEnding(w, t, input, k)
  {
    var r := RulesOf(w, t, false);
    var p := C2aPos(t.events, k);
    var q := FirstUnreadable(w, t, p);
    StrictlyAccepted(w, t, input.frames, k);
    RunCharacterized(r, t.events, input, k);
    UnreadableIsUnwritable(w, t, input.frames, p);
    StrictLines(w, t, input.frames, q);
    if q < p {
      StrictEvent(w, t, input.frames, q);
    } else {
      EndsAlike(w, t, input, false, k);
    }
  }

  // The frames that hash alike are those the engine accepts.
  lemma {:induction false} StrictlyAccepted(w: World, t: TraceReader, frames: seq<Frame>, k: nat)
    requires k <= |frames|
    requires forall i | 0 <= i < k :: SameHashAt(w, Project(t.events, C2a), frames, i)
    requires k < |frames| ==> !SameHashAt(w, Project(t.events, C2a), frames, k)
    ensures Accepted(RulesOf(w, t, false), t.events, frames, k)
  {
    forall i | 0 <= i < |frames|
      ensures MatchesAt(RulesOf(w, t, false), t.events, i, frames[i]) <==>
              SameHashAt(w, Project(t.events, C2a), frames, i)
    {
      C2aPosEnumerates(t.events, i);
    }
  }

  lemma {:induction false} EndsAlike(w: World, t: TraceReader, input: Input, remap: bool, k: nat)
    requires k <= |input.frames|
    ensures Ending(RulesOf(w, t, remap), t.events, input, k) == StrictEnding(w, t, input, k)
  {}

  lemma {:induction false} A2cBlobsStand(w: World, t: TraceReader, upto: nat, p: nat)
    requires p < upto <= |t.events| && t.events[p].dir != C2a
    ensures var n := p - ClientFramesBefore(t.events, p);
            0 <= n < |A2cBlobs(w, t, upto)| && A2cBlobs(w, t, upto)[n] == BlobOf(w, t, t.events[p])
  {
    PlainStandsAt(t.events, (rec: EventRecord) => BlobOf(w, t, rec), p, upto);
  }

  // The line at the place of each loaded a2c event is bytes that match it.
  lemma {:induction false} A2cBlobsMatch(w: World, t: TraceReader, upto: nat, p: nat)
    requires p < upto <= |t.events| && t.events[p].dir != C2a && Loads(w, t, p)
    ensures var n := p - ClientFramesBefore(t.events, p);
            0 <= n < |A2cBlobs(w, t, upto)| && Matches(w, t.blobs, t.events[p], A2cBlobs(w, t, upto)[n])
  {
    A2cBlobsStand(w, t, upto, p);
    LoadedMatches(w, t, t.events[p]);
  }

  lemma {:induction false} LoadedMatches(w: World, t: TraceReader, rec: EventRecord)
    requires LoadBlob(w, t.blobs, rec).Ok?
    ensures Matches(w, t.blobs, rec, BlobOf(w, t, rec))
  {
    LoadBlobExactly(w, t.blobs, rec);
  }

  /** Whatever the blob directory holds, neither strict nor offline replay writes bytes that do not belong to the
      event they are written for. */
  lemma {:induction false} WritesOnlyMatches(w: World, t: TraceReader, input: Input, p: nat)
    requires Sound(w) && p < |t.events| && t.events[p].dir != C2a
    ensures var n, st := p - ClientFramesBefore(t.events, p), Interactive(w, t, input, false).st;
            p < st.cursor ==> 0 <= n < |st.lines| && Matches(w, t.blobs, t.events[p], st.lines[n])
    ensures var n, lines := p - ClientFramesBefore(t.events, p), OfflineFrom(w, t, 0, []).0;
            p < FirstUnreadable(w, t, |t.events|) ==>
              0 <= n < |lines| && Matches(w, t.blobs, t.events[p], lines[n])
  {
    var r := RulesOf(w, t, false);
    var k := LongestAccepted(r, t.events, input.frames);
    RunCharacterized(r, t.events, input, k);
    var q := FirstUnreadable(w, t, C2aPos(t.events, k));
    UnreadableIsUnwritable(w, t, input.frames, C2aPos(t.events, k));
    StrictLines(w, t, input.frames, q);
    if p < q {
      A2cBlobsMatch(w, t, q, p);
    }
    var u := FirstUnreadable(w, t, |t.events|);
    OfflineOutput(w, t, 0, u);
    if p < u {
      A2cBlobsMatch(w, t, u, p);
    }
  }

  lemma {:induction false} StrictSendsAll(w: World, t: TraceReader, frames: seq<Frame>)
    requires Readable(w, t) && |frames| == |Project(t.events, C2a)|
    requires forall i | 0 <= i < |frames| :: SameHashAt(w, Project(t.events, C2a), frames, i)
    ensures Interactive(w, t, Input(frames, None), false).error == None
    ensures Interactive(w, t, Input(frames, None), false).st.lines == A2cBlobs(w, t, |t.events|)
  {
    StrictExactly(w, t, Input(frames, None), |frames|);
    C2aPosEnumerates(t.events, |frames|);
    assert FirstUnreadable(w, t, |t.events|) == |t.events|;
  }

  lemma {:induction false} OfflineStep(w: World, t: TraceReader, k: nat)
    requires Sound(w) && k < |t.events|
    ensures OfflineFrom(w, t, k, A2cBlobs(w, t, k)) ==
            if Loads(w, t, k) then OfflineFrom(w, t, k + 1, A2cBlobs(w, t, k + 1))
            else (A2cBlobs(w, t, k), Some(TraceFailure(LoadBlob(w, t.blobs, t.events[k]).error)))
  {
    var rec := t.events[k];
    assert rec.dir.C2a? || rec.dir.A2c?;
    if rec.dir == A2c {
      StrictLine(w, t, rec, map[]);
    } else {
      assert A2cBlobs(w, t, k) + [] == A2cBlobs(w, t, k);
    }
  }

  lemma {:induction false} OfflineOutput(w: World, t: TraceReader, k: nat, q: nat)
    requires Sound(w) && k <= q <= |t.events| && (forall p | 0 <= p < q :: Loads(w, t, p))
    requires q < |t.events| ==> !Loads(w, t, q)
    ensures OfflineFrom(w, t, k, A2cBlobs(w, t, k)) ==
            (A2cBlobs(w, t, q),
             if q < |t.events| then Some(TraceFailure(LoadBlob(w, t.blobs, t.events[q]).error)) else None)
    decreases q - k
  {
    if k < |t.events| {
      OfflineStep(w, t, k);
    }
    if k < q {
      OfflineOutput(w, t, k + 1, q);
    }
  }

  /** A client that repeats every recorded client frame is written what offline replay writes, and the two end
      alike, whether or not every blob can be read. */
  lemma {:induction false} StrictMeetsOffline(w: World, t: TraceReader, frames: seq<Frame>)
    requires Sound(w) && |frames| == |Project(t.events, C2a)|
    requires forall i | 0 <= i < |frames| :: SameHashAt(w, Project(t.events, C2a), frames, i)
    ensures var o := Interactive(w, t, Input(frames, None), false); OfflineFrom(w, t, 0, []) == (o.st.lines, o.error)
  {
    StrictExactly(w, t, Input(frames, None), |frames|);
    C2aPosEnumerates(t.events, |frames|);
    OfflineOutput(w, t, 0, FirstUnreadable(w, t, |t.events|));
  }

  // ---- remap, exactly ----

  // With `remap_ids` too, an event can be written exactly when its blob loads.
  lemma {:induction false} RemapEvent(w: World, t: TraceReader, frames: seq<Frame>, p: nat)
    requires Sound(w) && p < |t.events| && t.events[p].dir != C2a
    ensures var r := RulesOf(w, t, true);
            && (CanWrite(r, t.events, frames, p) <==> Loads(w, t, p))
            && (!Loads(w, t, p) ==>
                  LineFor(r, t.events, frames, p) == Err(TraceFailure(LoadBlob(w, t.blobs, t.events[p]).error)))
  {
    var m := MapAfter(RulesOf(w, t, true), t.events, frames, Min(ClientFramesBefore(t.events, p), |frames|));
    if Loads(w, t, p) {
      OutLineOk(w, t, t.events[p], m, true);
    }
  }

  /** Replay with `remap_ids`, exactly, on any client stream and any trace: with `k` the number of leading client
      frames it accepts, the lines due before the (k+1)-st recorded client frame are written, up to the first
      whose blob is missing or damaged; the endings are those of strict mode. */
  lemma {:induction false} RemapExactly(w: World, t: TraceReader, input: Input, k: nat)
    requires Sound(w) && Accepted(RulesOf(w, t, true), t.events, input.frames, k)
    ensures var o := Interactive(w, t, input, true);
            var p := C2aPos(t.events, k);
            var q := FirstUnreadable(w, t, p);
            && o.st.cursor == q && o.st.lines == LinesUpTo(RulesOf(w, t, true), t.events, input.frames, q)
            && o.error == if q < p then Some(TraceFailure(LoadBlob(w, t.blobs, t.events[q]).error))
                          else StrictEnding(w, t, input, k)
  {
    var r, p := RulesOf(w, t, true), C2aPos(t.events, k);
    RunCharacterized(r, t.events, input, k);
    forall x | 0 <= x < p ensures CanWrite(r, t.events, input.frames, x) <==> Loads(w, t, x) {
      if t.events[x].dir != C2a {
        RemapEvent(w, t, input.frames, x);
      }
    }
    var q := FirstUnreadable(w, t, p);
    assert q == FirstUnwritable(r, t.events, input.frames, p);
    if q < p {
      RemapEvent(w, t, input.frames, q);
    } else {
      EndsAlike(w, t, input, true, k);
    }
  }

  // ---- remap is a conservative extension ----

  lemma {:induction false} UnmappedLine(w: World, t: TraceReader, rec: EventRecord)
    ensures OutLine(w, t, rec, map[], true) == OutLine(w, t, rec, map[], false)
  {}

  lemma {:induction false} UnmappedBlock(w: World, t: TraceReader, st: State)
    requires st.idMap == map[]
    ensures EmitBlock(RulesOf(w, t, true), t.events, st) == EmitBlock(RulesOf(w, t, false), t.events, st)
    ensures EmitBlock(RulesOf(w, t, false), t.events, st).st.idMap == map[]
    decreases |t.events| - st.cursor
  {
    if st.cursor < |t.events| && t.events[st.cursor].dir != C2a {
      var rec := t.events[st.cursor];
      UnmappedLine(w, t, rec);
      var l := OutLine(w, t, rec, map[], false);
      if l.Ok? {
        UnmappedBlock(w, t, State(st.cursor + 1, st.consumed, st.idMap, st.lines + [l.value]));
      }
    }
  }

  lemma {:induction false} UnmappedAccept(w: World, t: TraceReader, st: State, f: Frame)
    ensures var a := AcceptFrame(RulesOf(w, t, false), t.events, st, f);
            a.st.idMap == st.idMap &&
            (a.error.None? || !a.error.value.Diverged? ==> AcceptFrame(RulesOf(w, t, true), t.events, st, f) == a)
  {
    var idx := NextC2a(t.events, st.cursor);
    if idx < |t.events| {
      var rec := t.events[idx];
      assert Judge(w, rec, f, false) == Fast ==> Judge(w, rec, f, true) == Fast;
    }
  }

  lemma {:induction false} UnmappedFrames(w: World, t: TraceReader, st: State, frames: seq<Frame>)
    requires st.idMap == map[]
    ensures var o := RunFrames(RulesOf(w, t, false), t.events, st, frames);
            o.error.None? || !o.error.value.Diverged? ==>
              o.st.idMap == map[] && RunFrames(RulesOf(w, t, true), t.events, st, frames) == o
    decreases |frames|
  {
    if frames != [] {
      var a := AcceptFrame(RulesOf(w, t, false), t.events, st, frames[0]);
      UnmappedAccept(w, t, st, frames[0]);
      if a.error.None? {
        UnmappedBlock(w, t, a.st);
        var b := EmitBlock(RulesOf(w, t, false), t.events, a.st);
        if b.error.None? {
          UnmappedFrames(w, t, b.st, frames[1..]);
        }
      }
    }
  }

  /** Switching `remap_ids` on changes nothing for a client that strict mode does not turn away: the same
      lines, the same ending, and an id map that stays empty. */
  lemma {:induction false} RemapIsConservative(w: World, t: TraceReader, input: Input)
    ensures var o := Interactive(w, t, input, false);
            o.error.None? || !o.error.value.Diverged? ==>
              o.st.idMap == map[] && Interactive(w, t, input, true) == o
  {
    UnmappedBlock(w, t, START);
    var o := EmitBlock(RulesOf(w, t, false), t.events, START);
    if o.error.None? {
      UnmappedFrames(w, t, o.st, input.frames);
    }
  }

  // ---- what it takes to be accepted ----

  // Equal up to key order once the top-level ids are left out.
  ghost predicate SameButId(v: Value, u: Value)
    requires v.Object? && u.Object?
  {
    Same(Object(Without(v.members, "id")), Object(Without(u.members, "id")))
  }

  lemma {:induction false} ReplacedMatches(m: seq<Member>, n: seq<Member>, id: Id)
    requires WellFormedMembers(m) && WellFormedMembers(n)
    requires Get(n, "id") == Some(IdToValue(id))
    ensures Same(Object(Insert(m, "id", IdToValue(id))), Object(n)) <==>
            Same(Object(Without(m, "id")), Object(Without(n, "id")))
  {
    var val := IdToValue(id);
    var r := Insert(m, "id", val);
    IdRoundTrip(val, id);
    InsertWellFormed(m, "id", val);
    WithoutFacts(m, "id");
    WithoutFacts(n, "id");
    var m', n' := Without(m, "id"), Without(n, "id");
    forall key ensures Agree(r, n, key) <==> Agree(m', n', key) {
      InsertGet(m, "id", val, key);
    }
    SameIffAgree(r, n);
    SameIffAgree(m', n');
  }

  // The canonical forms compared when client frame `f` meets recorded frame `rf`.
  ghost function Compared(rf: Frame, f: Frame): set<Value> {
    {rf.value, f.value} + (if rf.id.Some? then {ReplaceId(f.value, rf.id.value)} else {})
  }

  predicate RecordOf(w: World, rec: EventRecord, rf: Frame) {
    rec.hash == HashText(w, rf.value) && rec.id == rf.id && rec.kind == rf.kind
  }

  lemma {:induction false} JudgedFast(w: World, rec: EventRecord, rf: Frame, f: Frame, remap: bool)
    requires Sound(w) && IsFrame(w, rf) && IsFrame(w, f) && RecordOf(w, rec, rf)
    requires NoCollision(w, {rf.value, f.value})
    ensures Judge(w, rec, f, remap) == Fast <==> Same(f.value, rf.value)
  {
    FrameFacts(w, rf);
    FrameFacts(w, f);
    HashDecidesEquality(w, {rf.value, f.value}, f.value, rf.value);
  }

  lemma {:induction false} ReplaceIdWellFormed(w: World, f: Frame, id: Id)
    requires Sound(w) && IsFrame(w, f)
    ensures WellFormed(ReplaceId(f.value, id))
    ensures f.id.Some? ==> ReplaceId(f.value, id) == WithId(f.value, id)
  {
    FrameFacts(w, f);
    WithIdWellFormed(f.value, id);
  }

  lemma {:induction false} RewrittenHash(w: World, rec: EventRecord, rf: Frame, f: Frame)
    requires Sound(w) && IsFrame(w, rf) && IsFrame(w, f) && RecordOf(w, rec, rf)
    requires rf.id.Some? && f.id.Some?
    requires NoCollision(w, Compared(rf, f))
    ensures f.value.Object? && rf.value.Object?
    ensures HashText(w, ReplaceId(f.value, rf.id.value)) == rec.hash <==> SameButId(f.value, rf.value)
  {
    FrameFacts(w, rf);
    FrameFacts(w, f);
    ReplaceIdWellFormed(w, f, rf.id.value);
    ReplacedMatches(f.value.members, rf.value.members, rf.id.value);
    HashDecidesEquality(w, Compared(rf, f), ReplaceId(f.value, rf.id.value), rf.value);
  }

  /** Acceptance under `remap_ids` is sound and complete: a client frame is accepted iff it equals the
      expected recorded frame up to key order, or both carry ids and they are equal up to key order in
      everything but the top-level id. Without `remap_ids` only the first counts. */
  lemma {:induction false} AcceptanceMeans(w: World, rec: EventRecord, rf: Frame, f: Frame)
    requires Sound(w) && IsFrame(w, rf) && IsFrame(w, f) && RecordOf(w, rec, rf)
    requires NoCollision(w, Compared(rf, f))
    ensures f.value.Object? && rf.value.Object?
    ensures Judge(w, rec, f, false) != Refused <==> Same(f.value, rf.value)
    ensures Judge(w, rec, f, true) != Refused <==>
            Same(f.value, rf.value) || (rf.id.Some? && f.id.Some? && SameButId(f.value, rf.value))
  {
    FrameFacts(w, rf);
    FrameFacts(w, f);
    JudgedFast(w, rec, rf, f, true);
    if rf.id.Some? && f.id.Some? {
      RewrittenHash(w, rec, rf, f);
    }
  }

  // Putting the old id back undoes a renaming, key order aside.
  lemma {:induction false} RenamingUndone(m: seq<Member>, n: seq<Member>, old_: Value, new_: Value)
    requires WellFormedMembers(m) && WellFormedMembers(n) && WellFormed(old_) && WellFormed(new_)
    requires Get(n, "id") == Some(old_) && Same(Object(m), Object(Insert(n, "id", new_)))
    ensures Same(Object(Insert(m, "id", old_)), Object(n))
  {
    var back, renamed := Insert(m, "id", old_), Insert(n, "id", new_);
    InsertWellFormed(m, "id", old_);
    InsertWellFormed(n, "id", new_);
    SameIffAgree(m, renamed);
    SameIffSortAlike(old_, old_);
    forall key ensures Agree(back, n, key) {
      InsertGet(m, "id", old_, key);
      InsertGet(n, "id", new_, key);
      assert Agree(m, renamed, key);
    }
    SameIffAgree(back, n);
  }

  /** A client that renames an id, to whatever it likes, and permutes keys is accepted: no hypothesis on
      hash collisions is needed for this direction. */
  lemma {:induction false} RenamedIsAccepted(w: World, rec: EventRecord, rf: Frame, f: Frame, id: Id)
    requires Sound(w) && IsFrame(w, rf) && IsFrame(w, f) && RecordOf(w, rec, rf)
    requires rf.id.Some? && Same(f.value, WithId(rf.value, id))
    ensures f.id == Some(id) && Judge(w, rec, f, true) != Refused
  {
    FrameFacts(w, rf);
    FrameFacts(w, f);
    var m, n := f.value.members, rf.value.members;
    var old_, new_ := IdToValue(rf.id.value), IdToValue(id);
    IdRoundTrip(old_, rf.id.value);
    IdRoundTrip(new_, id);
    InsertGet(n, "id", new_, "id");
    SameGetId(m, Insert(n, "id", new_));
    RenamingUndone(m, n, old_, new_);
    ReplaceIdWellFormed(w, f, rf.id.value);
    SameHash(w, ReplaceId(f.value, rf.id.value), rf.value);
  }

  // ---- which id an outgoing response carries ----

  // The i-th client frame teaches the engine a new value for recorded id `x`.
  predicate Teaches(r: Rules, events: seq<EventRecord>, frames: seq<Frame>, i: nat, x: Id)
    requires i < |frames|
  {
    var p := C2aPos(events, i);
    p < |events| && r.judge(events[p], frames[i]) == Slow && events[p].id == Some(x) && frames[i].id.Some?
  }

  ghost predicate LastToTeach(r: Rules, events: seq<EventRecord>, frames: seq<Frame>, i: nat, k: nat, x: Id)
    requires k <= |frames|
  {
    i < k && Teaches(r, events, frames, i, x) && forall j | i < j < k :: !Teaches(r, events, frames, j, x)
  }

  lemma {:induction false} IdMapStep(r: Rules, events: seq<EventRecord>, frames: seq<Frame>, k: nat, x: Id)
    requires k < |frames|
    ensures var before, m := MapAfter(r, events, frames, k), MapAfter(r, events, frames, k + 1);
            if Teaches(r, events, frames, k, x) then x in m && frames[k].id == Some(m[x])
            else (x in m <==> x in before) && (x in m ==> m[x] == before[x])
  {}

  // One of the first `k` client frames teaches it.
  predicate Taught(r: Rules, events: seq<EventRecord>, frames: seq<Frame>, k: nat, x: Id)
    requires k <= |frames|
  {
    k > 0 && (Taught(r, events, frames, k - 1, x) || Teaches(r, events, frames, k - 1, x))
  }

  lemma {:induction false} MappedIffTaught(r: Rules, events: seq<EventRecord>, frames: seq<Frame>, k: nat, x: Id)
    requires k <= |frames|
    ensures x in MapAfter(r, events, frames, k) <==> Taught(r, events, frames, k, x)
  {
    if k > 0 {
      MappedIffTaught(r, events, frames, k - 1, x);
      IdMapStep(r, events, frames, k - 1, x);
    }
  }

  lemma {:induction false} LastTaughtStands(
    r: Rules, events: seq<EventRecord>, frames: seq<Frame>, i: nat, k: nat, x: Id)
    requires k <= |frames| && LastToTeach(r, events, frames, i, k, x)
    ensures var m := MapAfter(r, events, frames, k); x in m && frames[i].id == Some(m[x])
    decreases k
  {
    IdMapStep(r, events, frames, k - 1, x);
    if i < k - 1 {
      assert LastToTeach(r, events, frames, i, k - 1, x);
      LastTaughtStands(r, events, frames, i, k - 1, x);
    }
  }

  /** The id map, exactly: `x` is mapped after `k` client frames iff one of them taught it, and then to what
      the last such frame carried. */
  lemma {:induction false} IdMapExactly(r: Rules, events: seq<EventRecord>, frames: seq<Frame>, k: nat, x: Id)
    requires k <= |frames|
    ensures var m := MapAfter(r, events, frames, k);
            && (x in m <==> Taught(r, events, frames, k, x))
            && (forall i: nat | LastToTeach(r, events, frames, i, k, x) :: x in m && frames[i].id == Some(m[x]))
  {
    MappedIffTaught(r, events, frames, k, x);
    forall i: nat | LastToTeach(r, events, frames, i, k, x)
      ensures var m := MapAfter(r, events, frames, k); x in m && frames[i].id == Some(m[x])
    {
      LastTaughtStands(r, events, frames, i, k, x);
    }
  }

  // A written line stands for a value: the recorded text of it, or its compact print, which reads back to it.
  ghost predicate Carries(w: World, line: Bytes, v: Value) {
    w.parse(line) == Some(v) || line == Compact(v)
  }

  // An a2c event, and the frame stored for it.
  ghost predicate StoredAt(w: World, t: TraceReader, p: nat, g: Frame) {
    && p < |t.events| && t.events[p].dir != C2a
    && LoadBlob(w, t.blobs, t.events[p]) == Ok(g.raw) && IsFrame(w, g)
  }

  // The id under which the engine answers, when it has one to look up.
  predicate AnswersTo(rec: EventRecord, g: Frame, x: Id) {
    rec.kind == Response && g.kind == Response && g.id == Some(x)
  }

  lemma {:induction false} ResponseLine(w: World, t: TraceReader, p: nat, g: Frame, m: map<Id, Id>, x: Id)
    requires Sound(w) && StoredAt(w, t, p, g) && AnswersTo(t.events[p], g, x)
    ensures OutLine(w, t, t.events[p], m, true) == Ok(if x in m then Compact(WithId(g.value, m[x])) else g.raw)
  {
    OutLineOk(w, t, t.events[p], m, true);
  }

  lemma {:induction false} OtherLine(w: World, t: TraceReader, p: nat, g: Frame, m: map<Id, Id>)
    requires Sound(w) && StoredAt(w, t, p, g)
    requires t.events[p].kind != Response || g.kind != Response || g.id == None
    ensures OutLine(w, t, t.events[p], m, true) == Ok(g.raw)
  {
    OutLineOk(w, t, t.events[p], m, true);
  }

  /** Under `remap_ids` a response goes out under the id of the last client frame before it that taught its
      recorded id, whichever request it answers, and otherwise as stored; with no such frame it goes out byte
      for byte. */
  lemma {:induction false} ResponseCarriesClientId(
    w: World, t: TraceReader, frames: seq<Frame>, p: nat, g: Frame, x: Id)
    requires Sound(w) && StoredAt(w, t, p, g) && AnswersTo(t.events[p], g, x)
    requires ClientFramesBefore(t.events, p) <= |frames|
    ensures var r, k := RulesOf(w, t, true), ClientFramesBefore(t.events, p);
            var line := LineAt(r, t.events, frames, p);
            && (forall l: nat | LastToTeach(r, t.events, frames, l, k, x) ::
                  frames[l].id.Some? && line == Compact(WithId(g.value, frames[l].id.value)))
            && (!Taught(r, t.events, frames, k, x) ==> line == g.raw)
  {
    var r, k := RulesOf(w, t, true), ClientFramesBefore(t.events, p);
    IdMapExactly(r, t.events, frames, k, x);
    ResponseLine(w, t, p, g, MapAfter(r, t.events, frames, k), x);
  }

  /** Everything else goes out as stored: requests, notifications, and responses without an id. */
  lemma {:induction false} OthersUnchanged(w: World, t: TraceReader, frames: seq<Frame>, p: nat, g: Frame)
    requires Sound(w) && StoredAt(w, t, p, g)
    requires t.events[p].kind != Response || g.kind != Response || g.id == None
    ensures LineAt(RulesOf(w, t, true), t.events, frames, p) == g.raw
  {
    var r := RulesOf(w, t, true);
    OtherLine(w, t, p, g, MapAfter(r, t.events, frames, Min(ClientFramesBefore(t.events, p), |frames|)));
  }

  // A frame that matched outright carries the recorded id.
  lemma {:induction false} FastKeepsId(w: World, rec: EventRecord, rf: Frame, f: Frame)
    requires Sound(w) && IsFrame(w, rf) && IsFrame(w, f) && RecordOf(w, rec, rf)
    requires NoCollision(w, {rf.value, f.value}) && Judge(w, rec, f, true) == Fast
    ensures f.id == rf.id
  {
    JudgedFast(w, rec, rf, f, true);
    FrameFacts(w, rf);
    FrameFacts(w, f);
    SameClassify(f.value, rf.value);
  }

  lemma {:induction false} ReplaceOwnId(w: World, f: Frame)
    requires Sound(w) && IsFrame(w, f) && f.id.Some?
    ensures ReplaceId(f.value, f.id.value) == f.value
  {
    FrameFacts(w, f);
    InsertOwn(f.value.members, "id", IdToValue(f.id.value));
  }

  // One that matched only after rewriting does not.
  lemma {:induction false} SlowChangesId(w: World, rec: EventRecord, rf: Frame, f: Frame)
    requires Sound(w) && IsFrame(w, rf) && IsFrame(w, f) && RecordOf(w, rec, rf)
    requires Judge(w, rec, f, true) == Slow
    ensures f.id.Some? && rf.id.Some? && f.id != rf.id
  {
    ReplaceOwnId(w, f);
  }

  /** An accepted client frame teaches the engine an id exactly when it was recorded under that id and came
      under another. */
  lemma {:induction false} RenamerTeaches(w: World, t: TraceReader, frames: seq<Frame>, i: nat, x: Id, rf: Frame)
    requires Sound(w) && i < |frames| && C2aPos(t.events, i) < |t.events|
    requires IsFrame(w, rf) && IsFrame(w, frames[i]) && RecordOf(w, t.events[C2aPos(t.events, i)], rf)
    requires NoCollision(w, {rf.value, frames[i].value})
    requires Judge(w, t.events[C2aPos(t.events, i)], frames[i], true) != Refused
    ensures Teaches(RulesOf(w, t, true), t.events, frames, i, x) <==> rf.id == Some(x) && frames[i].id != Some(x)
  {
    var rec := t.events[C2aPos(t.events, i)];
    if Judge(w, rec, frames[i], true) == Fast {
      FastKeepsId(w, rec, rf, frames[i]);
    } else {
      SlowChangesId(w, rec, rf, frames[i]);
    }
  }

  /** Rewriting an id touches nothing else: the id member reads as the new id, every other member as before. */
  lemma {:induction false} WithIdTouchesIdOnly(v: Value, id: Id, key: string)
    requires v.Object?
    ensures Get(WithId(v, id).members, key) == if key == "id" then Some(IdToValue(id)) else Get(v.members, key)
  {
    InsertGet(v.members, "id", IdToValue(id), key);
  }
}
