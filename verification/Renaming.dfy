/** Replaying a recorded session to a client that numbers its requests differently: which id it is told for
    every response, and when that is its own. */
module Renaming {
  import opened Base
  import opened Json
  import opened Canonical
  import opened Equality
  import opened Members
  import opened Wire
  import opened Framing
  import opened Trace
  import opened Replay
  import opened ReplayTheory
  import opened ReplayModes
  import opened Proxy
  import opened EndToEnd

  // What a client sends instead of recorded frame `rf`: the same, with its id, if it has one, renamed.
  function Renamed(rf: Frame, id: Id): Value {
    if rf.id.Some? then WithId(rf.value, id) else rf.value
  }

  // A client that renames the id of its i-th frame to `ids[i]`, and permutes keys at will.
  ghost predicate RepeatsRenamed(clients: seq<Frame>, frames: seq<Frame>, ids: seq<Id>) {
    && |frames| == |clients| == |ids|
    && forall i | 0 <= i < |frames| :: Same(frames[i].value, Renamed(clients[i], ids[i]))
  }

  // No client frame collides with the recorded frame it stands for.
  ghost predicate NoCollisionInReplay(w: World, clients: seq<Frame>, frames: seq<Frame>) {
    forall i | 0 <= i < |clients| && i < |frames| :: NoCollision(w, {clients[i].value, frames[i].value})
  }

  lemma {:induction false} RenamedVerdict(w: World, hist: seq<Entry>, frames: seq<Frame>, ids: seq<Id>, i: nat)
    requires Sound(w) && AllFrames(w, Frames(hist)) && AllFrames(w, frames) && i < |frames|
    requires RepeatsRenamed(Recordings(hist, C2a), frames, ids)
    ensures var clients, recs := Recordings(hist, C2a), Project(EventsOf(w, hist), C2a);
            && i < |recs| && RecordOf(w, recs[i], clients[i]) && IsFrame(w, clients[i]) && IsFrame(w, frames[i])
            && Judge(w, recs[i], frames[i], true) != Refused
            && (clients[i].id.Some? ==> frames[i].id == Some(ids[i]))
  {
    EventsRecordFrames(w, hist, C2a, |hist|);
    RecordingsAreFrames(w, hist, C2a, |hist|);
    var rec, rf, f := Project(EventsOf(w, hist), C2a)[i], Recordings(hist, C2a)[i], frames[i];
    assert IsFrame(w, rf) && IsFrame(w, f);
    FrameFacts(w, rf);
    FrameFacts(w, f);
    if rf.id.Some? {
      RenamedIsAccepted(w, rec, rf, f, ids[i]);
    } else {
      SameHash(w, f.value, rf.value);
    }
  }

  /** A client that renames its ids by whatever rule is accepted to the end, and is sent one line for every
      recorded a2c frame, in order: no hypothesis on collisions is needed for that. */
  lemma {:induction false} RenamingIsAccepted(
    w: World, start: Blobs, hist: seq<Entry>, frames: seq<Frame>, ids: seq<Id>)
    requires Sound(w) && GoodBlobs(w, start) && AllFrames(w, Frames(hist)) && AllFrames(w, frames)
    requires RepeatsRenamed(Recordings(hist, C2a), frames, ids)
    ensures var t := RecordedTrace(w, start, hist);
            var o := Interactive(w, t, Input(frames, None), true);
            && o.error == None && |o.st.lines| == |Recordings(hist, A2c)|
            && forall p | 0 <= p < |hist| && hist[p].dir == A2c ::
                 var n := |RecordingsTo(hist, A2c, p)|;
                 n < |o.st.lines| && o.st.lines[n] == LineAt(RulesOf(w, t, true), t.events, frames, p)
  {
    var t := RecordedTrace(w, start, hist);
    var r := RulesOf(w, t, true);
    RecordedReadable(w, start, hist);
    ReadableIsWritable(w, t, frames, true, C2aPos(t.events, |frames|));
    EventsRecordFrames(w, hist, C2a, |hist|);
    var recs := Project(t.events, C2a);
    forall i | 0 <= i < |frames| ensures r.judge(recs[i], frames[i]) != Refused {
      RenamedVerdict(w, hist, frames, ids, i);
    }
    SucceedsExactly(r, t.events, Input(frames, None));
    CompleteRun(r, t.events, frames);
    LinesPlaced(w, hist, r, t.events, frames);
  }

  // The line of an a2c entry is the one whose number is that of the entry among the a2c entries.
  lemma {:induction false} LinesPlaced(
    w: World, hist: seq<Entry>, r: Rules, events: seq<EventRecord>, frames: seq<Frame>)
    requires events == EventsOf(w, hist)
    ensures var lines := LinesUpTo(r, events, frames, |events|);
            && |lines| == |Recordings(hist, A2c)|
            && forall p | 0 <= p < |hist| && hist[p].dir == A2c ::
                 var n := |RecordingsTo(hist, A2c, p)|;
                 n < |lines| && lines[n] == LineAt(r, events, frames, p)
  {
    LinesCounted(r, events, frames, |hist|);
    EventsRecordFrames(w, hist, C2a, |hist|);
    RecordingsSplit(hist, |hist|);
    forall p | 0 <= p < |hist| && hist[p].dir == A2c
      ensures var lines, n := LinesUpTo(r, events, frames, |events|), |RecordingsTo(hist, A2c, p)|;
              n < |lines| && lines[n] == LineAt(r, events, frames, p)
    {
      EventsRecordFrames(w, hist, C2a, p);
      RecordingsSplit(hist, p);
      LineStandsAt(r, events, frames, p, |hist|);
    }
  }

  lemma {:induction false} RecordingsSplit(hist: seq<Entry>, p: nat)
    requires p <= |hist|
    ensures |RecordingsTo(hist, C2a, p)| + |RecordingsTo(hist, A2c, p)| == p
  {
    if p > 0 {
      RecordingsSplit(hist, p - 1);
      assert hist[p - 1].dir.C2a? || hist[p - 1].dir.A2c?;
    }
  }

  /** Replay with `remap_ids`, exactly: it succeeds iff the client's stream can be read and its frames are, one by
      one, equal up to key order to a prefix of the recorded ones, ids apart where both sides have one. */
  lemma {:induction false} RemapAcceptsExactly(w: World, start: Blobs, hist: seq<Entry>, input: Input)
    requires Sound(w) && GoodBlobs(w, start) && AllFrames(w, Frames(hist)) && AllFrames(w, input.frames)
    requires forall i | 0 <= i < |input.frames| && i < |Recordings(hist, C2a)| ::
               NoCollision(w, Compared(Recordings(hist, C2a)[i], input.frames[i]))
    ensures var clients := Recordings(hist, C2a);
            Interactive(w, RecordedTrace(w, start, hist), input, true).error == None <==>
            && input.error == None && |input.frames| <= |clients|
            && forall i | 0 <= i < |input.frames| :: SameUpToId(clients[i], input.frames[i])
  {
    var t := RecordedTrace(w, start, hist);
    var r := RulesOf(w, t, true);
    var clients, recs, n := Recordings(hist, C2a), Project(t.events, C2a), |input.frames|;
    RecordedReadable(w, start, hist);
    ReadableIsWritable(w, t, input.frames, true, C2aPos(t.events, n));
    SucceedsExactly(r, t.events, input);
    EventsRecordFrames(w, hist, C2a, |hist|);
    RecordingsAreFrames(w, hist, C2a, |hist|);
    forall i | 0 <= i < n && i < |clients|
      ensures r.judge(recs[i], input.frames[i]) != Refused <==> SameUpToId(clients[i], input.frames[i])
    {
      assert IsFrame(w, clients[i]) && IsFrame(w, input.frames[i]);
      AcceptanceMeans(w, recs[i], clients[i], input.frames[i]);
    }
  }

  ghost predicate SameUpToId(rf: Frame, f: Frame) {
    Same(f.value, rf.value) ||
    (rf.id.Some? && f.id.Some? && f.value.Object? && rf.value.Object? && SameButId(f.value, rf.value))
  }

  // ---- which id the client is told ----

  // The i-th client frame was recorded under `x` and sent under another id.
  predicate Renamer(clients: seq<Frame>, ids: seq<Id>, i: nat, x: Id)
    requires i < |clients| == |ids|
  {
    clients[i].id == Some(x) && ids[i] != x
  }

  // What a response recorded under `x` is told as once `k` client frames have passed.
  function ToldId(clients: seq<Frame>, ids: seq<Id>, k: nat, x: Id): Id
    requires k <= |clients| == |ids|
  {
    if k == 0 then x
    else if Renamer(clients, ids, k - 1, x) then ids[k - 1]
    else ToldId(clients, ids, k - 1, x)
  }

  ghost predicate LastRenamer(clients: seq<Frame>, ids: seq<Id>, l: nat, k: nat, x: Id)
    requires k <= |clients| == |ids|
  {
    l < k && Renamer(clients, ids, l, x) && forall j | l < j < k :: !Renamer(clients, ids, j, x)
  }

  lemma {:induction false} ToldByLast(clients: seq<Frame>, ids: seq<Id>, k: nat, x: Id) returns (l: nat)
    requires k <= |clients| == |ids|
    ensures if ToldId(clients, ids, k, x) == x then forall i | 0 <= i < k :: !Renamer(clients, ids, i, x)
            else LastRenamer(clients, ids, l, k, x) && ToldId(clients, ids, k, x) == ids[l]
  {
    if k == 0 {
      l := 0;
    } else if Renamer(clients, ids, k - 1, x) {
      l := k - 1;
    } else {
      l := ToldByLast(clients, ids, k - 1, x);
    }
  }

  // The last frame before to rename the recorded id used the id of frame `q`; if none did, `q` kept it.
  ghost predicate TellsOwn(clients: seq<Frame>, ids: seq<Id>, q: nat, k: nat, x: Id)
    requires q < |clients| && k <= |clients| == |ids|
  {
    && (forall l: nat | LastRenamer(clients, ids, l, k, x) :: ids[l] == ids[q])
    && ((forall i | 0 <= i < k :: !Renamer(clients, ids, i, x)) ==> ids[q] == x)
  }

  /** A response is told under the id of the last frame before it that renamed its recorded id, whichever it
      answers, and under the recorded id if there is none. So the client that sends frame `q`, before the
      response or after it, is told its own id exactly when that frame used the same one, or there is none and
      `q` keeps the recorded id. */
  lemma {:induction false} ToldOwnId(clients: seq<Frame>, ids: seq<Id>, q: nat, k: nat, x: Id)
    requires q < |clients| && k <= |clients| == |ids| && clients[q].id == Some(x)
    ensures ToldId(clients, ids, k, x) == ids[q] <==> TellsOwn(clients, ids, q, k, x)
  {
    var last := ToldByLast(clients, ids, k, x);
    forall l: nat | LastRenamer(clients, ids, l, k, x) ensures ToldId(clients, ids, k, x) == ids[l] {
      assert Renamer(clients, ids, l, x);
    }
  }

  // Equal recorded ids become equal ids.
  ghost predicate Consistent(clients: seq<Frame>, ids: seq<Id>)
    requires |clients| == |ids|
  {
    forall i, j | 0 <= i < |clients| && 0 <= j < |clients| && clients[i].id == clients[j].id :: ids[i] == ids[j]
  }

  /** A client that renames consistently is told its own id exactly when it keeps the recorded id, or some frame
      of that recorded id precedes the response. */
  lemma {:induction false} ConsistentRenaming(clients: seq<Frame>, ids: seq<Id>, q: nat, k: nat, x: Id)
    requires q < |clients| && k <= |clients| == |ids| && clients[q].id == Some(x) && Consistent(clients, ids)
    ensures ToldId(clients, ids, k, x) == ids[q] <==>
            ids[q] == x || exists i | 0 <= i < k :: clients[i].id == Some(x)
  {
    var last := ToldByLast(clients, ids, k, x);
    if ToldId(clients, ids, k, x) == x {
      assert forall i | 0 <= i < k && clients[i].id == Some(x) :: !Renamer(clients, ids, i, x) && ids[i] == ids[q];
    } else {
      assert Renamer(clients, ids, last, x);
    }
  }

  // ---- what the engine writes ----

  // A renaming client, and everything recorded before it came.
  ghost predicate Setting(w: World, start: Blobs, hist: seq<Entry>, frames: seq<Frame>, ids: seq<Id>) {
    && Sound(w) && GoodBlobs(w, start) && AllFrames(w, Frames(hist)) && AllFrames(w, frames)
    && RepeatsRenamed(Recordings(hist, C2a), frames, ids)
    && NoCollisionInRun(w, start, Frames(hist)) && NoCollisionInReplay(w, Recordings(hist, C2a), frames)
  }

  lemma {:induction false} TeachesIffRenamed(
    w: World, start: Blobs, hist: seq<Entry>, frames: seq<Frame>, ids: seq<Id>, i: nat, x: Id)
    requires Setting(w, start, hist, frames, ids) && i < |frames|
    ensures var t := RecordedTrace(w, start, hist);
            Teaches(RulesOf(w, t, true), t.events, frames, i, x) <==> Renamer(Recordings(hist, C2a), ids, i, x)
  {
    var t := RecordedTrace(w, start, hist);
    RenamedVerdict(w, hist, frames, ids, i);
    C2aPosEnumerates(t.events, i);
    RenamerTeaches(w, t, frames, i, x, Recordings(hist, C2a)[i]);
  }

  // A map that learns from the renamers alone holds what is told.
  lemma {:induction false} MapFollows(
    r: Rules, events: seq<EventRecord>, frames: seq<Frame>, clients: seq<Frame>, ids: seq<Id>, k: nat, x: Id)
    requires k <= |frames| == |clients| == |ids|
    requires forall i | 0 <= i < k :: Teaches(r, events, frames, i, x) <==> Renamer(clients, ids, i, x)
    requires forall i | 0 <= i < k && Renamer(clients, ids, i, x) :: frames[i].id == Some(ids[i])
    ensures var m, told := MapAfter(r, events, frames, k), ToldId(clients, ids, k, x);
            if told == x then x !in m else x in m && m[x] == told
  {
    if k > 0 {
      MapFollows(r, events, frames, clients, ids, k - 1, x);
      IdMapStep(r, events, frames, k - 1, x);
      assert Teaches(r, events, frames, k - 1, x) <==> Renamer(clients, ids, k - 1, x);
    }
  }

  lemma {:induction false} MapIsTold(
    w: World, start: Blobs, hist: seq<Entry>, frames: seq<Frame>, ids: seq<Id>, k: nat, x: Id)
    requires Setting(w, start, hist, frames, ids) && k <= |frames|
    ensures var t := RecordedTrace(w, start, hist);
            var m, told := MapAfter(RulesOf(w, t, true), t.events, frames, k), ToldId(Recordings(hist, C2a), ids, k, x);
            if told == x then x !in m else x in m && m[x] == told
  {
    var t, clients := RecordedTrace(w, start, hist), Recordings(hist, C2a);
    forall i | 0 <= i < k
      ensures Teaches(RulesOf(w, t, true), t.events, frames, i, x) <==> Renamer(clients, ids, i, x)
      ensures Renamer(clients, ids, i, x) ==> frames[i].id == Some(ids[i])
    {
      TeachesIffRenamed(w, start, hist, frames, ids, i, x);
      RenamedVerdict(w, hist, frames, ids, i);
    }
    MapFollows(RulesOf(w, t, true), t.events, frames, clients, ids, k, x);
  }

  function ValueOf(w: World, raw: Bytes): Value {
    match w.parse(raw)
    case Some(v) => v
    case None => Null
  }

  // The id told for entry `p`, recorded under `x`.
  function Told(hist: seq<Entry>, ids: seq<Id>, p: nat, x: Id): Id
    requires p < |hist| && |ids| == |Recordings(hist, C2a)|
  {
    RecordingsGrow(hist, C2a, p, |hist|);
    ToldId(Recordings(hist, C2a), ids, |RecordingsTo(hist, C2a, p)|, x)
  }

  // The line for entry `p`: the stored bytes, or the stored response under the id the client is told.
  function ToldLine(w: World, start: Blobs, hist: seq<Entry>, ids: seq<Id>, p: nat): Bytes
    requires p < |hist| && |ids| == |Recordings(hist, C2a)|
  {
    var raw, f := StoredRaw(w, start, Frames(hist), p), hist[p].frame;
    if f.kind != Response || f.id == None then raw
    else
      var told := Told(hist, ids, p, f.id.value);
      if told == f.id.value then raw else Compact(WithId(ValueOf(w, raw), told))
  }

  lemma {:induction false} StoredFrame(w: World, start: Blobs, hist: seq<Entry>, p: nat) returns (g: Frame)
    requires Sound(w) && GoodBlobs(w, start) && AllFrames(w, Frames(hist)) && p < |hist|
    requires NoCollisionInRun(w, start, Frames(hist))
    ensures g.raw == StoredRaw(w, start, Frames(hist), p) && w.parse(g.raw) == Some(g.value)
    ensures IsFrame(w, g) && Same(g.value, hist[p].frame.value)
    ensures g.kind == hist[p].frame.kind && g.id == hist[p].frame.id
    ensures hist[p].dir == A2c ==> StoredAt(w, RecordedTrace(w, start, hist), p, g)
  {
    LoadedFrameAgrees(w, start, Frames(hist), p);
    RecordedBlob(w, start, hist, p);
    g := ParseFrame(w, StoredRaw(w, start, Frames(hist), p)).value;
    ParsedIsFrame(w, StoredRaw(w, start, Frames(hist), p));
  }

  lemma {:induction false} LineAtIs(w: World, t: TraceReader, frames: seq<Frame>, p: nat, k: nat, line: Bytes)
    requires p < |t.events| && ClientFramesBefore(t.events, p) == k <= |frames|
    requires OutLine(w, t, t.events[p], MapAfter(RulesOf(w, t, true), t.events, frames, k), true) == Ok(line)
    ensures LineAt(RulesOf(w, t, true), t.events, frames, p) == line
  {}

  // The map holds what is told for entry `p`, and nothing for ids that are told as recorded.
  ghost predicate HoldsTold(hist: seq<Entry>, ids: seq<Id>, p: nat, m: map<Id, Id>)
    requires p < |hist| && |ids| == |Recordings(hist, C2a)|
  {
    forall x :: if Told(hist, ids, p, x) == x then x !in m else x in m && m[x] == Told(hist, ids, p, x)
  }

  lemma {:induction false} MapHoldsTold(
    w: World, start: Blobs, hist: seq<Entry>, frames: seq<Frame>, ids: seq<Id>, p: nat) returns (k: nat)
    requires Setting(w, start, hist, frames, ids) && p < |hist|
    ensures var t := RecordedTrace(w, start, hist);
            && k == ClientFramesBefore(t.events, p) <= |frames|
            && HoldsTold(hist, ids, p, MapAfter(RulesOf(w, t, true), t.events, frames, k))
  {
    var t := RecordedTrace(w, start, hist);
    k := |RecordingsTo(hist, C2a, p)|;
    EventsRecordFrames(w, hist, C2a, p);
    RecordingsGrow(hist, C2a, p, |hist|);
    var m := MapAfter(RulesOf(w, t, true), t.events, frames, k);
    forall x ensures if Told(hist, ids, p, x) == x then x !in m else x in m && m[x] == Told(hist, ids, p, x) {
      MapIsTold(w, start, hist, frames, ids, k, x);
    }
  }

  lemma {:induction false} OutLineIsTold(w: World, start: Blobs, hist: seq<Entry>, ids: seq<Id>, p: nat, m: map<Id, Id>)
    requires Sound(w) && GoodBlobs(w, start) && AllFrames(w, Frames(hist)) && NoCollisionInRun(w, start, Frames(hist))
    requires p < |hist| && hist[p].dir == A2c && |ids| == |Recordings(hist, C2a)|
    requires HoldsTold(hist, ids, p, m)
    ensures var t := RecordedTrace(w, start, hist);
            OutLine(w, t, t.events[p], m, true) == Ok(ToldLine(w, start, hist, ids, p))
  {
    var t, f := RecordedTrace(w, start, hist), hist[p].frame;
    var g := StoredFrame(w, start, hist, p);
    if f.kind == Response && f.id.Some? {
      ResponseLine(w, t, p, g, m, f.id.value);
    } else {
      OtherLine(w, t, p, g, m);
    }
  }

  lemma {:induction false} LineIsTold(
    w: World, start: Blobs, hist: seq<Entry>, frames: seq<Frame>, ids: seq<Id>, p: nat)
    requires Setting(w, start, hist, frames, ids) && p < |hist| && hist[p].dir == A2c
    ensures var t := RecordedTrace(w, start, hist);
            LineAt(RulesOf(w, t, true), t.events, frames, p) == ToldLine(w, start, hist, ids, p)
  {
    var t := RecordedTrace(w, start, hist);
    var k := MapHoldsTold(w, start, hist, frames, ids, p);
    OutLineIsTold(w, start, hist, ids, p, MapAfter(RulesOf(w, t, true), t.events, frames, k));
    LineAtIs(w, t, frames, p, k, ToldLine(w, start, hist, ids, p));
  }

  /** Record under any schedule, then replay with `remap_ids` to a client that renames its ids by any rule: it is
      accepted to the end, and is sent for every recorded a2c frame, in order, the stored bytes, or the stored
      response under the id `Told` says. */
  lemma {:induction false} RecordThenRename(
    w: World, start: Blobs, acts: seq<Action>, s: ProxyState, stream: Bytes, ids: seq<Id>)
    requires Reached(w, start, acts, s) && s.final.Some? && ReadAll(w, stream).error == None
    requires Setting(w, start, s.hist, ReadAll(w, stream).frames, ids)
    ensures var t := TraceReader(s.final.value.store.events, s.final.value.store.blobs);
            var o := Interactive(w, t, ReadAll(w, stream), true);
            && o.error == None && |o.st.lines| == |s.a2c.sent|
            && forall p | 0 <= p < |s.hist| && s.hist[p].dir == A2c ::
                 var n := |RecordingsTo(s.hist, A2c, p)|;
                 n < |o.st.lines| && o.st.lines[n] == ToldLine(w, start, s.hist, ids, p)
  {
    FinalTrace(w, start, acts, s);
    RenamedLines(w, start, s.hist, ReadAll(w, stream).frames, ids);
  }

  lemma {:induction false} RenamedLines(w: World, start: Blobs, hist: seq<Entry>, frames: seq<Frame>, ids: seq<Id>)
    requires Setting(w, start, hist, frames, ids)
    ensures var o := Interactive(w, RecordedTrace(w, start, hist), Input(frames, None), true);
            && o.error == None && |o.st.lines| == |Recordings(hist, A2c)|
            && forall p | 0 <= p < |hist| && hist[p].dir == A2c ::
                 var n := |RecordingsTo(hist, A2c, p)|;
                 n < |o.st.lines| && o.st.lines[n] == ToldLine(w, start, hist, ids, p)
  {
    RenamingIsAccepted(w, start, hist, frames, ids);
    forall p | 0 <= p < |hist| && hist[p].dir == A2c
      ensures var t := RecordedTrace(w, start, hist);
              LineAt(RulesOf(w, t, true), t.events, frames, p) == ToldLine(w, start, hist, ids, p)
    {
      LineIsTold(w, start, hist, frames, ids, p);
    }
  }

  // ---- what the client makes of it ----

  lemma {:induction false} SameAfterWithId(w: World, g: Frame, f: Frame, id: Id)
    requires Sound(w) && IsFrame(w, g) && IsFrame(w, f) && Same(g.value, f.value)
    ensures Same(WithId(g.value, id), WithId(f.value, id))
  {
    FrameFacts(w, g);
    FrameFacts(w, f);
    IdRoundTrip(IdToValue(id), id);
    SameAfterInsert(g.value.members, f.value.members, "id", IdToValue(id));
  }

  // Replacing the id leaves every other member as it reads.
  lemma {:induction false} HeadingAfterInsert(ms: seq<Member>, r: seq<Member>, id: Id, h: Heading)
    requires Classify(Object(ms)) == Ok(h) && h.kind == Response
    requires forall key :: Get(r, key) == if key == "id" then Some(IdToValue(id)) else Get(ms, key)
    ensures Classify(Object(r)) == Ok(Heading(Response, None, Some(id)))
  {
    KeysDiffer();
    IdRoundTrip(IdToValue(id), id);
  }

  // A rewritten response is a response with the new id.
  lemma {:induction false} RewrittenHeading(w: World, g: Frame, id: Id)
    requires Sound(w) && IsFrame(w, g) && g.kind == Response
    ensures WellFormed(WithId(g.value, id)) && Classify(WithId(g.value, id)) == Ok(Heading(Response, None, Some(id)))
  {
    FrameFacts(w, g);
    WithIdWellFormed(g.value, id);
    var ms := g.value.members;
    forall key
      ensures Get(Insert(ms, "id", IdToValue(id)), key) == if key == "id" then Some(IdToValue(id)) else Get(ms, key)
    {
      InsertGet(ms, "id", IdToValue(id), key);
    }
    HeadingAfterInsert(ms, Insert(ms, "id", IdToValue(id)), id, Heading(g.kind, g.method_, g.id));
  }

  // The parser reads back what the serializer prints for this value.
  ghost predicate ReadsBack(w: World, v: Value) {
    w.parse(Compact(v)) == Some(v)
  }

  /** The told line is the recorded response under the told id, up to key order; and a client whose parser reads
      back what was printed for it reads a response with that id. */
  lemma {:induction false} ToldLineMeans(
    w: World, start: Blobs, hist: seq<Entry>, ids: seq<Id>, p: nat, x: Id) returns (v: Value)
    requires Sound(w) && GoodBlobs(w, start) && AllFrames(w, Frames(hist)) && NoCollisionInRun(w, start, Frames(hist))
    requires p < |hist| && |ids| == |Recordings(hist, C2a)|
    requires hist[p].frame.kind == Response && hist[p].frame.id == Some(x)
    ensures var line, told := ToldLine(w, start, hist, ids, p), Told(hist, ids, p, x);
            && v == WithId(ValueOf(w, StoredRaw(w, start, Frames(hist), p)), told)
            && Carries(w, line, v) && Same(v, WithId(hist[p].frame.value, told))
            && (told == x || ReadsBack(w, v) ==>
                  ParseFrame(w, line) == Ok(Frame(Response, None, Some(told), v, line)))
  {
    var f, told := hist[p].frame, Told(hist, ids, p, x);
    var line := ToldLine(w, start, hist, ids, p);
    var g := StoredFrame(w, start, hist, p);
    assert IsFrame(w, f) by { assert Frames(hist)[p] == f; }
    v := WithId(g.value, told);
    SameAfterWithId(w, g, f, told);
    RewrittenHeading(w, g, told);
    CanonicalPrintable(v);
    if told == x {
      FrameFacts(w, g);
      InsertOwn(g.value.members, "id", IdToValue(x));
    }
  }

  /** What replay writes to such a client for a recorded response: the response under the told id, up to key order.
      The client that sends frame `q` reads its own id there exactly when `TellsOwn` says so. */
  lemma {:induction false} RenamedClientGetsItsIds(
    w: World, start: Blobs, acts: seq<Action>, s: ProxyState, stream: Bytes, ids: seq<Id>, p: nat, q: nat, x: Id)
    returns (v: Value)
    requires Reached(w, start, acts, s) && s.final.Some? && ReadAll(w, stream).error == None
    requires Setting(w, start, s.hist, ReadAll(w, stream).frames, ids)
    requires p < |s.hist| && s.hist[p].dir == A2c
    requires s.hist[p].frame.kind == Response && s.hist[p].frame.id == Some(x)
    requires q < |Recordings(s.hist, C2a)| && Recordings(s.hist, C2a)[q].id == Some(x)
    ensures var t := TraceReader(s.final.value.store.events, s.final.value.store.blobs);
            var lines := Interactive(w, t, ReadAll(w, stream), true).st.lines;
            var n, k := |RecordingsTo(s.hist, A2c, p)|, |RecordingsTo(s.hist, C2a, p)|;
            var told := Told(s.hist, ids, p, x);
            && n < |lines| && k <= |Recordings(s.hist, C2a)|
            && Carries(w, lines[n], v) && Same(v, WithId(s.hist[p].frame.value, told))
            && (told == x || ReadsBack(w, v) ==>
                  && ParseFrame(w, lines[n]) == Ok(Frame(Response, None, Some(told), v, lines[n]))
                  && (told == ids[q] <==> TellsOwn(Recordings(s.hist, C2a), ids, q, k, x)))
  {
    RecordThenRename(w, start, acts, s, stream, ids);
    FinalTrace(w, start, acts, s);
    v := ToldLineMeans(w, start, s.hist, ids, p, x);
    RecordingsGrow(s.hist, C2a, p, |s.hist|);
    ToldOwnId(Recordings(s.hist, C2a), ids, q, |RecordingsTo(s.hist, C2a, p)|, x);
  }
}
