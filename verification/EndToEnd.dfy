/** Record, then replay: what interactive replay of a recorded session gives back. */
module EndToEnd {
  import opened Base
  import opened Json
  import opened Canonical
  import opened Equality
  import opened Decoder
  import opened Members
  import opened Wire
  import opened Framing
  import opened Trace
  import opened Replay
  import opened ReplayTheory
  import opened ReplayModes
  import opened Proxy

  // The trace a reader opens after `hist` was recorded into the blob directory `start`.
  function RecordedTrace(w: World, start: Blobs, hist: seq<Entry>): TraceReader {
    TraceReader(EventsOf(w, hist), BlobsAfter(w, start, Frames(hist)))
  }

  lemma {:induction false} RecordedBlob(w: World, start: Blobs, hist: seq<Entry>, i: nat)
    requires Sound(w) && GoodBlobs(w, start) && AllFrames(w, Frames(hist)) && i < |hist|
    ensures var t := RecordedTrace(w, start, hist);
            LoadBlob(w, t.blobs, t.events[i]) == Ok(StoredRaw(w, start, Frames(hist), i))
  {
    EventsLoad(w, start, Frames(hist), i, EventOf(w, i, hist[i]));
  }

  lemma {:induction false} RecordedReadable(w: World, start: Blobs, hist: seq<Entry>)
    requires Sound(w) && GoodBlobs(w, start) && AllFrames(w, Frames(hist))
    ensures Readable(w, RecordedTrace(w, start, hist))
  {
    forall i | 0 <= i < |hist| ensures LoadBlob(w, RecordedTrace(w, start, hist).blobs, EventsOf(w, hist)[i]).Ok? {
      RecordedBlob(w, start, hist, i);
    }
  }

  // The events of one direction record the frames of that direction, in order.
  lemma {:induction false} EventsRecordFrames(w: World, hist: seq<Entry>, dir: Direction, p: nat)
    requires p <= |hist|
    ensures var es, fs := ProjectTo(EventsOf(w, hist), dir, p), RecordingsTo(hist, dir, p);
            |es| == |fs| && forall k | 0 <= k < |fs| :: RecordOf(w, es[k], fs[k])
  {
    if p > 0 {
      EventsRecordFrames(w, hist, dir, p - 1);
    }
  }

  // ---- the stored bytes against the recorded ones ----

  // What the store returns for each recorded frame.
  function AllStored(w: World, start: Blobs, fs: seq<Frame>): (r: seq<Bytes>)
    ensures |r| == |fs| && forall i | 0 <= i < |fs| :: r[i] == StoredRaw(w, start, fs, i)
  {
    seq(|fs|, i requires 0 <= i < |fs| => StoredRaw(w, start, fs, i))
  }

  // The texts of the a2c entries, among the first `upto`.
  function A2cTexts(hist: seq<Entry>, texts: seq<Bytes>, upto: nat): seq<Bytes>
    requires upto <= |hist| == |texts|
  {
    if upto == 0 then []
    else A2cTexts(hist, texts, upto - 1) + (if hist[upto - 1].dir == A2c then [texts[upto - 1]] else [])
  }

  function StoredA2c(w: World, start: Blobs, hist: seq<Entry>): seq<Bytes> {
    A2cTexts(hist, AllStored(w, start, Frames(hist)), |hist|)
  }

  lemma {:induction false} PlainTexts(
    events: seq<EventRecord>, text: EventRecord -> Bytes, hist: seq<Entry>, texts: seq<Bytes>, upto: nat)
    requires upto <= |hist| == |texts| == |events|
    requires forall i | 0 <= i < |hist| :: events[i].dir == hist[i].dir && text(events[i]) == texts[i]
    ensures PlainLines(events, text, upto) == A2cTexts(hist, texts, upto)
  {
    if upto > 0 {
      PlainTexts(events, text, hist, texts, upto - 1);
      assert hist[upto - 1].dir.C2a? || hist[upto - 1].dir.A2c?;
    }
  }

  lemma {:induction false} BlobsAreStored(w: World, start: Blobs, hist: seq<Entry>)
    requires Sound(w) && GoodBlobs(w, start) && AllFrames(w, Frames(hist))
    ensures A2cBlobs(w, RecordedTrace(w, start, hist), |hist|) == StoredA2c(w, start, hist)
  {
    var t := RecordedTrace(w, start, hist);
    var text := (rec: EventRecord) => BlobOf(w, t, rec);
    var texts := AllStored(w, start, Frames(hist));
    forall i | 0 <= i < |hist| ensures t.events[i].dir == hist[i].dir && text(t.events[i]) == texts[i] {
      RecordedBlob(w, start, hist, i);
    }
    PlainTexts(t.events, text, hist, texts, |hist|);
  }

  lemma {:induction false} RawsPush(fs: seq<Frame>, f: Frame)
    ensures Raws(fs + [f]) == Raws(fs) + [f.raw]
  {}

  // The a2c texts are the recorded ones exactly when each entry's is.
  lemma {:induction false} TextsAreRaws(hist: seq<Entry>, texts: seq<Bytes>, upto: nat)
    requires upto <= |hist| == |texts|
    ensures |A2cTexts(hist, texts, upto)| == |RecordingsTo(hist, A2c, upto)|
    ensures A2cTexts(hist, texts, upto) == Raws(RecordingsTo(hist, A2c, upto)) <==>
            forall i | 0 <= i < upto && hist[i].dir == A2c :: texts[i] == hist[i].frame.raw
  {
    if upto > 0 {
      TextsAreRaws(hist, texts, upto - 1);
      var s, r := A2cTexts(hist, texts, upto - 1), RecordingsTo(hist, A2c, upto - 1);
      var e := hist[upto - 1];
      if e.dir == A2c {
        RawsPush(r, e.frame);
        LastDecides(s, texts[upto - 1], Raws(r), e.frame.raw);
        assert A2cTexts(hist, texts, upto) == s + [texts[upto - 1]];
        assert RecordingsTo(hist, A2c, upto) == r + [e.frame];
      } else {
        assert s + [] == s && r + [] == r;
      }
    }
  }

  lemma {:induction false} LastDecides<T>(s: seq<T>, x: T, r: seq<T>, y: T)
    requires |s| == |r|
    ensures s + [x] == r + [y] <==> s == r && x == y
  {
    if s + [x] == r + [y] {
      assert s == (s + [x])[..|s|] && r == (r + [y])[..|r|];
      assert (s + [x])[|s|] == (r + [y])[|r|];
    }
  }

  // Frame `j` is the first of the run that equals frame `i` up to key order.
  ghost predicate FirstSame(fs: seq<Frame>, j: nat, i: nat)
    requires i < |fs|
  {
    j <= i && Same(fs[j].value, fs[i].value) && forall k | 0 <= k < j :: !Same(fs[k].value, fs[i].value)
  }

  /** When the raw bytes of frame `i` survive recording: they are those already in the blob directory, or,
      if there are none, those of the first frame of the run equal to it up to key order. */
  ghost predicate KeepsBytes(w: World, start: Blobs, fs: seq<Frame>, i: nat)
    requires i < |fs|
  {
    var p := BlobPath(w, fs[i].value);
    && (p in start ==> start[p] == fs[i].raw)
    && (p !in start ==> forall j: nat | FirstSame(fs, j, i) :: fs[j].raw == fs[i].raw)
  }

  lemma {:induction false} PathDecidesEquality(w: World, start: Blobs, fs: seq<Frame>, j: nat, i: nat)
    requires Sound(w) && AllFrames(w, fs) && NoCollisionInRun(w, start, fs) && j < |fs| && i < |fs|
    ensures BlobPath(w, fs[j].value) == BlobPath(w, fs[i].value) <==> Same(fs[j].value, fs[i].value)
  {
    assert IsFrame(w, fs[j]) && IsFrame(w, fs[i]);
    FrameFacts(w, fs[j]);
    FrameFacts(w, fs[i]);
    RecordedValue(w, start, fs, j);
    RecordedValue(w, start, fs, i);
    HashDecidesEquality(w, ValuesInRun(w, start, fs), fs[j].value, fs[i].value);
    CanonicalDecidesEquality(fs[j].value, fs[i].value);
    if BlobPath(w, fs[j].value) == BlobPath(w, fs[i].value) {
      SamePathSameHash(w, fs[j].value, fs[i].value);
    }
  }

  lemma {:induction false} KeepsBytesDecides(w: World, start: Blobs, fs: seq<Frame>, i: nat)
    requires Sound(w) && AllFrames(w, fs) && NoCollisionInRun(w, start, fs) && i < |fs|
    ensures StoredRaw(w, start, fs, i) == fs[i].raw <==> KeepsBytes(w, start, fs, i)
  {
    if BlobPath(w, fs[i].value) !in start {
      var first := FirstLike(w, fs, i);
      forall k: nat | k <= i
        ensures BlobPath(w, fs[k].value) == BlobPath(w, fs[i].value) <==> Same(fs[k].value, fs[i].value)
      {
        PathDecidesEquality(w, start, fs, k, i);
      }
      assert FirstSame(fs, first, i);
      forall j: nat | FirstSame(fs, j, i) ensures j == first {}
    }
  }

  // ---- the main theorem ----

  // A client that repeats the recorded client frames, keys permuted at will.
  ghost predicate Repeats(clients: seq<Frame>, frames: seq<Frame>) {
    && |frames| == |clients|
    && forall i | 0 <= i < |frames| :: Same(frames[i].value, clients[i].value)
  }

  lemma {:induction false} LineIsFrame(w: World, line: Bytes)
    ensures var r := LineFrame(w, line); r.Ok? ==> r.value.Some? && IsFrame(w, r.value.value)
  {
    if ParseFrame(w, line).Ok? {
      ParsedIsFrame(w, line);
    }
  }

  lemma {:induction false} NextIsFrame(w: World, s: Bytes)
    ensures var r := NextFrame(w, s).0; r.Ok? && r.value.Some? ==> IsFrame(w, r.value.value)
    decreases |s|
  {
    if s != [] {
      NextFrameStep(w, s);
      LineIsFrame(w, StripEnd(s[..LineLength(s)]));
      NextIsFrame(w, s[LineLength(s)..]);
    }
  }

  // Whatever a reader hands out came from the frame parser.
  lemma {:induction false} ReadAllFrames(w: World, s: Bytes)
    ensures AllFrames(w, ReadAll(w, s).frames)
    decreases |s|
  {
    NextIsFrame(w, s);
    var (r, rest) := NextFrame(w, s);
    if s != [] && r.Ok? && r.value.Some? {
      ReadAllFrames(w, rest);
    }
  }

  lemma {:induction false} RepeatedIsAccepted(w: World, hist: seq<Entry>, frames: seq<Frame>, i: nat)
    requires Sound(w) && AllFrames(w, Frames(hist)) && AllFrames(w, frames)
    requires Repeats(Recordings(hist, C2a), frames) && i < |frames|
    ensures SameHashAt(w, Project(EventsOf(w, hist), C2a), frames, i)
  {
    EventsRecordFrames(w, hist, C2a, |hist|);
    var clients := Recordings(hist, C2a);
    RecordingsAreFrames(w, hist, C2a, |hist|);
    assert IsFrame(w, clients[i]) && IsFrame(w, frames[i]);
    FrameFacts(w, clients[i]);
    FrameFacts(w, frames[i]);
    SameHash(w, frames[i].value, clients[i].value);
  }

  lemma {:induction false} RecordingsAreFrames(w: World, hist: seq<Entry>, dir: Direction, p: nat)
    requires p <= |hist| && AllFrames(w, Frames(hist))
    ensures AllFrames(w, RecordingsTo(hist, dir, p))
  {
    var fs := RecordingsTo(hist, dir, p);
    forall n | 0 <= n < |fs| ensures IsFrame(w, fs[n]) {
      var i := RecordingIsEntry(hist, dir, p, n);
      EntryIsFrame(w, hist, i);
    }
  }

  lemma {:induction false} EntryIsFrame(w: World, hist: seq<Entry>, i: nat)
    requires i < |hist| && AllFrames(w, Frames(hist))
    ensures IsFrame(w, hist[i].frame)
  {
    assert IsFrame(w, Frames(hist)[i]);
  }

  /** A client that repeats the recorded client frames up to key order is accepted to the end, and is sent
      the stored bytes of every a2c entry, in order. */
  lemma {:induction false} ReplaySendsStored(w: World, start: Blobs, hist: seq<Entry>, frames: seq<Frame>)
    requires Sound(w) && GoodBlobs(w, start) && AllFrames(w, Frames(hist)) && AllFrames(w, frames)
    requires Repeats(Recordings(hist, C2a), frames)
    ensures var o := Interactive(w, RecordedTrace(w, start, hist), Input(frames, None), false);
            o.error == None && o.st.lines == StoredA2c(w, start, hist)
  {
    var t := RecordedTrace(w, start, hist);
    RecordedReadable(w, start, hist);
    forall i | 0 <= i < |frames| ensures SameHashAt(w, Project(t.events, C2a), frames, i) {
      RepeatedIsAccepted(w, hist, frames, i);
    }
    assert |Project(t.events, C2a)| == |frames| by {
      EventsRecordFrames(w, hist, C2a, |hist|);
    }
    StrictSendsAll(w, t, frames);
    BlobsAreStored(w, start, hist);
  }

  lemma {:induction false} StoredNoLf(w: World, start: Blobs, fs: seq<Frame>, i: nat)
    requires GoodBlobs(w, start) && AllFrames(w, fs) && i < |fs|
    ensures LF !in StoredRaw(w, start, fs, i)
  {
    StoredRawHash(w, start, fs, i);
  }

  lemma {:induction false} TextsNoLf(hist: seq<Entry>, texts: seq<Bytes>, upto: nat)
    requires upto <= |hist| == |texts| && NoLf(texts)
    ensures NoLf(A2cTexts(hist, texts, upto))
  {
    if upto > 0 {
      TextsNoLf(hist, texts, upto - 1);
    }
  }

  lemma {:induction false} StoredA2cNoLf(w: World, start: Blobs, hist: seq<Entry>)
    requires GoodBlobs(w, start) && AllFrames(w, Frames(hist))
    ensures NoLf(StoredA2c(w, start, hist))
  {
    var texts := AllStored(w, start, Frames(hist));
    forall i | 0 <= i < |texts| ensures LF !in texts[i] {
      StoredNoLf(w, start, Frames(hist), i);
    }
    TextsNoLf(hist, texts, |hist|);
  }

  lemma {:induction false} RawsNoLf(w: World, fs: seq<Frame>)
    requires Sound(w) && AllFrames(w, fs)
    ensures NoLf(Raws(fs))
  {
    forall i | 0 <= i < |fs| ensures LF !in Raws(fs)[i] {
      assert IsFrame(w, fs[i]);
      FrameFacts(w, fs[i]);
    }
  }

  // The stored a2c lines make up the recorded bytes exactly when every a2c frame keeps its own.
  lemma {:induction false} ExactWhenKept(w: World, start: Blobs, hist: seq<Entry>)
    requires Sound(w) && GoodBlobs(w, start) && AllFrames(w, Frames(hist))
    requires NoCollisionInRun(w, start, Frames(hist))
    ensures Unlines(StoredA2c(w, start, hist)) == Unlines(Raws(Recordings(hist, A2c))) <==>
            forall i | 0 <= i < |hist| && hist[i].dir == A2c :: KeepsBytes(w, start, Frames(hist), i)
  {
    var fs := Frames(hist);
    forall i | 0 <= i < |hist|
      ensures StoredRaw(w, start, fs, i) == hist[i].frame.raw <==> KeepsBytes(w, start, fs, i)
    {
      KeepsBytesDecides(w, start, fs, i);
    }
    TextsAreRaws(hist, AllStored(w, start, fs), |hist|);
    StoredA2cNoLf(w, start, hist);
    RecordingsAreFrames(w, hist, A2c, |hist|);
    RawsNoLf(w, Recordings(hist, A2c));
    UnlinesInjective(StoredA2c(w, start, hist), Raws(Recordings(hist, A2c)));
  }

  // The trace the proxy leaves behind is the trace of what it recorded.
  lemma {:induction false} FinalTrace(w: World, start: Blobs, acts: seq<Action>, s: ProxyState)
    requires Reached(w, start, acts, s) && s.final.Some?
    ensures RecordedTrace(w, start, s.hist) == TraceReader(s.final.value.store.events, s.final.value.store.blobs)
    ensures AllFrames(w, Frames(s.hist)) && Recordings(s.hist, A2c) == s.a2c.sent
  {
    ReachedInv(w, start, acts, s);
    assert Frames(s.hist) + [] == Frames(s.hist);
  }

  /** Record then replay, end to end. For every schedule of the proxy's threads that finishes its trace, and
      every client byte stream whose frames repeat the recorded client frames up to key order: the replay
      succeeds, and writes exactly the bytes the a2c thread forwarded if and only if every a2c frame keeps
      its bytes in the store. */
  lemma {:induction false} RecordThenReplay(w: World, start: Blobs, acts: seq<Action>, s: ProxyState, stream: Bytes)
    requires Sound(w) && GoodBlobs(w, start) && Reached(w, start, acts, s) && s.final.Some?
    requires NoCollisionInRun(w, start, Frames(s.hist))
    requires ReadAll(w, stream).error == None && Repeats(Recordings(s.hist, C2a), ReadAll(w, stream).frames)
    ensures var t := TraceReader(s.final.value.store.events, s.final.value.store.blobs);
            var o := Interactive(w, t, ReadAll(w, stream), false);
            && o.error == None && |o.st.lines| == |s.a2c.sent|
            && (Unlines(o.st.lines) == Unlines(Raws(s.a2c.sent)) <==>
                forall i | 0 <= i < |s.hist| && s.hist[i].dir == A2c :: KeepsBytes(w, start, Frames(s.hist), i))
  {
    FinalTrace(w, start, acts, s);
    ReadAllFrames(w, stream);
    ReplaySendsStored(w, start, s.hist, ReadAll(w, stream).frames);
    TextsAreRaws(s.hist, AllStored(w, start, Frames(s.hist)), |s.hist|);
    ExactWhenKept(w, start, s.hist);
  }

  // A fresh blob directory, and an agent whose frames repeat their bytes whenever they repeat a value, are
  // enough for exactness.
  lemma {:induction false} RepeatedBytesSuffice(w: World, hist: seq<Entry>)
    requires forall i, j |
               0 <= j <= i < |hist| && hist[i].dir == A2c && Same(hist[j].frame.value, hist[i].frame.value) ::
               hist[j].frame.raw == hist[i].frame.raw
    ensures forall i | 0 <= i < |hist| && hist[i].dir == A2c :: KeepsBytes(w, map[], Frames(hist), i)
  {}

  lemma {:induction false} EntryOfText(hist: seq<Entry>, texts: seq<Bytes>, upto: nat, n: nat) returns (i: nat)
    requires upto <= |hist| == |texts| && n < |A2cTexts(hist, texts, upto)|
    ensures i < upto && n < |RecordingsTo(hist, A2c, upto)|
    ensures A2cTexts(hist, texts, upto)[n] == texts[i] && RecordingsTo(hist, A2c, upto)[n] == hist[i].frame
    decreases upto
  {
    TextsAreRaws(hist, texts, upto - 1);
    if n < |A2cTexts(hist, texts, upto - 1)| {
      i := EntryOfText(hist, texts, upto - 1, n);
    } else {
      i := upto - 1;
    }
  }

  lemma {:induction false} StoredTextsAgree(w: World, start: Blobs, hist: seq<Entry>, n: nat)
    requires Sound(w) && GoodBlobs(w, start) && AllFrames(w, Frames(hist))
    requires NoCollisionInRun(w, start, Frames(hist)) && n < |StoredA2c(w, start, hist)|
    ensures n < |Recordings(hist, A2c)|
    ensures SaysTheSame(w, StoredA2c(w, start, hist)[n], Recordings(hist, A2c)[n])
  {
    var i := EntryOfText(hist, AllStored(w, start, Frames(hist)), |hist|, n);
    LoadedFrameAgrees(w, start, Frames(hist), i);
  }

  // The line is a frame equal to `f` up to key order, with the same kind, method and id.
  ghost predicate SaysTheSame(w: World, line: Bytes, f: Frame) {
    && ParseFrame(w, line).Ok?
    && var g := ParseFrame(w, line).value;
       Same(g.value, f.value) && g.kind == f.kind && g.method_ == f.method_ && g.id == f.id
  }

  /** Whatever became of the bytes, the replayed conversation is the forwarded one up to key order, frame by
      frame, with the same kinds, methods and ids. */
  lemma {:induction false} ReplayIsFaithfulUpToKeyOrder(
    w: World, start: Blobs, acts: seq<Action>, s: ProxyState, stream: Bytes)
    requires Sound(w) && GoodBlobs(w, start) && Reached(w, start, acts, s) && s.final.Some?
    requires NoCollisionInRun(w, start, Frames(s.hist))
    requires ReadAll(w, stream).error == None && Repeats(Recordings(s.hist, C2a), ReadAll(w, stream).frames)
    ensures var t := TraceReader(s.final.value.store.events, s.final.value.store.blobs);
            var o := Interactive(w, t, ReadAll(w, stream), false);
            && o.error == None && |o.st.lines| == |s.a2c.sent|
            && forall n | 0 <= n < |s.a2c.sent| :: SaysTheSame(w, o.st.lines[n], s.a2c.sent[n])
  {
    FinalTrace(w, start, acts, s);
    ReadAllFrames(w, stream);
    ReplaySendsStored(w, start, s.hist, ReadAll(w, stream).frames);
    TextsAreRaws(s.hist, AllStored(w, start, Frames(s.hist)), |s.hist|);
    forall n | 0 <= n < |s.a2c.sent| ensures SaysTheSame(w, StoredA2c(w, start, s.hist)[n], s.a2c.sent[n]) {
      StoredTextsAgree(w, start, s.hist, n);
    }
  }

  // The canonical forms met when recording and then replaying to `frames`.
  ghost function ValuesMet(hist: seq<Entry>, frames: seq<Frame>): set<Value> {
    ValuesOf(Frames(hist)) + ValuesOf(frames)
  }

  /** Strict replay of a recorded trace, exactly: it succeeds iff the client's stream can be read and its frames
      are, one by one and up to key order, a prefix of the recorded client frames. */
  lemma {:induction false} StrictAcceptsExactly(w: World, start: Blobs, hist: seq<Entry>, input: Input)
    requires Sound(w) && GoodBlobs(w, start) && AllFrames(w, Frames(hist)) && AllFrames(w, input.frames)
    requires NoCollision(w, ValuesMet(hist, input.frames))
    ensures var clients := Recordings(hist, C2a);
            Interactive(w, RecordedTrace(w, start, hist), input, false).error == None <==>
            && input.error == None && |input.frames| <= |clients|
            && forall i | 0 <= i < |input.frames| :: Same(input.frames[i].value, clients[i].value)
  {
    var t := RecordedTrace(w, start, hist);
    var r := RulesOf(w, t, false);
    var clients, recs, n := Recordings(hist, C2a), Project(t.events, C2a), |input.frames|;
    RecordedReadable(w, start, hist);
    ReadableIsWritable(w, t, input.frames, false, C2aPos(t.events, n));
    SucceedsExactly(r, t.events, input);
    EventsRecordFrames(w, hist, C2a, |hist|);
    forall i | 0 <= i < n && i < |clients|
      ensures r.judge(recs[i], input.frames[i]) != Refused <==> Same(input.frames[i].value, clients[i].value)
    {
      StrictVerdict(w, hist, input.frames, i);
    }
  }

  lemma {:induction false} RecordingIsEntry(hist: seq<Entry>, dir: Direction, p: nat, n: nat) returns (i: nat)
    requires p <= |hist| && n < |RecordingsTo(hist, dir, p)|
    ensures i < p && RecordingsTo(hist, dir, p)[n] == hist[i].frame
    decreases p
  {
    if n < |RecordingsTo(hist, dir, p - 1)| {
      i := RecordingIsEntry(hist, dir, p - 1, n);
    } else {
      i := p - 1;
    }
  }

  lemma {:induction false} StrictVerdict(w: World, hist: seq<Entry>, frames: seq<Frame>, k: nat)
    requires Sound(w) && AllFrames(w, Frames(hist)) && AllFrames(w, frames)
    requires NoCollision(w, ValuesMet(hist, frames))
    requires k < |frames| && k < |Recordings(hist, C2a)| == |Project(EventsOf(w, hist), C2a)|
    ensures Judge(w, Project(EventsOf(w, hist), C2a)[k], frames[k], false) != Refused <==>
            Same(frames[k].value, Recordings(hist, C2a)[k].value)
  {
    EventsRecordFrames(w, hist, C2a, |hist|);
    var rf, f := Recordings(hist, C2a)[k], frames[k];
    var i := RecordingIsEntry(hist, C2a, |hist|, k);
    assert rf == Frames(hist)[i];
    assert IsFrame(w, rf) && IsFrame(w, f);
    assert rf.value in ValuesMet(hist, frames) && f.value in ValuesMet(hist, frames);
    FrameFacts(w, rf);
    FrameFacts(w, f);
    HashDecidesEquality(w, ValuesMet(hist, frames), f.value, rf.value);
  }

  // ---- byte exactness fails when an agent permutes keys ----

  const VERSION := Member("jsonrpc", String("2.0"))
  const PING := Member("method", String("ping"))

  // The same notification, said twice with its two members the other way round.
  const ONE_WAY := Object([VERSION, PING])
  const OTHER_WAY := Object([PING, VERSION])

  function Notice(v: Value): Frame {
    Frame(Notification, Some("ping"), None, v, Compact(v))
  }

  lemma {:induction false} KeysDiffer()
    ensures "jsonrpc" != "method" && "jsonrpc" != "id" && "jsonrpc" != "result" && "jsonrpc" != "error"
    ensures "method" != "id" && "method" != "result" && "method" != "error"
  {
    assert "jsonrpc"[0] == 'j' && "method"[0] == 'm' && "id"[0] == 'i' && "result"[0] == 'r' && "error"[0] == 'e';
  }

  lemma {:induction false} GetOfTwo(a: Member, b: Member, key: string)
    ensures Get([a, b], key) == if key == a.key then Some(a.val) else if key == b.key then Some(b.val) else None
  {
    assert [a, b][1..] == [b] && [b][1..] == [];
  }

  lemma {:induction false} NoticeHeading(a: Member, b: Member)
    requires (a == VERSION && b == PING) || (a == PING && b == VERSION)
    ensures WellFormed(Object([a, b])) && Classify(Object([a, b])) == Ok(Heading(Notification, Some("ping"), None))
  {
    KeysDiffer();
    GetOfTwo(a, b, "jsonrpc");
    GetOfTwo(a, b, "method");
    GetOfTwo(a, b, "id");
    GetOfTwo(a, b, "result");
    GetOfTwo(a, b, "error");
  }

  lemma {:induction false} NoticesAreFrames(w: World, v: Value)
    requires v == ONE_WAY || v == OTHER_WAY
    requires w.parse(Compact(v)) == Some(v)
    ensures WellFormed(v) && IsFrame(w, Notice(v))
  {
    NoticeHeading(v.members[0], v.members[1]);
    assert v == Object([v.members[0], v.members[1]]);
    CanonicalPrintable(v);
  }

  lemma {:induction false} TwoMembersSwapped(a: Member, b: Member)
    requires a.key != b.key && WellFormed(a.val) && WellFormed(b.val)
    ensures WellFormed(Object([a, b])) && WellFormed(Object([b, a]))
    ensures Same(Object([b, a]), Object([a, b])) && Compact(Object([b, a])) != Compact(Object([a, b]))
  {
    var m, n := [b, a], [a, b];
    forall key ensures Agree(m, n, key) {
      GetOfTwo(a, b, key);
      GetOfTwo(b, a, key);
      SameIffSortAlike(a.val, a.val);
      SameIffSortAlike(b.val, b.val);
    }
    SameIffAgree(m, n);
    assert m[0] != n[0];
    DecodeCompact(Object(m));
    DecodeCompact(Object(n));
  }

  lemma {:induction false} StoredTwice(w: World, f: Frame, g: Frame)
    requires BlobPath(w, f.value) == BlobPath(w, g.value)
    ensures var hist := [Entry(A2c, 0, f), Entry(A2c, 0, g)];
            StoredA2c(w, map[], hist) == [f.raw, f.raw]
  {
    var hist := [Entry(A2c, 0, f), Entry(A2c, 0, g)];
    var fs := Frames(hist);
    assert fs[0] == f && fs[1] == g;
    assert FirstLike(w, fs, 0) == 0 && FirstLike(w, fs, 1) == 0;
    assert A2cTexts(hist, AllStored(w, map[], fs), 1) == [f.raw];
  }

  lemma {:induction false} RecordingsOfTwo(f: Frame, g: Frame)
    ensures var hist := [Entry(A2c, 0, f), Entry(A2c, 0, g)];
            Recordings(hist, A2c) == [f, g] && Recordings(hist, C2a) == []
  {
    var hist := [Entry(A2c, 0, f), Entry(A2c, 0, g)];
    assert RecordingsTo(hist, C2a, 0) == [] && RecordingsTo(hist, A2c, 0) == [];
    assert RecordingsTo(hist, C2a, 1) == [] && RecordingsTo(hist, A2c, 1) == [f];
  }

  // Two a2c frames equal up to key order: the store has only the first one's bytes to give.
  lemma {:induction false} SaidTwice(w: World, f: Frame, g: Frame)
    requires Sound(w) && IsFrame(w, f) && IsFrame(w, g) && Same(g.value, f.value)
    ensures var hist := [Entry(A2c, 0, f), Entry(A2c, 0, g)];
            var o := Interactive(w, RecordedTrace(w, map[], hist), Input([], None), false);
            && o.error == None && o.st.lines == [f.raw, f.raw]
            && AllFrames(w, Frames(hist)) && Recordings(hist, A2c) == [f, g]
  {
    var hist := [Entry(A2c, 0, f), Entry(A2c, 0, g)];
    assert Frames(hist) == [f, g];
    RecordingsOfTwo(f, g);
    ReplaySendsStored(w, map[], hist, []);
    FrameFacts(w, f);
    FrameFacts(w, g);
    CanonicalDecidesEquality(g.value, f.value);
    StoredTwice(w, f, g);
  }

  /** "Byte for byte" does not hold of every session: an agent that sends one notification twice, its keys
      in a different order the second time, is replayed with the first text both times. */
  lemma {:induction false} ReplayIsNotAlwaysExact(w: World)
    requires Sound(w)
    requires w.parse(Compact(ONE_WAY)) == Some(ONE_WAY) && w.parse(Compact(OTHER_WAY)) == Some(OTHER_WAY)
    ensures var hist := [Entry(A2c, 0, Notice(ONE_WAY)), Entry(A2c, 0, Notice(OTHER_WAY))];
            var o := Interactive(w, RecordedTrace(w, map[], hist), Input([], None), false);
            && (exists acts, s :: Reached(w, map[], acts, s) && s.final.Some? && s.hist == hist)
            && o.error == None && o.st.lines == [Compact(ONE_WAY), Compact(ONE_WAY)]
            && Recordings(hist, A2c) == [Notice(ONE_WAY), Notice(OTHER_WAY)]
            && Compact(ONE_WAY) != Compact(OTHER_WAY)
  {
    KeysDiffer();
    TwoMembersSwapped(VERSION, PING);
    NoticesAreFrames(w, ONE_WAY);
    NoticesAreFrames(w, OTHER_WAY);
    SaidTwice(w, Notice(ONE_WAY), Notice(OTHER_WAY));
    var acts, s := EverySessionIsRecorded(w, map[], [Entry(A2c, 0, Notice(ONE_WAY)), Entry(A2c, 0, Notice(OTHER_WAY))]);
  }

  // ---- the assumptions are not empty ----

  // The decoder, restricted to well-formed trees, is a JSON parser of the kind assumed.
  function DecoderWorld(blake3: Bytes -> Bytes): World {
    World((b: Bytes) => match Decode(b)
                        case Some(v) => if WellFormed(v) then Some(v) else None
                        case None => None,
          blake3)
  }

  lemma {:induction false} AssumptionsAreMet(blake3: Bytes -> Bytes, v: Value)
    requires forall b: Bytes :: |blake3(b)| == 32
    requires WellFormed(v)
    ensures Sound(DecoderWorld(blake3))
    ensures DecoderWorld(blake3).parse(Compact(v)) == Some(v)
    ensures DecoderWorld(blake3).parse(Canonicalize(v)) == Some(SortKeys(v))
  {
    DecodeCompact(v);
    CanonicalFixedPoint(v);
  }
}
