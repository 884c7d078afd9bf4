/** The recorded trace: an append-only event log and a content-addressed blob store keyed by canonical hash. */
module Trace {
  import opened Base
  import opened Json
  import opened Canonical
  import opened Wire

  datatype Direction = C2a | A2c

  datatype EventRecord = EventRecord(
    seqNo: nat, tWallNs: nat, dir: Direction, kind: Kind, method_: Option<string>, id: Option<Id>,
    hash: string, bytes: nat)

  datatype TraceError = DanglingBlob(hash: string) | BadBlob(e: WireError) | HashMismatch(expected: string, got: string)

  // `blobs/<first two hex digits>/<the rest>`
  type Path = (string, string)
  type Blobs = map<Path, Bytes>

  function SplitAt2(hex: string): Path {
    if |hex| < 2 then ("", hex) else (hex[..2], hex[2..])
  }

  function BlobPath(w: World, v: Value): Path {
    SplitAt2(HexText(w.blake3(Canonicalize(v))))
  }

  // One call of `record`: when, in which direction, which frame.
  datatype Entry = Entry(dir: Direction, now: nat, frame: Frame)

  function EventOf(w: World, seqNo: nat, e: Entry): EventRecord {
    EventRecord(seqNo, e.now, e.dir, e.frame.kind, e.frame.method_, e.frame.id,
                HashText(w, e.frame.value), |e.frame.raw|)
  }

  datatype Store = Store(blobs: Blobs, events: seq<EventRecord>, nextSeq: nat)

  // Create-new: an existing blob is left as it is.
  function FillBlob(w: World, blobs: Blobs, f: Frame): Blobs {
    var p := BlobPath(w, f.value);
    if p in blobs then blobs else blobs[p := f.raw]
  }

  function AppendEvent(w: World, st: Store, e: Entry): Store {
    Store(st.blobs, st.events + [EventOf(w, st.nextSeq, e)], st.nextSeq + 1)
  }

  // `record` up to the point where the blob is on disk and the event is not.
  function FillStore(w: World, st: Store, f: Frame): Store {
    Store(FillBlob(w, st.blobs, f), st.events, st.nextSeq)
  }

  function RecordEntry(w: World, st: Store, e: Entry): Store {
    AppendEvent(w, FillStore(w, st, e.frame), e)
  }

  class TraceWriter {
    var blobs: Blobs
    var events: seq<EventRecord>
    var nextSeq: nat
    var eventCount: Option<nat>  // the manifest's, known once finalized

    ghost function State(): Store
      reads this
    {
      Store(blobs, events, nextSeq)
    }

    // A trace directory may be reused: its blobs stay, its event log is truncated.
    constructor (existing: Blobs)
      ensures State() == Store(existing, [], 0) && eventCount == None
    {
      blobs, events, nextSeq, eventCount := existing, [], 0, None;
    }

    method Record(w: World, dir: Direction, now: nat, frame: Frame) returns (hash: string)
      modifies this
      ensures State() == RecordEntry(w, old(State()), Entry(dir, now, frame))
      ensures hash == HashText(w, frame.value) && eventCount == old(eventCount)
    {
      var canonical := CanonicalBytes(frame.value);
      var hex := HexText(w.blake3(canonical));
      hash := PREFIX + hex;
      var path := SplitAt2(hex);
      if path !in blobs {
        blobs := blobs[path := frame.raw];
      }
      events := events + [EventRecord(nextSeq, now, dir, frame.kind, frame.method_, frame.id, hash, |frame.raw|)];
      nextSeq := nextSeq + 1;
    }

    method Finalize()
      modifies this
      ensures State() == old(State()) && eventCount == Some(nextSeq)
    {
      eventCount := Some(nextSeq);
    }
  }

  function LoadBlob(w: World, blobs: Blobs, rec: EventRecord): Result<Bytes, TraceError> {
    if !(PREFIX <= rec.hash) || |rec.hash| < |PREFIX| + 2 then Err(DanglingBlob(rec.hash))
    else
      var path := SplitAt2(rec.hash[|PREFIX|..]);
      if path !in blobs then Err(DanglingBlob(rec.hash))
      else
        match ParseFrame(w, blobs[path])
        case Err(e) => Err(BadBlob(e))
        case Ok(f) =>
          var got := HashText(w, f.value);
          if got != rec.hash then Err(HashMismatch(rec.hash, got)) else Ok(blobs[path])
  }

  // ---- what loads, and what is wrong with the rest ----

  /** The layout of the store: the directory is the first two of the 64 digits, the file the other 62. */
  lemma {:induction false} BlobPathLayout(w: World, v: Value)
    requires Sound(w)
    ensures var (dir, file) := BlobPath(w, v);
            |dir| == 2 && |file| == 62 && HashText(w, v) == "blake3:" + dir + file
  {
    var hex := HexText(w.blake3(Canonicalize(v)));
    assert hex == hex[..2] + hex[2..];
    Assoc(PREFIX, hex[..2], hex[2..]);
  }

  // The hash text names a directory and a file.
  ghost predicate Names(hash: string, dir: string, file: string) {
    |dir| == 2 && hash == "blake3:" + dir + file
  }

  lemma {:induction false} NamesOnePath(hash: string, dir: string, file: string)
    ensures Names(hash, dir, file) <==>
            "blake3:" <= hash && |hash| >= 9 && SplitAt2(hash[7..]) == (dir, file)
  {
    if Names(hash, dir, file) {
      assert hash[7..] == dir + file;
      assert (dir + file)[..2] == dir && (dir + file)[2..] == file;
    }
    if "blake3:" <= hash && |hash| >= 9 && SplitAt2(hash[7..]) == (dir, file) {
      assert hash[7..] == dir + file;
      assert hash == "blake3:" + hash[7..];
    }
  }

  // Event `rec` and bytes `b` belong together: `b` lies where the hash names and is a frame of that hash.
  ghost predicate Matches(w: World, blobs: Blobs, rec: EventRecord, b: Bytes) {
    && (exists dir, file :: Names(rec.hash, dir, file) && (dir, file) in blobs && blobs[(dir, file)] == b)
    && ParseFrame(w, b).Ok? && HashText(w, ParseFrame(w, b).value.value) == rec.hash
  }

  /** Any blob directory, damaged or not: an event loads exactly the bytes that lie where its hash names, if they
      are a frame of that very hash. A hash without that form or that file dangles, bytes that are no frame are
      reported as such, and a frame of another hash is a mismatch. */
  lemma {:induction false} LoadBlobExactly(w: World, blobs: Blobs, rec: EventRecord)
    ensures forall b :: LoadBlob(w, blobs, rec) == Ok(b) <==> Matches(w, blobs, rec, b)
    ensures LoadBlob(w, blobs, rec) == Err(DanglingBlob(rec.hash)) <==>
            !exists dir, file :: Names(rec.hash, dir, file) && (dir, file) in blobs
    ensures forall dir, file | Names(rec.hash, dir, file) && (dir, file) in blobs ::
              match ParseFrame(w, blobs[(dir, file)])
              case Err(e) => LoadBlob(w, blobs, rec) == Err(BadBlob(e))
              case Ok(f) => HashText(w, f.value) != rec.hash ==>
                              LoadBlob(w, blobs, rec) == Err(HashMismatch(rec.hash, HashText(w, f.value)))
  {
    forall dir, file
      ensures Names(rec.hash, dir, file) <==>
              "blake3:" <= rec.hash && |rec.hash| >= 9 && SplitAt2(rec.hash[7..]) == (dir, file)
    {
      NamesOnePath(rec.hash, dir, file);
    }
    if "blake3:" <= rec.hash && |rec.hash| >= 9 {
      var (dir, file) := SplitAt2(rec.hash[7..]);
      assert Names(rec.hash, dir, file);
    }
  }

  // ---- the state after any run, in closed form ----

  function Frames(hist: seq<Entry>): (r: seq<Frame>)
    ensures |r| == |hist| && forall i | 0 <= i < |r| :: r[i] == hist[i].frame
  {
    seq(|hist|, i requires 0 <= i < |hist| => hist[i].frame)
  }

  function BlobsAfter(w: World, start: Blobs, fs: seq<Frame>): Blobs {
    if fs == [] then start else FillBlob(w, BlobsAfter(w, start, fs[..|fs| - 1]), fs[|fs| - 1])
  }

  function EventsOf(w: World, hist: seq<Entry>): (r: seq<EventRecord>)
    ensures |r| == |hist| && forall i | 0 <= i < |r| :: r[i] == EventOf(w, i, hist[i])
  {
    seq(|hist|, i requires 0 <= i < |hist| => EventOf(w, i, hist[i]))
  }

  // The frames recorded in one direction, among the first `p` entries.
  function RecordingsTo(hist: seq<Entry>, dir: Direction, p: nat): seq<Frame>
    requires p <= |hist|
  {
    if p == 0 then []
    else RecordingsTo(hist, dir, p - 1) + (if hist[p - 1].dir == dir then [hist[p - 1].frame] else [])
  }

  function Recordings(hist: seq<Entry>, dir: Direction): seq<Frame> {
    RecordingsTo(hist, dir, |hist|)
  }

  lemma {:induction false} RecordingsOfPrefix(hist: seq<Entry>, e: Entry, dir: Direction, p: nat)
    requires p <= |hist|
    ensures RecordingsTo(hist + [e], dir, p) == RecordingsTo(hist, dir, p)
  {
    if p > 0 {
      RecordingsOfPrefix(hist, e, dir, p - 1);
    }
  }

  function Recorded(w: World, start: Blobs, hist: seq<Entry>): Store {
    Store(BlobsAfter(w, start, Frames(hist)), EventsOf(w, hist), |hist|)
  }

  // Recording one more frame extends the closed form: log position, `next_seq` and blobs stay in step.
  lemma {:induction false} RecordedStep(w: World, start: Blobs, hist: seq<Entry>, e: Entry)
    ensures RecordEntry(w, Recorded(w, start, hist), e) == Recorded(w, start, hist + [e])
    ensures FillBlob(w, BlobsAfter(w, start, Frames(hist)), e.frame) == BlobsAfter(w, start, Frames(hist) + [e.frame])
  {
    var fs := Frames(hist);
    assert Frames(hist + [e]) == fs + [e.frame];
    assert (fs + [e.frame])[..|fs|] == fs;
    assert EventsOf(w, hist + [e]) == EventsOf(w, hist) + [EventOf(w, |hist|, e)];
  }

  // Every stored blob parses, and lies at the path of its own hash.
  ghost predicate GoodBlobs(w: World, blobs: Blobs) {
    forall p | p in blobs ::
      ParseFrame(w, blobs[p]).Ok? && BlobPath(w, ParseFrame(w, blobs[p]).value.value) == p
  }

  ghost predicate AllFrames(w: World, fs: seq<Frame>) {
    forall i | 0 <= i < |fs| :: IsFrame(w, fs[i])
  }

  lemma {:induction false} BlobsStayGood(w: World, start: Blobs, fs: seq<Frame>)
    requires GoodBlobs(w, start) && AllFrames(w, fs)
    ensures GoodBlobs(w, BlobsAfter(w, start, fs))
  {
    if fs != [] {
      BlobsStayGood(w, start, fs[..|fs| - 1]);
      assert IsFrame(w, fs[|fs| - 1]);
    }
  }

  // A blob, once written, is there for good and never changes.
  lemma {:induction false} BlobsOnlyGrow(w: World, start: Blobs, fs: seq<Frame>, k: nat)
    requires k <= |fs|
    ensures forall p | p in BlobsAfter(w, start, fs[..k]) ::
              p in BlobsAfter(w, start, fs) && BlobsAfter(w, start, fs)[p] == BlobsAfter(w, start, fs[..k])[p]
    decreases |fs|
  {
    if k < |fs| {
      BlobsOnlyGrow(w, start, fs[..|fs| - 1], k);
      assert fs[..|fs| - 1][..k] == fs[..k];
    } else {
      assert fs[..k] == fs;
    }
  }

  // The first frame of the run that hashes like `fs[i]`.
  function FirstLike(w: World, fs: seq<Frame>, i: nat): (j: nat)
    requires i < |fs|
    ensures j <= i && BlobPath(w, fs[j].value) == BlobPath(w, fs[i].value)
    ensures forall k | 0 <= k < j :: BlobPath(w, fs[k].value) != BlobPath(w, fs[i].value)
  {
    FirstLikeFrom(w, fs, i, 0)
  }

  function FirstLikeFrom(w: World, fs: seq<Frame>, i: nat, from: nat): (j: nat)
    requires from <= i < |fs|
    requires forall k | 0 <= k < from :: BlobPath(w, fs[k].value) != BlobPath(w, fs[i].value)
    ensures from <= j <= i && BlobPath(w, fs[j].value) == BlobPath(w, fs[i].value)
    ensures forall k | 0 <= k < j :: BlobPath(w, fs[k].value) != BlobPath(w, fs[i].value)
    decreases i - from
  {
    if BlobPath(w, fs[from].value) == BlobPath(w, fs[i].value) then from else FirstLikeFrom(w, fs, i, from + 1)
  }

  // The bytes the store keeps for a frame: those already there at the start, else the first raw bytes seen.
  function StoredRaw(w: World, start: Blobs, fs: seq<Frame>, i: nat): Bytes
    requires i < |fs|
  {
    var p := BlobPath(w, fs[i].value);
    if p in start then start[p] else fs[FirstLike(w, fs, i)].raw
  }

  lemma {:induction false} AbsentUntilFirst(w: World, start: Blobs, fs: seq<Frame>, p: Path)
    requires p !in start && forall k | 0 <= k < |fs| :: BlobPath(w, fs[k].value) != p
    ensures p !in BlobsAfter(w, start, fs)
  {
    if fs != [] {
      AbsentUntilFirst(w, start, fs[..|fs| - 1], p);
    }
  }

  lemma {:induction false} FirstWrite(w: World, start: Blobs, fs: seq<Frame>, j: nat)
    requires j < |fs| && BlobPath(w, fs[j].value) !in BlobsAfter(w, start, fs[..j])
    ensures var p := BlobPath(w, fs[j].value);
            p in BlobsAfter(w, start, fs[..j + 1]) && BlobsAfter(w, start, fs[..j + 1])[p] == fs[j].raw
  {
    assert fs[..j + 1][..j] == fs[..j];
  }

  /** The store keeps the first raw bytes seen for each canonical hash, and only those. */
  lemma {:induction false} FirstRawWins(w: World, start: Blobs, fs: seq<Frame>, i: nat)
    requires i < |fs|
    ensures var p := BlobPath(w, fs[i].value);
            p in BlobsAfter(w, start, fs) && BlobsAfter(w, start, fs)[p] == StoredRaw(w, start, fs, i)
  {
    var p := BlobPath(w, fs[i].value);
    if p in start {
      BlobsOnlyGrow(w, start, fs, 0);
      assert fs[..0] == [];
    } else {
      var j := FirstLike(w, fs, i);
      AbsentUntilFirst(w, start, fs[..j], p);
      FirstWrite(w, start, fs, j);
      BlobsOnlyGrow(w, start, fs, j + 1);
    }
  }

  lemma {:induction false} SamePathSameHash(w: World, v: Value, u: Value)
    requires BlobPath(w, v) == BlobPath(w, u)
    ensures HashText(w, v) == HashText(w, u)
  {
    var a, b := HexText(w.blake3(Canonicalize(v))), HexText(w.blake3(Canonicalize(u)));
    if |a| >= 2 {
      assert a == a[..2] + a[2..];
    }
    if |b| >= 2 {
      assert b == b[..2] + b[2..];
    }
    assert |a| % 2 == 0 && |b| % 2 == 0;
  }

  // What the store keeps for a frame is itself a frame with the same hash.
  lemma {:induction false} StoredRawHash(w: World, start: Blobs, fs: seq<Frame>, i: nat)
    requires GoodBlobs(w, start) && AllFrames(w, fs) && i < |fs|
    ensures ParseFrame(w, StoredRaw(w, start, fs, i)).Ok?
    ensures HashText(w, ParseFrame(w, StoredRaw(w, start, fs, i)).value.value) == HashText(w, fs[i].value)
  {
    var raw := StoredRaw(w, start, fs, i);
    if BlobPath(w, fs[i].value) !in start {
      assert IsFrame(w, fs[FirstLike(w, fs, i)]);
    }
    SamePathSameHash(w, ParseFrame(w, raw).value.value, fs[i].value);
  }

  /** Every logged event loads, whatever was recorded and at every cut between blob fill and event append
      (`fs` may run past the log): the loaded bytes are the first raw bytes, and hash as the event says. */
  lemma {:induction false} EventsLoad(w: World, start: Blobs, fs: seq<Frame>, i: nat, rec: EventRecord)
    requires Sound(w) && GoodBlobs(w, start) && AllFrames(w, fs)
    requires i < |fs| && rec.hash == HashText(w, fs[i].value)
    ensures LoadBlob(w, BlobsAfter(w, start, fs), rec) == Ok(StoredRaw(w, start, fs, i))
    ensures ParseFrame(w, StoredRaw(w, start, fs, i)).Ok?
    ensures HashText(w, ParseFrame(w, StoredRaw(w, start, fs, i)).value.value) == rec.hash
  {
    FirstRawWins(w, start, fs, i);
    StoredRawHash(w, start, fs, i);
    var hex := HexText(w.blake3(Canonicalize(fs[i].value)));
    assert rec.hash[|PREFIX|..] == hex;
  }

  ghost function BlobValues(w: World, blobs: Blobs): set<Value> {
    set p | p in blobs && w.parse(blobs[p]).Some? :: w.parse(blobs[p]).value
  }

  ghost function ValuesOf(fs: seq<Frame>): set<Value> {
    set i | 0 <= i < |fs| :: fs[i].value
  }

  ghost function ValuesInRun(w: World, start: Blobs, fs: seq<Frame>): set<Value> {
    BlobValues(w, start) + ValuesOf(fs)
  }

  // No two of the canonical forms met in a run collide: those recorded and those found in the directory.
  ghost predicate NoCollisionInRun(w: World, start: Blobs, fs: seq<Frame>) {
    NoCollision(w, ValuesInRun(w, start, fs))
  }

  lemma {:induction false} RecordedValue(w: World, start: Blobs, fs: seq<Frame>, i: nat)
    requires i < |fs|
    ensures fs[i].value in ValuesInRun(w, start, fs)
  {}

  lemma {:induction false} StoredRawValue(w: World, start: Blobs, fs: seq<Frame>, i: nat)
    requires GoodBlobs(w, start) && AllFrames(w, fs) && i < |fs|
    ensures w.parse(StoredRaw(w, start, fs, i)).Some?
    ensures w.parse(StoredRaw(w, start, fs, i)).value in ValuesInRun(w, start, fs)
  {
    var p := BlobPath(w, fs[i].value);
    if p in start {
      ParsedIsFrame(w, start[p]);
    } else {
      var j := FirstLike(w, fs, i);
      assert IsFrame(w, fs[j]);
      ParsedIsFrame(w, fs[j].raw);
      RecordedValue(w, start, fs, j);
    }
  }

  lemma {:induction false} HashAlikeFramesAgree(w: World, vs: set<Value>, g: Frame, f: Frame)
    requires Sound(w) && IsFrame(w, g) && IsFrame(w, f)
    requires g.value in vs && f.value in vs && NoCollision(w, vs)
    requires HashText(w, g.value) == HashText(w, f.value)
    ensures Same(g.value, f.value) && g.kind == f.kind && g.method_ == f.method_ && g.id == f.id
  {
    FrameFacts(w, g);
    FrameFacts(w, f);
    HashDecidesEquality(w, vs, g.value, f.value);
    SameClassify(g.value, f.value);
  }

  /** The loaded frame agrees with its event in kind, method and id, and with the recorded frame up to key
      order, even when the blob came from an earlier frame with permuted keys. */
  lemma {:induction false} LoadedFrameAgrees(w: World, start: Blobs, fs: seq<Frame>, i: nat)
    requires Sound(w) && GoodBlobs(w, start) && AllFrames(w, fs) && i < |fs|
    requires NoCollisionInRun(w, start, fs)
    ensures ParseFrame(w, StoredRaw(w, start, fs, i)).Ok?
    ensures var g := ParseFrame(w, StoredRaw(w, start, fs, i)).value;
            Same(g.value, fs[i].value) && g.kind == fs[i].kind && g.method_ == fs[i].method_ && g.id == fs[i].id
  {
    StoredRawHash(w, start, fs, i);
    StoredRawValue(w, start, fs, i);
    RecordedValue(w, start, fs, i);
    ParsedIsFrame(w, StoredRaw(w, start, fs, i));
    assert IsFrame(w, fs[i]);
    HashAlikeFramesAgree(w, ValuesInRun(w, start, fs), ParseFrame(w, StoredRaw(w, start, fs, i)).value, fs[i]);
  }
}
