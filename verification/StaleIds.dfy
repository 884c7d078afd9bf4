/** A client told an id that is not its own: the id map outlives the request it was learnt from. */
module StaleIds {
  import opened Base
  import opened Json
  import opened Canonical
  import opened Equality
  import opened Members
  import opened Wire
  import opened Framing
  import opened Trace
  import opened Replay
  import opened Proxy
  import opened EndToEnd
  import opened Renaming

  // One request sent twice, answered each time.
  function AskedTwice(req: Frame, resp: Frame): seq<Entry> {
    [Entry(C2a, 0, req), Entry(A2c, 0, resp), Entry(C2a, 0, req), Entry(A2c, 0, resp)]
  }

  lemma {:induction false} TwiceRecordings(req: Frame, resp: Frame)
    ensures var hist := AskedTwice(req, resp);
            && Recordings(hist, C2a) == [req, req] && RecordingsTo(hist, C2a, 3) == [req, req]
            && RecordingsTo(hist, C2a, 1) == [req] && |Recordings(hist, A2c)| == 2
            && |RecordingsTo(hist, A2c, 1)| == 0 && |RecordingsTo(hist, A2c, 3)| == 1
  {
    var hist := AskedTwice(req, resp);
    assert RecordingsTo(hist, C2a, 1) == [] + [req] && RecordingsTo(hist, A2c, 1) == [];
    assert RecordingsTo(hist, C2a, 2) == [req] && RecordingsTo(hist, A2c, 2) == [resp];
    assert RecordingsTo(hist, C2a, 3) == [req, req] && RecordingsTo(hist, A2c, 3) == [resp];
  }

  lemma {:induction false} TwiceTold(req: Frame, resp: Frame, x: Id, y: Id)
    requires req.id == Some(x) && x != y
    ensures |Recordings(AskedTwice(req, resp), C2a)| == 2
    ensures Told(AskedTwice(req, resp), [y, x], 1, x) == y && Told(AskedTwice(req, resp), [y, x], 3, x) == y
  {
    TwiceRecordings(req, resp);
    assert ToldId([req, req], [y, x], 1, x) == y;
    assert ToldId([req, req], [y, x], 2, x) == ToldId([req, req], [y, x], 1, x);
  }

  lemma {:induction false} TwiceEntries(req: Frame, resp: Frame)
    ensures Frames(AskedTwice(req, resp)) == [req, resp, req, resp]
  {}

  lemma {:induction false} TwiceFrames(w: World, req: Frame, resp: Frame)
    requires IsFrame(w, req) && IsFrame(w, resp)
    ensures AllFrames(w, Frames(AskedTwice(req, resp)))
  {
    TwiceEntries(req, resp);
  }

  // The answer is stored as it was sent.
  lemma {:induction false} TwiceStored(w: World, req: Frame, resp: Frame)
    requires Sound(w) && IsFrame(w, req) && IsFrame(w, resp) && req.kind != resp.kind
    requires NoCollisionInRun(w, map[], Frames(AskedTwice(req, resp)))
    ensures StoredRaw(w, map[], Frames(AskedTwice(req, resp)), 1) == resp.raw
    ensures StoredRaw(w, map[], Frames(AskedTwice(req, resp)), 3) == resp.raw
  {
    var fs := Frames(AskedTwice(req, resp));
    assert fs[0] == req && fs[1] == resp && fs[2] == req && fs[3] == resp;
    TwiceFrames(w, req, resp);
    FrameFacts(w, req);
    FrameFacts(w, resp);
    assert Same(req.value, resp.value) ==> Classify(req.value) == Classify(resp.value) by {
      if Same(req.value, resp.value) {
        SameClassify(req.value, resp.value);
      }
    }
    PathDecidesEquality(w, map[], fs, 0, 1);
  }

  lemma {:induction false} TwiceValues(w: World, req: Frame, resp: Frame, f: Frame)
    requires NoCollision(w, {req.value, resp.value, f.value})
    ensures NoCollisionInRun(w, map[], Frames(AskedTwice(req, resp)))
  {
    TwiceEntries(req, resp);
    assert ValuesOf([req, resp, req, resp]) == {req.value, resp.value} by {
      assert [req, resp, req, resp][0] == req && [req, resp, req, resp][1] == resp;
    }
  }

  lemma {:induction false} KeptOrRenamed(w: World, req: Frame, x: Id)
    requires Sound(w) && IsFrame(w, req) && req.id == Some(x)
    ensures Renamed(req, x) == req.value && Same(req.value, req.value)
  {
    FrameFacts(w, req);
    InsertOwn(req.value.members, "id", IdToValue(x));
    SameIffSortAlike(req.value, req.value);
  }

  lemma {:induction false} PairRenamed(req: Frame, f: Frame, x: Id, y: Id)
    requires Same(f.value, Renamed(req, y)) && Same(req.value, Renamed(req, x))
    ensures RepeatsRenamed([req, req], [f, req], [y, x])
  {}

  lemma {:induction false} TwiceRenamed(w: World, req: Frame, f: Frame, x: Id, y: Id)
    requires Sound(w) && IsFrame(w, req) && IsFrame(w, f) && req.id == Some(x) && f.value == WithId(req.value, y)
    ensures RepeatsRenamed([req, req], [f, req], [y, x])
  {
    KeptOrRenamed(w, req, x);
    FrameFacts(w, f);
    SameIffSortAlike(f.value, f.value);
    PairRenamed(req, f, x, y);
  }

  lemma {:induction false} TwiceSetting(w: World, req: Frame, resp: Frame, f: Frame, x: Id, y: Id)
    requires Sound(w) && IsFrame(w, req) && IsFrame(w, resp) && IsFrame(w, f) && req.id == Some(x)
    requires f.value == WithId(req.value, y) && NoCollision(w, {req.value, resp.value, f.value})
    ensures Setting(w, map[], AskedTwice(req, resp), [f, req], [y, x])
  {
    TwiceFrames(w, req, resp);
    TwiceRecordings(req, resp);
    TwiceRenamed(w, req, f, x, y);
    TwiceValues(w, req, resp, f);
    PairFrames(w, req, f);
  }

  lemma {:induction false} PairFrames(w: World, req: Frame, f: Frame)
    requires IsFrame(w, req) && IsFrame(w, f) && NoCollision(w, {req.value, f.value})
    ensures AllFrames(w, [f, req]) && NoCollisionInReplay(w, [req, req], [f, req])
  {}

  // Asking under `y` and then under the recorded id, a client is answered under `y` both times.
  lemma {:induction false} TwiceAnswered(w: World, req: Frame, resp: Frame, f: Frame, x: Id, y: Id)
    requires Sound(w) && IsFrame(w, req) && IsFrame(w, resp) && IsFrame(w, f) && x != y
    requires req.kind == Request && req.id == Some(x) && resp.kind == Response && resp.id == Some(x)
    requires f.value == WithId(req.value, y) && NoCollision(w, {req.value, resp.value, f.value})
    ensures var o := Interactive(w, RecordedTrace(w, map[], AskedTwice(req, resp)), Input([f, req], None), true);
            var answer := Compact(WithId(resp.value, y));
            o.error == None && o.st.lines == [answer, answer]
  {
    var hist := AskedTwice(req, resp);
    TwiceSetting(w, req, resp, f, x, y);
    TwiceRecordings(req, resp);
    TwiceLine(w, req, resp, x, y, 1);
    TwiceLine(w, req, resp, x, y, 3);
    RenamedLines(w, map[], hist, [f, req], [y, x]);
    TwoLines(w, hist, [y, x], Interactive(w, RecordedTrace(w, map[], hist), Input([f, req], None), true).st.lines);
  }

  lemma {:induction false} TwoLines(w: World, hist: seq<Entry>, ids: seq<Id>, lines: seq<Bytes>)
    requires |hist| == 4 && hist[1].dir == hist[3].dir == A2c && |ids| == |Recordings(hist, C2a)|
    requires |RecordingsTo(hist, A2c, 1)| == 0 && |RecordingsTo(hist, A2c, 3)| == 1 && |lines| == 2
    requires forall p | 0 <= p < |hist| && hist[p].dir == A2c ::
               var n := |RecordingsTo(hist, A2c, p)|;
               n < |lines| && lines[n] == ToldLine(w, map[], hist, ids, p)
    ensures lines == [ToldLine(w, map[], hist, ids, 1), ToldLine(w, map[], hist, ids, 3)]
  {}

  lemma {:induction false} TwiceLine(w: World, req: Frame, resp: Frame, x: Id, y: Id, p: nat)
    requires Sound(w) && IsFrame(w, req) && IsFrame(w, resp) && (p == 1 || p == 3) && x != y
    requires req.kind == Request && req.id == Some(x) && resp.kind == Response && resp.id == Some(x)
    requires NoCollisionInRun(w, map[], Frames(AskedTwice(req, resp)))
    ensures |Recordings(AskedTwice(req, resp), C2a)| == 2
    ensures ToldLine(w, map[], AskedTwice(req, resp), [y, x], p) == Compact(WithId(resp.value, y))
  {
    TwiceTold(req, resp, x, y);
    TwiceStored(w, req, resp);
    ParsedIsFrame(w, resp.raw);
    assert AskedTwice(req, resp)[p].frame == resp;
  }

  // ---- the session spelt out ----

  function Ping(n: I64): Value {
    Object([VERSION, Member("id", Int(n)), PING])
  }

  function Pong(n: I64): Value {
    Object([VERSION, Member("id", Int(n)), Member("result", Null)])
  }

  function PingFrame(n: I64): Frame {
    Frame(Request, Some("ping"), Some(NumId(n)), Ping(n), Compact(Ping(n)))
  }

  function PongFrame(n: I64): Frame {
    Frame(Response, None, Some(NumId(n)), Pong(n), Compact(Pong(n)))
  }

  lemma {:induction false} GetOfThree(a: Member, b: Member, c: Member, key: string)
    ensures Get([a, b, c], key) ==
            if key == a.key then Some(a.val) else if key == b.key then Some(b.val)
            else if key == c.key then Some(c.val) else None
  {
    assert [a, b, c][1..] == [b, c];
    GetOfTwo(b, c, key);
  }

  lemma {:induction false} PingHeading(n: I64)
    ensures WellFormed(Ping(n)) && Classify(Ping(n)) == Ok(Heading(Request, Some("ping"), Some(NumId(n))))
  {
    KeysDiffer();
    var id := Member("id", Int(n));
    GetOfThree(VERSION, id, PING, "jsonrpc");
    GetOfThree(VERSION, id, PING, "method");
    GetOfThree(VERSION, id, PING, "id");
    GetOfThree(VERSION, id, PING, "result");
    GetOfThree(VERSION, id, PING, "error");
  }

  lemma {:induction false} PongHeading(n: I64)
    ensures WellFormed(Pong(n)) && Classify(Pong(n)) == Ok(Heading(Response, None, Some(NumId(n))))
  {
    KeysDiffer();
    var id, answer := Member("id", Int(n)), Member("result", Null);
    GetOfThree(VERSION, id, answer, "jsonrpc");
    GetOfThree(VERSION, id, answer, "method");
    GetOfThree(VERSION, id, answer, "id");
    GetOfThree(VERSION, id, answer, "result");
    GetOfThree(VERSION, id, answer, "error");
  }

  lemma {:induction false} PrintedIsFrame(w: World, v: Value, h: Heading)
    requires ReadsBack(w, v) && WellFormed(v) && Classify(v) == Ok(h)
    ensures IsFrame(w, Frame(h.kind, h.method_, h.id, v, Compact(v)))
  {
    CanonicalPrintable(v);
  }

  lemma {:induction false} PingIsFrame(w: World, n: I64)
    requires ReadsBack(w, Ping(n))
    ensures IsFrame(w, PingFrame(n))
  {
    PingHeading(n);
    PrintedIsFrame(w, Ping(n), Heading(Request, Some("ping"), Some(NumId(n))));
  }

  lemma {:induction false} PongIsFrame(w: World, n: I64)
    requires ReadsBack(w, Pong(n))
    ensures IsFrame(w, PongFrame(n))
  {
    PongHeading(n);
    PrintedIsFrame(w, Pong(n), Heading(Response, None, Some(NumId(n))));
  }

  lemma {:induction false} RenamedSecond(a: Member, b: Member, c: Member, val: Value)
    requires a.key != b.key
    ensures Insert([a, b, c], b.key, val) == [a, Member(b.key, val), c]
  {
    assert [a, b, c][1..] == [b, c] && [b, c][1..] == [c];
  }

  lemma {:induction false} PingRenamed(n: I64, m: I64)
    ensures WithId(Ping(n), NumId(m)) == Ping(m) && WithId(Pong(n), NumId(m)) == Pong(m)
  {
    KeysDiffer();
    RenamedSecond(VERSION, Member("id", Int(n)), PING, Int(m));
    RenamedSecond(VERSION, Member("id", Int(n)), Member("result", Null), Int(m));
  }

  lemma {:induction false} AskedUnderSeven(w: World)
    requires ReadsBack(w, Ping(1)) && ReadsBack(w, Pong(1)) && ReadsBack(w, Ping(7))
    ensures IsFrame(w, PingFrame(1)) && IsFrame(w, PongFrame(1)) && IsFrame(w, PingFrame(7))
    ensures WithId(Ping(1), NumId(7)) == Ping(7) && WithId(Pong(1), NumId(7)) == Pong(7)
  {
    PingIsFrame(w, 1);
    PongIsFrame(w, 1);
    PingIsFrame(w, 7);
    PingRenamed(1, 7);
  }

  /** A client is not always told its own id: recorded are two requests under id 1, each answered; a client that
      asks under 7 and then under 1 is accepted, and both answers come under 7. */
  lemma {:induction false} StaleIdIsTold(w: World)
    requires Sound(w) && ReadsBack(w, Ping(1)) && ReadsBack(w, Pong(1)) && ReadsBack(w, Ping(7))
    requires NoCollision(w, {Ping(1), Pong(1), Ping(7)})
    ensures var hist := AskedTwice(PingFrame(1), PongFrame(1));
            var o := Interactive(w, RecordedTrace(w, map[], hist), Input([PingFrame(7), PingFrame(1)], None), true);
            && (exists acts, s :: Reached(w, map[], acts, s) && s.final.Some? && s.hist == hist)
            && o.error == None && o.st.lines == [Compact(Pong(7)), Compact(Pong(7))]
  {
    AskedUnderSeven(w);
    TwiceFrames(w, PingFrame(1), PongFrame(1));
    var acts, s := EverySessionIsRecorded(w, map[], AskedTwice(PingFrame(1), PongFrame(1)));
    TwiceAnswered(w, PingFrame(1), PongFrame(1), PingFrame(7), NumId(1), NumId(7));
  }

  // ---- a client answered before it asked ----

  // The answer is in the log before the request, though it was forwarded after it.
  function Overtaken(req: Frame, resp: Frame): seq<Entry> {
    [Entry(A2c, 0, resp), Entry(C2a, 0, req)]
  }

  lemma {:induction false} OvertakenEntries(req: Frame, resp: Frame)
    ensures var hist := Overtaken(req, resp);
            && Frames(hist) == [resp, req] && Recordings(hist, C2a) == [req] && Recordings(hist, A2c) == [resp]
            && RecordingsTo(hist, C2a, 0) == [] && RecordingsTo(hist, A2c, 0) == []
  {
    var hist := Overtaken(req, resp);
    assert RecordingsTo(hist, C2a, 1) == [] && RecordingsTo(hist, A2c, 1) == [] + [resp];
  }

  lemma {:induction false} OvertakenValues(w: World, req: Frame, resp: Frame, f: Frame)
    requires NoCollision(w, {req.value, resp.value, f.value})
    ensures NoCollisionInRun(w, map[], Frames(Overtaken(req, resp)))
  {
    OvertakenEntries(req, resp);
    assert ValuesOf([resp, req]) == {req.value, resp.value} by {
      assert [resp, req][0] == resp && [resp, req][1] == req;
    }
  }

  lemma {:induction false} OneRenamed(req: Frame, f: Frame, y: Id)
    requires Same(f.value, Renamed(req, y))
    ensures RepeatsRenamed([req], [f], [y])
  {}

  lemma {:induction false} OvertakenFrames(w: World, req: Frame, resp: Frame)
    requires IsFrame(w, req) && IsFrame(w, resp)
    ensures AllFrames(w, Frames(Overtaken(req, resp)))
  {
    OvertakenEntries(req, resp);
  }

  lemma {:induction false} OvertakenSetting(w: World, req: Frame, resp: Frame, f: Frame, x: Id, y: Id)
    requires Sound(w) && IsFrame(w, req) && IsFrame(w, resp) && IsFrame(w, f) && req.id == Some(x)
    requires f.value == WithId(req.value, y) && NoCollision(w, {req.value, resp.value, f.value})
    ensures Setting(w, map[], Overtaken(req, resp), [f], [y])
  {
    OvertakenEntries(req, resp);
    OvertakenFrames(w, req, resp);
    OvertakenValues(w, req, resp, f);
    FrameFacts(w, f);
    SameIffSortAlike(f.value, f.value);
    OneRenamed(req, f, y);
    OneFrame(w, req, f);
  }

  lemma {:induction false} OneFrame(w: World, req: Frame, f: Frame)
    requires IsFrame(w, f) && NoCollision(w, {req.value, f.value})
    ensures AllFrames(w, [f]) && NoCollisionInReplay(w, [req], [f])
  {}

  // Whatever the client asks under, it is answered under the recorded id.
  lemma {:induction false} OvertakenAnswered(w: World, req: Frame, resp: Frame, f: Frame, x: Id, y: Id)
    requires Sound(w) && IsFrame(w, req) && IsFrame(w, resp) && IsFrame(w, f) && req.id == Some(x)
    requires resp.kind == Response && resp.id == Some(x)
    requires f.value == WithId(req.value, y) && NoCollision(w, {req.value, resp.value, f.value})
    ensures var o := Interactive(w, RecordedTrace(w, map[], Overtaken(req, resp)), Input([f], None), true);
            o.error == None && o.st.lines == [resp.raw]
  {
    var hist := Overtaken(req, resp);
    OvertakenSetting(w, req, resp, f, x, y);
    OvertakenEntries(req, resp);
    RenamedLines(w, map[], hist, [f], [y]);
    assert hist[0].dir == A2c && hist[0].frame == resp && Frames(hist)[0] == resp;
    assert Told(hist, [y], 0, x) == x;
    assert FirstLike(w, Frames(hist), 0) == 0;
    assert ToldLine(w, map[], hist, [y], 0) == resp.raw;
  }

  /** Nor is a client that renames consistently always told its own id: when the answer is logged first, a client
      that asks under 7 is answered under the recorded 1. */
  lemma {:induction false} RecordedIdIsTold(w: World)
    requires Sound(w) && ReadsBack(w, Ping(1)) && ReadsBack(w, Pong(1)) && ReadsBack(w, Ping(7))
    requires NoCollision(w, {Ping(1), Pong(1), Ping(7)})
    ensures ValidRun(w, Init(map[]), OvertakingRun(PingFrame(1), PongFrame(1)))
    ensures var s := Exec(w, Init(map[]), OvertakingRun(PingFrame(1), PongFrame(1)));
            var o := Interactive(w, RecordedTrace(w, map[], s.hist), Input([PingFrame(7)], None), true);
            && s.final.Some? && s.hist == Overtaken(PingFrame(1), PongFrame(1))
            && o.error == None && o.st.lines == [Compact(Pong(1))]
            && Recordings(s.hist, C2a) == [PingFrame(1)] && Consistent([PingFrame(1)], [NumId(7)])
  {
    AskedUnderSeven(w);
    ResponseMayBeLoggedFirst(w, map[], PingFrame(1), PongFrame(1));
    OvertakenEntries(PingFrame(1), PongFrame(1));
    OvertakenAnswered(w, PingFrame(1), PongFrame(1), PingFrame(7), NumId(1), NumId(7));
  }
}
