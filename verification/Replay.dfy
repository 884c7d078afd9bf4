/** Offline and interactive replay of a recorded trace. */
module Replay {
  import opened Base
  import opened Json
  import opened Canonical
  import opened Wire
  import opened Framing
  import opened Trace

  datatype TraceReader = TraceReader(events: seq<EventRecord>, blobs: Blobs)

  datatype Divergence = Divergence(
    expectedSeq: nat, expectedMethod: Option<string>, expectedHash: string,
    gotMethod: Option<string>, gotId: Option<Bytes>, gotHash: string, clientFramesConsumed: nat)

  datatype ReplayError =
    | WireFailure(wire: WireError)
    | TraceFailure(trace: TraceError)
    | TraceExhausted(method_: Option<string>)
    | Diverged(detail: Divergence)

  function DivergenceAt(expected: EventRecord, got: Frame, gotHash: string, consumed: nat): ReplayError {
    Diverged(Divergence(
               expected.seqNo, expected.method_, expected.hash, got.method_,
               (match got.id case Some(id) => Some(Compact(IdToValue(id))) case None => None),
               gotHash, consumed))
  }

  // ---- rewriting ids ----

  // `rewrite_id_in_value`, before serialization.
  function WithId(v: Value, id: Id): Value {
    match v
    case Object(ms) => Object(Insert(ms, "id", IdToValue(id)))
    case _ => v
  }

  // `hash_with_id` replaces an id but does not add one.
  function ReplaceId(v: Value, id: Id): Value {
    if v.Object? && Get(v.members, "id").Some? then WithId(v, id) else v
  }

  // ---- one event, one frame ----

  // The line written for one a2c event.
  function OutLine(
    w: World, t: TraceReader, rec: EventRecord, idMap: map<Id, Id>, remap: bool): Result<Bytes, ReplayError> {
    match LoadBlob(w, t.blobs, rec)
    case Err(e) => Err(TraceFailure(e))
    case Ok(bytes) =>
      if remap && rec.kind == Response then
        match ParseFrame(w, bytes)
        case Err(e) => Err(WireFailure(e))
        case Ok(frame) =>
          if frame.kind == Response && frame.id.Some? && frame.id.value in idMap then
            Checked(Compact(WithId(frame.value, idMap[frame.id.value])))
          else Checked(bytes)
      else Checked(bytes)
  }

  function Checked(line: Bytes): Result<Bytes, ReplayError> {
    if LF in line then Err(WireFailure(EmbeddedNewline)) else Ok(line)
  }

  // How a client frame compares with the recorded event it should repeat: by hash, or only after its id is
  // replaced by the recorded one, or not at all.
  datatype Verdict = Fast | Slow | Refused

  function Judge(w: World, rec: EventRecord, f: Frame, remap: bool): Verdict {
    if HashText(w, f.value) == rec.hash then Fast
    else if remap && rec.id.Some? && f.id.Some? && HashText(w, ReplaceId(f.value, rec.id.value)) == rec.hash then Slow
    else Refused
  }

  // ---- the control loop, whatever the lines and verdicts are ----

  datatype Rules = Rules(
    line: (EventRecord, map<Id, Id>) -> Result<Bytes, ReplayError>,
    judge: (EventRecord, Frame) -> Verdict,
    refuse: (EventRecord, Frame, nat) -> ReplayError)

  function RulesOf(w: World, t: TraceReader, remap: bool): Rules {
    Rules((rec: EventRecord, idMap: map<Id, Id>) => OutLine(w, t, rec, idMap, remap),
          (rec: EventRecord, f: Frame) => Judge(w, rec, f, remap),
          (rec: EventRecord, f: Frame, consumed: nat) => DivergenceAt(rec, f, HashText(w, f.value), consumed))
  }

  datatype State = State(cursor: nat, consumed: nat, idMap: map<Id, Id>, lines: seq<Bytes>)

  datatype Outcome = Outcome(st: State, error: Option<ReplayError>)

  const START := State(0, 0, map[], [])

  function EmitBlock(r: Rules, events: seq<EventRecord>, st: State): (o: Outcome)
    decreases |events| - st.cursor
  {
    if st.cursor < |events| && events[st.cursor].dir != C2a then
      match r.line(events[st.cursor], st.idMap)
      case Err(e) => Outcome(st, Some(e))
      case Ok(line) => EmitBlock(r, events, State(st.cursor + 1, st.consumed, st.idMap, st.lines + [line]))
    else Outcome(st, None)
  }

  function NextC2a(events: seq<EventRecord>, from: nat): (idx: nat)
    ensures from <= |events| ==> from <= idx <= |events|
    ensures idx < |events| ==> events[idx].dir == C2a
    ensures forall i | from <= i < idx && i < |events| :: events[i].dir != C2a
    decreases |events| - from
  {
    if from < |events| && events[from].dir != C2a then NextC2a(events, from + 1) else from
  }

  function AcceptFrame(r: Rules, events: seq<EventRecord>, st: State, f: Frame): Outcome {
    var idx := NextC2a(events, st.cursor);
    if idx >= |events| then Outcome(st, Some(TraceExhausted(None)))
    else
      var rec := events[idx];
      match r.judge(rec, f)
      case Fast => Outcome(State(idx + 1, st.consumed + 1, st.idMap, st.lines), None)
      case Slow =>
        var idMap := if rec.id.Some? && f.id.Some? then st.idMap[rec.id.value := f.id.value] else st.idMap;
        Outcome(State(idx + 1, st.consumed + 1, idMap, st.lines), None)
      case Refused => Outcome(st, Some(r.refuse(rec, f, st.consumed)))
  }

  function RunFrames(r: Rules, events: seq<EventRecord>, st: State, frames: seq<Frame>): Outcome
    decreases |frames|
  {
    if frames == [] then Outcome(st, None)
    else
      var a := AcceptFrame(r, events, st, frames[0]);
      if a.error.Some? then a
      else
        var b := EmitBlock(r, events, a.st);
        if b.error.Some? then b else RunFrames(r, events, b.st, frames[1..])
  }

  function RunInput(r: Rules, events: seq<EventRecord>, st: State, input: Input): Outcome {
    var o := RunFrames(r, events, st, input.frames);
    if o.error.None? && input.error.Some? then Outcome(o.st, Some(WireFailure(input.error.value))) else o
  }

  function Run(r: Rules, events: seq<EventRecord>, input: Input): Outcome {
    var o := EmitBlock(r, events, START);
    if o.error.Some? then o else RunInput(r, events, o.st, input)
  }

  // The whole of `replay_interactive_with`: what is written, and how it ends.
  function Interactive(w: World, t: TraceReader, input: Input, remap: bool): Outcome {
    Run(RulesOf(w, t, remap), t.events, input)
  }

  // ---- the engine as it runs, writing to a sink ----

  method FindNextC2a(t: TraceReader, from: nat) returns (r: Result<nat, ReplayError>)
    requires from <= |t.events|
    ensures r == if NextC2a(t.events, from) < |t.events| then Ok(NextC2a(t.events, from)) else Err(TraceExhausted(None))
  {
    for idx := from to |t.events|
      invariant NextC2a(t.events, idx) == NextC2a(t.events, from)
    {
      if t.events[idx].dir == C2a {
        return Ok(idx);
      }
    }
    return Err(TraceExhausted(None));
  }

  method WriteOut(out: Buffer, line: Bytes) returns (e: Option<ReplayError>)
    modifies out
    ensures Checked(line).Ok? ==> e == None && out.bytes == old(out.bytes) + (line + [LF])
    ensures Checked(line).Err? ==> e == Some(Checked(line).error) && out.bytes == old(out.bytes)
  {
    var r := WriteLine(out, line);
    e := if r.Ok? then None else Some(WireFailure(r.error));
  }

  method EmitOne(w: World, t: TraceReader, rec: EventRecord, idMap: map<Id, Id>, remap: bool, out: Buffer)
    returns (e: Option<ReplayError>)
    modifies out
    ensures var l := OutLine(w, t, rec, idMap, remap);
            if l.Ok? then e == None && out.bytes == old(out.bytes) + (l.value + [LF])
            else e == Some(l.error) && out.bytes == old(out.bytes)
  {
    match LoadBlob(w, t.blobs, rec)
    case Err(te) => e := Some(TraceFailure(te));
    case Ok(bytes) =>
      if remap && rec.kind == Response {
        match ParseFrame(w, bytes)
        case Err(we) => e := Some(WireFailure(we));
        case Ok(frame) =>
          var mapped := bytes;
          if frame.kind == Response && frame.id.Some? && frame.id.value in idMap {
            mapped := Compact(WithId(frame.value, idMap[frame.id.value]));
          }
          e := WriteOut(out, mapped);
      } else {
        e := WriteOut(out, bytes);
      }
  }

  lemma {:induction false} EmitOneMore(r: Rules, events: seq<EventRecord>, st: State)
    requires st.cursor < |events| && events[st.cursor].dir != C2a
    ensures var l := r.line(events[st.cursor], st.idMap);
            EmitBlock(r, events, st) ==
            if l.Err? then Outcome(st, Some(l.error))
            else EmitBlock(r, events, State(st.cursor + 1, st.consumed, st.idMap, st.lines + [l.value]))
  {}

  method EmitA2cBlock(
    w: World, t: TraceReader, from: nat, idMap: map<Id, Id>, remap: bool, out: Buffer, ghost st: State)
    returns (idx: nat, count: nat, e: Option<ReplayError>, ghost lines: seq<Bytes>)
    requires st.cursor == from <= |t.events| && st.idMap == idMap
    modifies out
    ensures EmitBlock(RulesOf(w, t, remap), t.events, st) ==
            Outcome(State(idx, st.consumed, idMap, st.lines + lines), e)
    ensures idx <= |t.events| && count == |lines|
    ensures out.bytes == old(out.bytes) + Unlines(lines)
  {
    ghost var r := RulesOf(w, t, remap);
    idx, count, e, lines := from, 0, None, [];
    ghost var now := st;
    while idx < |t.events|
      invariant e == None && idx <= |t.events| && count == |lines|
      invariant now == State(idx, st.consumed, idMap, now.lines) && now.lines == st.lines + lines
      invariant EmitBlock(r, t.events, st) == EmitBlock(r, t.events, now)
      invariant out.bytes == old(out.bytes) + Unlines(lines)
    {
      var rec := t.events[idx];
      if rec.dir == C2a { break; }
      EmitOneMore(r, t.events, now);
      e := EmitOne(w, t, rec, idMap, remap, out);
      if e.Some? {
        return;
      }
      ghost var line := OutLine(w, t, rec, idMap, remap).value;
      Assoc(st.lines, lines, [line]);
      LineAppended(old(out.bytes), lines, line);
      now := State(idx + 1, st.consumed, idMap, now.lines + [line]);
      lines := lines + [line];
      count := count + 1;
      idx := idx + 1;
    }
  }

  lemma {:induction false} LineAppended(start: Bytes, lines: seq<Bytes>, line: Bytes)
    ensures start + Unlines(lines) + (line + [LF]) == start + Unlines(lines + [line])
  {
    assert (lines + [line])[..|lines|] == lines;
  }

  lemma {:induction false} LinesAppended(start: Bytes, lines: seq<Bytes>, more: seq<Bytes>)
    ensures start + Unlines(lines) + Unlines(more) == start + Unlines(lines + more)
  {
    UnlinesAppend(lines, more);
  }

  // Matches one client frame against the next recorded c2a event.
  method Accept(w: World, t: TraceReader, incoming: Frame, cursor: nat, consumed: nat, idMap: map<Id, Id>, remap: bool,
                ghost lines: seq<Bytes>)
    returns (cursor': nat, idMap': map<Id, Id>, e: Option<ReplayError>)
    requires cursor <= |t.events|
    ensures var a := AcceptFrame(RulesOf(w, t, remap), t.events, State(cursor, consumed, idMap, lines), incoming);
            e == a.error && (e.None? ==> cursor' <= |t.events| && a.st == State(cursor', consumed + 1, idMap', lines))
    ensures var a := AcceptFrame(RulesOf(w, t, remap), t.events, State(cursor, consumed, idMap, lines), incoming);
            e.Some? ==> a.st.lines == lines
  {
    cursor', idMap', e := cursor, idMap, None;
    var found := FindNextC2a(t, cursor);
    if found.Err? {
      return cursor', idMap', Some(found.error);
    }
    var expected := t.events[found.value];
    var gotHash := HashText(w, incoming.value);
    if gotHash == expected.hash {
      cursor' := found.value + 1;
    } else if remap {
      if expected.id.None? || incoming.id.None? {
        return cursor', idMap', Some(DivergenceAt(expected, incoming, gotHash, consumed));
      }
      var rewrittenHash := HashText(w, ReplaceId(incoming.value, expected.id.value));
      if rewrittenHash == expected.hash {
        idMap' := idMap[expected.id.value := incoming.id.value];
        cursor' := found.value + 1;
      } else {
        return cursor', idMap', Some(DivergenceAt(expected, incoming, gotHash, consumed));
      }
    } else {
      return cursor', idMap', Some(DivergenceAt(expected, incoming, gotHash, consumed));
    }
  }

  lemma {:induction false} RunInputStep(r: Rules, events: seq<EventRecord>, st: State, f: Frame, more: Input)
    ensures var o := RunInput(r, events, st, Input([f] + more.frames, more.error));
            var a := AcceptFrame(r, events, st, f);
            var b := EmitBlock(r, events, a.st);
            o == if a.error.Some? then a else if b.error.Some? then b else RunInput(r, events, b.st, more)
  {
    assert ([f] + more.frames)[1..] == more.frames;
  }

  method ReplayInteractiveWith(w: World, t: TraceReader, reader: FrameReader, out: Buffer, remap: bool)
    returns (r: Result<nat, ReplayError>)
    modifies reader, out
    ensures var o := Interactive(w, t, ReadAll(w, old(reader.inner)), remap);
            && out.bytes == old(out.bytes) + Unlines(o.st.lines)
            && r == if o.error.Some? then Err(o.error.value) else Ok(|o.st.lines|)
  {
    ghost var whole := Interactive(w, t, ReadAll(w, reader.inner), remap);
    ghost var rules := RulesOf(w, t, remap);
    var cursor: nat, emitted: nat, consumed: nat := 0, 0, 0;
    var idMap: map<Id, Id> := map[];
    ghost var lines: seq<Bytes>;
    var error: Option<ReplayError>;
    cursor, emitted, error, lines := EmitA2cBlock(w, t, cursor, idMap, remap, out, START);
    assert START.lines + lines == lines;
    if error.Some? {
      return Err(error.value);
    }
    while true
      invariant whole == RunInput(rules, t.events, State(cursor, consumed, idMap, lines), ReadAll(w, reader.inner))
      invariant cursor <= |t.events| && emitted == |lines|
      invariant out.bytes == old(out.bytes) + Unlines(lines)
      decreases |reader.inner|
    {
      ReadAllStep(w, reader.inner);
      var next := reader.ReadFrame(w);
      if next.Err? {
        return Err(WireFailure(next.error));
      }
      if next.value.None? {
        break;
      }
      var incoming := next.value.value;
      RunInputStep(rules, t.events, State(cursor, consumed, idMap, lines), incoming, ReadAll(w, reader.inner));
      var accepted: nat, idMap', refused := Accept(w, t, incoming, cursor, consumed, idMap, remap, lines);
      if refused.Some? {
        return Err(refused.value);
      }
      consumed, idMap := consumed + 1, idMap';
      var count: nat;
      ghost var block: seq<Bytes>;
      ghost var st := State(accepted, consumed, idMap, lines);
      cursor, count, error, block := EmitA2cBlock(w, t, accepted, idMap, remap, out, st);
      emitted := emitted + count;
      LinesAppended(old(out.bytes), lines, block);
      lines := lines + block;
      if error.Some? {
        return Err(error.value);
      }
    }
    r := Ok(emitted);
  }

  // ---- offline ----

  function OfflineFrom(w: World, t: TraceReader, k: nat, lines: seq<Bytes>): (seq<Bytes>, Option<ReplayError>)
    decreases |t.events| - k
  {
    if k >= |t.events| then (lines, None)
    else if t.events[k].dir != A2c then OfflineFrom(w, t, k + 1, lines)
    else
      match OutLine(w, t, t.events[k], map[], false)
      case Err(e) => (lines, Some(e))
      case Ok(line) => OfflineFrom(w, t, k + 1, lines + [line])
  }

  method ReplayOffline(w: World, t: TraceReader, out: Buffer) returns (r: Result<nat, ReplayError>)
    modifies out
    ensures var (lines, error) := OfflineFrom(w, t, 0, []);
            && out.bytes == old(out.bytes) + Unlines(lines)
            && r == if error.Some? then Err(error.value) else Ok(|lines|)
  {
    var n := 0;
    ghost var lines: seq<Bytes> := [];
    for k := 0 to |t.events|
      invariant OfflineFrom(w, t, k, lines) == OfflineFrom(w, t, 0, [])
      invariant n == |lines| && out.bytes == old(out.bytes) + Unlines(lines)
    {
      var rec := t.events[k];
      if rec.dir != A2c { continue; }
      var e := EmitOne(w, t, rec, map[], false, out);
      if e.Some? {
        return Err(e.value);
      }
      ghost var line := OutLine(w, t, rec, map[], false).value;
      LineAppended(old(out.bytes), lines, line);
      lines := lines + [line];
      n := n + 1;
    }
    r := Ok(n);
  }
}
