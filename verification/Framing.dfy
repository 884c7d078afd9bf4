/** Newline framing: the frame reader over a byte stream and the line writer, and how they invert each other. */
module Framing {
  import opened Base
  import opened Wire
  import opened Canonical

  // ---- reading ----

  // How many bytes `read_until(b'\n')` takes: through the first LF, or everything.
  function LineLength(s: Bytes): (n: nat)
    ensures n <= |s| && (s != [] ==> n > 0)
    ensures forall i | 0 <= i < n - 1 :: s[i] != LF
    ensures n < |s| ==> n > 0 && s[n - 1] == LF
  {
    if s == [] then 0
    else if s[0] == LF then 1
    else
      assert forall i | 0 < i < |s| :: s[i] == s[1..][i - 1];
      1 + LineLength(s[1..])
  }

  function StripCr(s: Bytes): Bytes {
    if s != [] && s[|s| - 1] == CR then s[..|s| - 1] else s
  }

  // One LF goes, and then one CR before it; an unterminated last line is left alone.
  function StripEnd(line: Bytes): Bytes {
    if line != [] && line[|line| - 1] == LF then StripCr(line[..|line| - 1]) else line
  }

  type ReadResult = Result<Option<Frame>, WireError>

  function NextFrame(w: World, s: Bytes): (r: (ReadResult, Bytes))
    ensures s != [] ==> |r.1| < |s|
    decreases |s|
  {
    if s == [] then (Ok(None), [])
    else
      var n := LineLength(s);
      var line := StripEnd(s[..n]);
      if line == [] then NextFrame(w, s[n..])
      else (LineFrame(w, line), s[n..])
  }

  // One line of the stream: a blank one is skipped, any other is the next frame or the error.
  lemma {:induction false} NextFrameStep(w: World, s: Bytes)
    requires s != []
    ensures var line, rest := StripEnd(s[..LineLength(s)]), s[LineLength(s)..];
            NextFrame(w, s) == if line == [] then NextFrame(w, rest) else (LineFrame(w, line), rest)
  {}

  function LineFrame(w: World, line: Bytes): ReadResult {
    match ParseFrame(w, line)
    case Err(e) => Err(e)
    case Ok(f) => Ok(Some(f))
  }

  class FrameReader {
    var inner: Bytes
    var buf: Bytes

    constructor (stream: Bytes)
      ensures inner == stream
    {
      inner, buf := stream, [];
    }

    method ReadUntilLf() returns (n: nat)
      modifies this
      ensures n == LineLength(old(inner))
      ensures buf == old(buf) + old(inner)[..n] && inner == old(inner)[n..]
    {
      n := LineLength(inner);
      buf, inner := buf + inner[..n], inner[n..];
    }

    // Where the buffered line ends without its LF and the CR before it.
    method TrimmedEnd() returns (end: nat)
      ensures end <= |buf| && buf[..end] == StripEnd(buf)
    {
      end := |buf|;
      if end > 0 && buf[end - 1] == LF {
        end := end - 1;
        if end > 0 && buf[end - 1] == CR {
          end := end - 1;
        }
      }
    }

    method ReadFrame(w: World) returns (r: ReadResult)
      modifies this
      ensures (r, inner) == NextFrame(w, old(inner))
      decreases |inner|
    {
      ghost var s := inner;
      buf := [];
      var n := ReadUntilLf();
      if n == 0 {
        return Ok(None);
      }
      assert buf == s[..n];
      var end := TrimmedEnd();
      NextFrameStep(w, s);
      if end == 0 {
        r := ReadFrame(w);
        return;
      }
      match ParseFrame(w, buf[..end])
      case Err(e) => r := Err(e);
      case Ok(f) => r := Ok(Some(f));
    }
  }

  // Everything a client of the reader sees: the frames up to the end of the stream or the first error.
  datatype Input = Input(frames: seq<Frame>, error: Option<WireError>)

  function ReadAll(w: World, s: Bytes): Input
    decreases |s|
  {
    var (r, rest) := NextFrame(w, s);
    match r
    case Err(e) => Input([], Some(e))
    case Ok(None) => Input([], None)
    case Ok(Some(f)) =>
      if s == [] then Input([], None)
      else
        var more := ReadAll(w, rest);
        Input([f] + more.frames, more.error)
  }

  // ---- the reference: split at every LF, then look at whole lines ----

  function IndexOfLf(s: Bytes): (k: nat)
    requires LF in s
    ensures k < |s| && s[k] == LF && forall i | 0 <= i < k :: s[i] != LF
  {
    if s[0] == LF then 0
    else
      assert forall i | 0 < i < |s| :: s[i] == s[1..][i - 1];
      1 + IndexOfLf(s[1..])
  }

  function Segments(s: Bytes): (r: seq<Bytes>)
    ensures |r| > 0
    decreases |s|
  {
    if LF in s then
      var k := IndexOfLf(s);
      [s[..k]] + Segments(s[k + 1..])
    else [s]
  }

  function Joined(segments: seq<Bytes>): Bytes
    requires |segments| > 0
  {
    if |segments| == 1 then segments[0] else segments[0] + [LF] + Joined(segments[1..])
  }

  // Segments are the unique LF-free pieces whose LF-join is the stream.
  lemma {:induction false} SegmentsJoin(s: Bytes)
    ensures Joined(Segments(s)) == s
    ensures forall i | 0 <= i < |Segments(s)| :: LF !in Segments(s)[i]
    decreases |s|
  {
    if LF in s {
      var k := IndexOfLf(s);
      SegmentsJoin(s[k + 1..]);
      assert Segments(s)[1..] == Segments(s[k + 1..]);
      assert s == s[..k] + [LF] + s[k + 1..];
    }
  }

  // Terminated lines lose one CR, the unterminated last one does not; empty lines are dropped.
  function LinesOf(segments: seq<Bytes>): seq<Bytes>
    requires |segments| > 0
  {
    var line := if |segments| == 1 then segments[0] else StripCr(segments[0]);
    (if line == [] then [] else [line]) + (if |segments| == 1 then [] else LinesOf(segments[1..]))
  }

  function ParseLines(w: World, lines: seq<Bytes>): Input {
    if lines == [] then Input([], None)
    else
      match ParseFrame(w, lines[0])
      case Err(e) => Input([], Some(e))
      case Ok(f) =>
        var more := ParseLines(w, lines[1..]);
        Input([f] + more.frames, more.error)
  }

  lemma {:induction false} FirstLineWithLf(s: Bytes)
    requires LF in s
    ensures LineLength(s) == IndexOfLf(s) + 1
    ensures StripEnd(s[..LineLength(s)]) == StripCr(s[..IndexOfLf(s)])
  {
    var k := IndexOfLf(s);
    assert LineLength(s) == k + 1;
    assert s[..k + 1][..k] == s[..k] && s[..k + 1][k] == LF;
  }

  lemma {:induction false} LastLine(s: Bytes)
    requires s != [] && LF !in s
    ensures LineLength(s) == |s| && StripEnd(s[..LineLength(s)]) == s
  {
    assert forall i | 0 <= i < |s| :: s[i] in s;
    assert s[..|s|] == s;
  }

  lemma {:induction false} LinesOfCons(line: Bytes, rest: seq<Bytes>)
    requires |rest| > 0
    ensures LinesOf([line] + rest) == (if StripCr(line) == [] then [] else [StripCr(line)]) + LinesOf(rest)
  {
    assert ([line] + rest)[1..] == rest;
  }

  lemma {:induction false} LinesOfTerminated(s: Bytes)
    requires LF in s
    ensures var k := IndexOfLf(s);
            var line := StripCr(s[..k]);
            LinesOf(Segments(s)) == (if line == [] then [] else [line]) + LinesOf(Segments(s[k + 1..]))
  {
    var k := IndexOfLf(s);
    LinesOfCons(s[..k], Segments(s[k + 1..]));
  }

  lemma {:induction false} LinesOfLast(s: Bytes)
    requires LF !in s
    ensures LinesOf(Segments(s)) == if s == [] then [] else [s]
  {
    assert Segments(s) == [s];
  }

  // One line read, seen from the whole stream.
  lemma {:induction false} ReadAllLine(w: World, s: Bytes)
    requires s != []
    ensures var line, rest := StripEnd(s[..LineLength(s)]), s[LineLength(s)..];
            ReadAll(w, s) ==
            if line == [] then ReadAll(w, rest)
            else
              match ParseFrame(w, line)
              case Err(e) => Input([], Some(e))
              case Ok(f) => Input([f] + ReadAll(w, rest).frames, ReadAll(w, rest).error)
  {
    var line, rest := StripEnd(s[..LineLength(s)]), s[LineLength(s)..];
    if line == [] {
      assert NextFrame(w, s) == NextFrame(w, rest);
      ReadAllStep(w, s);
      ReadAllStep(w, rest);
    }
  }

  lemma {:induction false} ReadAllStep(w: World, s: Bytes)
    ensures var (r, rest) := NextFrame(w, s);
            ReadAll(w, s) == match r
                             case Err(e) => Input([], Some(e))
                             case Ok(None) => Input([], None)
                             case Ok(Some(f)) => Input([f] + ReadAll(w, rest).frames, ReadAll(w, rest).error)
  {}

  lemma {:induction false} ParseLinesStep(w: World, line: Bytes, lines: seq<Bytes>)
    ensures ParseLines(w, [line] + lines) ==
            match ParseFrame(w, line)
            case Err(e) => Input([], Some(e))
            case Ok(f) => Input([f] + ParseLines(w, lines).frames, ParseLines(w, lines).error)
  {
    assert ([line] + lines)[1..] == lines;
  }

  // The first line read is the first non-empty piece, whether or not an LF ends it.
  lemma {:induction false} LinesOfFirst(s: Bytes)
    requires s != []
    ensures var line, rest := StripEnd(s[..LineLength(s)]), s[LineLength(s)..];
            LinesOf(Segments(s)) == (if line == [] then [] else [line]) + LinesOf(Segments(rest))
  {
    if LF in s {
      FirstLineWithLf(s);
      LinesOfTerminated(s);
    } else {
      LastLine(s);
      LinesOfLast(s);
      LinesOfLast([]);
    }
  }

  /** Repeated reading yields exactly the frames of the non-empty LF-separated lines, in order, and stops at
      the first line that does not parse. */
  lemma {:induction false} ReadAllIsParseLines(w: World, s: Bytes)
    ensures ReadAll(w, s) == ParseLines(w, LinesOf(Segments(s)))
    decreases |s|
  {
    if s == [] {
      LinesOfLast(s);
    } else {
      var line, rest := StripEnd(s[..LineLength(s)]), s[LineLength(s)..];
      var lines := LinesOf(Segments(rest));
      LinesOfFirst(s);
      ReadAllIsParseLines(w, rest);
      ReadAllLine(w, s);
      ParseLinesStep(w, line, lines);
      assert [] + lines == lines;
    }
  }

  // ---- what one line of the stream gives ----

  /** Exactly one CR goes, and nothing else. */
  lemma {:induction false} StripCrExactly(line: Bytes)
    ensures StripCr(line + [0x0D]) == line
    ensures line == [] || line[|line| - 1] != 0x0D ==> StripCr(line) == line
  {
    assert (line + [0x0D])[..|line|] == line;
  }

  function LineEnd(crlf: bool): Bytes {
    if crlf then [0x0D, 0x0A] else [0x0A]
  }

  lemma {:induction false} IndexOfFirst(line: Bytes, rest: Bytes)
    requires LF !in line
    ensures LF in line + [LF] + rest && IndexOfLf(line + [LF] + rest) == |line|
  {
    var s := line + [LF] + rest;
    assert s[|line|] == LF;
    assert forall i | 0 <= i < |line| :: s[i] == line[i];
  }

  lemma {:induction false} FirstLineIs(line: Bytes, rest: Bytes)
    requires LF !in line
    ensures var s := line + [LF] + rest;
            && s != [] && StripEnd(s[..LineLength(s)]) == StripCr(line) && s[LineLength(s)..] == rest
  {
    var s := line + [LF] + rest;
    IndexOfFirst(line, rest);
    FirstLineWithLf(s);
    assert s[..|line|] == line && s[|line| + 1..] == rest;
  }

  // The frame on a line comes first, before all that follows; a blank line gives nothing.
  function Heads(w: World, line: Bytes, more: Input): Input {
    if line == [] then more
    else
      match ParseFrame(w, line)
      case Err(e) => Input([], Some(e))
      case Ok(f) => Input([f] + more.frames, more.error)
  }

  /** Whether a line ends in LF or in CR LF, the frame on it is read whole, a blank one is skipped, and the first
      that does not parse ends the stream with its error. */
  lemma {:induction false} ReadsLine(w: World, line: Bytes, crlf: bool, rest: Bytes)
    requires 0x0A !in line && (crlf || line == [] || line[|line| - 1] != 0x0D)
    ensures ReadAll(w, line + LineEnd(crlf) + rest) == Heads(w, line, ReadAll(w, rest))
  {
    var ended := if crlf then line + [0x0D] else line;
    assert line + LineEnd(crlf) + rest == ended + [0x0A] + rest;
    StripCrExactly(line);
    FirstLineIs(ended, rest);
    ReadAllLine(w, ended + [0x0A] + rest);
  }

  /** A last line without an LF is read as it stands, even if it ends in CR. */
  lemma {:induction false} ReadsLast(w: World, line: Bytes)
    requires 0x0A !in line && line != []
    ensures ReadAll(w, line) == Heads(w, line, Input([], None))
  {
    LastLine(line);
    ReadAllLine(w, line);
    assert line[|line|..] == [];
  }

  // ---- writing ----

  function Unlines(lines: seq<Bytes>): Bytes {
    if lines == [] then [] else Unlines(lines[..|lines| - 1]) + (lines[|lines| - 1] + [LF])
  }

  // `write_line`, and `write_frame` applied to a frame's raw bytes.
  method WriteLine(out: Buffer, line: Bytes) returns (r: Result<(), WireError>)
    modifies out
    ensures LF in line ==> r == Err(EmbeddedNewline) && out.bytes == old(out.bytes)
    ensures LF !in line ==> r == Ok(()) && out.bytes == old(out.bytes) + (line + [LF])
  {
    if LF in line {
      return Err(EmbeddedNewline);
    }
    out.Extend(line);
    out.Extend([LF]);
    return Ok(());
  }

  lemma {:induction false} UnlinesAppend(lines: seq<Bytes>, more: seq<Bytes>)
    ensures Unlines(lines + more) == Unlines(lines) + Unlines(more)
  {
    if more == [] {
      assert lines + more == lines;
    } else {
      var init, last := more[..|more| - 1], more[|more| - 1];
      UnlinesAppend(lines, init);
      assert (lines + more)[..|lines + more| - 1] == lines + init;
      Assoc(Unlines(lines), Unlines(init), last + [LF]);
    }
  }

  lemma {:induction false} SegmentsOfLine(line: Bytes, rest: Bytes)
    requires LF !in line
    ensures Segments(line + [LF] + rest) == [line] + Segments(rest)
  {
    var s := line + [LF] + rest;
    assert s[|line|] == LF;
    var k := IndexOfLf(s);
    assert forall i | 0 <= i < |line| :: s[i] == line[i];
    assert s[..k] == line && s[k + 1..] == rest;
  }

  function StripAll(lines: seq<Bytes>): seq<Bytes> {
    if lines == [] then []
    else (if StripCr(lines[0]) == [] then [] else [StripCr(lines[0])]) + StripAll(lines[1..])
  }

  lemma {:induction false} UnlinesCons(line: Bytes, lines: seq<Bytes>)
    ensures Unlines([line] + lines) == line + [LF] + Unlines(lines)
  {
    UnlinesAppend([line], lines);
    assert Unlines([line]) == Unlines([]) + (line + [LF]);
  }

  lemma {:induction false} LinesOfUnlines(lines: seq<Bytes>)
    requires forall i | 0 <= i < |lines| :: LF !in lines[i]
    ensures LinesOf(Segments(Unlines(lines))) == StripAll(lines)
  {
    if lines != [] {
      var rest := Unlines(lines[1..]);
      assert lines == [lines[0]] + lines[1..];
      UnlinesCons(lines[0], lines[1..]);
      SegmentsOfLine(lines[0], rest);
      LinesOfUnlines(lines[1..]);
      LinesOfCons(lines[0], Segments(rest));
    }
  }

  predicate EndsInCr(line: Bytes) {
    line != [] && line[|line| - 1] == CR
  }

  lemma {:induction false} StripAllIdentity(lines: seq<Bytes>)
    requires forall i | 0 <= i < |lines| :: lines[i] != []
    ensures |StripAll(lines)| <= |lines|
    ensures StripAll(lines) == lines <==> forall i | 0 <= i < |lines| :: !EndsInCr(lines[i])
  {
    if lines != [] {
      StripAllIdentity(lines[1..]);
      assert lines == [lines[0]] + lines[1..];
      var head := StripCr(lines[0]);
      if StripAll(lines) == lines {
        assert head != [];
        assert StripAll(lines)[0] == head && StripAll(lines)[1..] == StripAll(lines[1..]);
        forall i | 0 <= i < |lines| ensures !EndsInCr(lines[i]) {
          if i > 0 { assert lines[i] == lines[1..][i - 1]; }
        }
      } else if forall i | 0 <= i < |lines| :: !EndsInCr(lines[i]) {
        assert !EndsInCr(lines[0]);
      }
    }
  }

  /** Written lines come back unchanged exactly when none of them ends in CR. */
  lemma {:induction false} WriteThenSplit(lines: seq<Bytes>)
    requires forall i | 0 <= i < |lines| :: LF !in lines[i] && lines[i] != []
    ensures LinesOf(Segments(Unlines(lines))) == lines <==> forall i | 0 <= i < |lines| :: !EndsInCr(lines[i])
  {
    LinesOfUnlines(lines);
    StripAllIdentity(lines);
  }

  function Raws(frames: seq<Frame>): (r: seq<Bytes>)
    ensures |r| == |frames| && forall i | 0 <= i < |r| :: r[i] == frames[i].raw
  {
    if frames == [] then [] else [frames[0].raw] + Raws(frames[1..])
  }

  lemma {:induction false} ParseLinesOfRaws(w: World, frames: seq<Frame>)
    requires forall i | 0 <= i < |frames| :: IsFrame(w, frames[i])
    ensures ParseLines(w, Raws(frames)) == Input(frames, None)
  {
    if frames != [] {
      ParseLinesOfRaws(w, frames[1..]);
      ParseLinesStep(w, frames[0].raw, Raws(frames[1..]));
      assert IsFrame(w, frames[0]);
      assert frames == [frames[0]] + frames[1..];
    }
  }

  /** Writing frames whose bytes do not end in CR and reading to the end of the stream returns the same
      frames, raw bytes included, in order. */
  lemma {:induction false} WriteThenRead(w: World, frames: seq<Frame>)
    requires Sound(w)
    requires forall i | 0 <= i < |frames| :: IsFrame(w, frames[i]) && !EndsInCr(frames[i].raw)
    ensures ReadAll(w, Unlines(Raws(frames))) == Input(frames, None)
  {
    forall i | 0 <= i < |frames| ensures LF !in Raws(frames)[i] && Raws(frames)[i] != [] && !EndsInCr(Raws(frames)[i]) {
      FrameFacts(w, frames[i]);
    }
    WriteThenSplit(Raws(frames));
    ReadAllIsParseLines(w, Unlines(Raws(frames)));
    ParseLinesOfRaws(w, frames);
  }

  // What a client writes that ends its lines in CR LF.
  function CrLfLines(lines: seq<Bytes>): Bytes {
    if lines == [] then [] else lines[0] + [0x0D, 0x0A] + CrLfLines(lines[1..])
  }

  lemma {:induction false} HeadsFrame(w: World, f: Frame, more: Input)
    requires Sound(w) && IsFrame(w, f)
    ensures LF !in f.raw && Heads(w, f.raw, more) == Input([f] + more.frames, more.error)
  {
    FrameFacts(w, f);
  }

  lemma {:induction false} CrLfOfFrames(frames: seq<Frame>)
    requires frames != []
    ensures CrLfLines(Raws(frames)) == frames[0].raw + LineEnd(true) + CrLfLines(Raws(frames[1..]))
  {
    assert Raws(frames)[1..] == Raws(frames[1..]);
  }

  /** Frames written with CR LF are read back, raw bytes included. */
  lemma {:induction false} CrLfThenRead(w: World, frames: seq<Frame>)
    requires Sound(w) && forall i | 0 <= i < |frames| :: IsFrame(w, frames[i])
    ensures ReadAll(w, CrLfLines(Raws(frames))) == Input(frames, None)
  {
    if frames != [] {
      var f, more := frames[0], frames[1..];
      CrLfThenRead(w, more);
      HeadsFrame(w, f, Input(more, None));
      ReadsLine(w, f.raw, true, CrLfLines(Raws(more)));
      CrLfOfFrames(frames);
      assert frames == [f] + more;
    }
  }

  // ---- reading, then writing ----

  predicate NoLf(lines: seq<Bytes>) {
    forall i | 0 <= i < |lines| :: LF !in lines[i]
  }

  lemma {:induction false} SegmentsOfUnlines(lines: seq<Bytes>)
    requires NoLf(lines)
    ensures Segments(Unlines(lines)) == lines + [[]]
  {
    if lines != [] {
      assert lines == [lines[0]] + lines[1..];
      UnlinesCons(lines[0], lines[1..]);
      SegmentsOfLine(lines[0], Unlines(lines[1..]));
      SegmentsOfUnlines(lines[1..]);
      Assoc([lines[0]], lines[1..], [[]]);
    }
  }

  // LF-free lines are determined by the bytes they make up.
  lemma {:induction false} UnlinesInjective(x: seq<Bytes>, y: seq<Bytes>)
    requires NoLf(x) && NoLf(y)
    ensures Unlines(x) == Unlines(y) <==> x == y
  {
    if Unlines(x) == Unlines(y) {
      SegmentsOfUnlines(x);
      SegmentsOfUnlines(y);
      assert x == (x + [[]])[..|x|] && y == (y + [[]])[..|y|];
    }
  }

  // What one terminated line gives, and whether it comes out as it went in.
  function LineFrom(line: Bytes): seq<Bytes> {
    if StripCr(line) == [] then [] else [StripCr(line)]
  }

  predicate Plain(line: Bytes) {
    line != [] && !EndsInCr(line)
  }

  lemma {:induction false} PlainLine(line: Bytes)
    ensures |LineFrom(line)| <= 1
    ensures LineFrom(line) == [line] <==> Plain(line)
  {
    assert EndsInCr(line) ==> |StripCr(line)| < |line|;
    assert StripCr(line) != line ==> [StripCr(line)][0] != [line][0];
  }

  // The lines of a stream are no more than its pieces, and are the pieces only if each is plain.
  lemma {:induction false} LinesArePieces(segments: seq<Bytes>)
    requires |segments| > 0
    ensures |LinesOf(segments)| <= |segments|
    ensures |LinesOf(segments)| == |segments| ==> segments[|segments| - 1] != []
    ensures LinesOf(segments) + [[]] == segments <==>
            segments[|segments| - 1] == [] && forall i | 0 <= i < |segments| - 1 :: Plain(segments[i])
  {
    if |segments| == 1 {
      OnePiece(segments);
    } else {
      var first, rest := segments[0], segments[1..];
      assert segments == [first] + rest;
      LinesOfCons(first, rest);
      LinesArePieces(rest);
      PlainLine(first);
      assert LinesOf(segments) == LineFrom(first) + LinesOf(rest);
      FirstPiece(LineFrom(first), first, LinesOf(rest), rest);
      assert Plain(first) && (forall i | 0 <= i < |rest| - 1 :: Plain(rest[i])) <==>
             forall i | 0 <= i < |segments| - 1 :: Plain(segments[i]) by {
        assert forall i | 0 < i < |segments| :: segments[i] == rest[i - 1];
        assert forall i | 0 <= i < |rest| :: rest[i] == segments[i + 1];
      }
    }
  }

  lemma {:induction false} OnePiece(segments: seq<Bytes>)
    requires |segments| == 1
    ensures |LinesOf(segments)| <= 1 && (LinesOf(segments) + [[]] == segments <==> segments[0] == [])
  {
    assert segments[0] == [] ==> LinesOf(segments) == [] && segments == [[]];
    assert segments[0] != [] ==> |LinesOf(segments) + [[]]| == 2;
  }

  lemma {:induction false} FirstPiece(x: seq<Bytes>, first: Bytes, lines: seq<Bytes>, rest: seq<Bytes>)
    requires |x| <= 1 && |lines| <= |rest| && |rest| > 0
    requires |lines| == |rest| ==> rest[|rest| - 1] != []
    ensures x + lines + [[]] == [first] + rest <==> x == [first] && lines + [[]] == rest
  {
    Assoc(x, lines, [[]]);
    if x + lines + [[]] == [first] + rest {
      var n := |rest|;
      assert (x + lines + [[]])[n] == ([first] + rest)[n];
      if |x| == 1 {
        assert (x + (lines + [[]]))[0] == first && (x + (lines + [[]]))[1..] == rest;
      }
    }
  }

  lemma {:induction false} ParsedRaws(w: World, lines: seq<Bytes>)
    requires ParseLines(w, lines).error == None
    ensures Raws(ParseLines(w, lines).frames) == lines
  {
    if lines != [] {
      ParsedIsFrame(w, lines[0]);
      ParsedRaws(w, lines[1..]);
      assert lines == [lines[0]] + lines[1..];
    }
  }

  lemma {:induction false} LinesNoLf(segments: seq<Bytes>)
    requires |segments| > 0 && NoLf(segments)
    ensures NoLf(LinesOf(segments))
  {
    if |segments| > 1 {
      LinesNoLf(segments[1..]);
    }
  }

  /** A stream that can be read is passed on byte for byte, frame by frame, exactly when it ends in LF, if it is
      not empty, and has neither blank lines nor CRs before an LF. */
  lemma {:induction false} ReadThenWrite(w: World, s: Bytes)
    requires ReadAll(w, s).error == None
    ensures var segments := Segments(s);
            Unlines(Raws(ReadAll(w, s).frames)) == s <==>
            segments[|segments| - 1] == [] && forall i | 0 <= i < |segments| - 1 :: Plain(segments[i])
  {
    var segments, lines := Segments(s), LinesOf(Segments(s));
    ReadAllIsParseLines(w, s);
    ParsedRaws(w, lines);
    SegmentsJoin(s);
    LinesNoLf(segments);
    SegmentsOfUnlines(lines);
    LinesArePieces(segments);
    if lines + [[]] == segments {
      SegmentsJoin(Unlines(lines));
    }
  }
}
