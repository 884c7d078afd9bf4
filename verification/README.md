# Verified model of acp-core

acp-core records the traffic between an agent client and an agent, replays a recording to a live client, and
compares recordings. These files model its five libraries in Dafny and prove what they promise one another:

- **Canonical JSON** (`Json`, `Unicode`, `Canonical`, `Decoder`, `Equality`): the printer of
  `crates/acp-wire/src/canonical.rs`, writing into a shared buffer and sorting with the lazy UTF-16 comparator.
  Main result: canonical bytes are equal exactly when two values are equal up to key order at every depth
  (RFC 8785, sections 3.2.2.2 and 3.2.3), shown by a decoder that inverts the printer.
- **Wire** (`Wire`, `Members`, `Framing`): classification of frames, payload hashes, the newline reader and writer.
- **Trace store** (`Trace`): the writer's two-step `record`, the blob store that keeps the first raw bytes seen,
  and `load_blob`.
- **Proxy** (`Proxy`): the two recording threads and the main thread as a step system over a mutex-guarded slot;
  the theorems hold for every schedule.
- **Replay** (`Replay`, `ReplayTheory`, `ReplayModes`): the engine as loops over a cursor, an id map and an output,
  proved equal to a functional description, which is then put in closed form: after `k` accepted client frames,
  this is the cursor, this is the id map, these lines have been written.
- **Diff** (`Diverge`, `DivergeTheory`, `FirstDivergence`): the flat table, the backtrack, optimality against every
  matching and every edit script, and exactly when the reported divergence is where the common prefix ends.
- **End to end** (`EndToEnd`, `Renaming`, `StaleIds`, `Sessions`): record under any schedule, then replay: exactly when
  the bytes come back, what a client that renames its ids is told and when that is its own id, and what the diff of
  two recordings says of the messages exchanged.

Automatic induction is switched off throughout; every induction is written out.

## Assumptions

Two foreign functions are parameters, the fields of `Wire.World`: `serde_json::from_slice` as a partial function from
bytes to trees, and blake3 as an arbitrary function. The serializer `serde_json::to_vec`, which writes rewritten
responses, is taken to be `Canonical.Compact`: members in stored order, no spaces, shortest escapes. `Wire.Sound` is all that is assumed of them: parsed trees are well
formed (unique keys, numbers in serde_json's range), the empty text is not JSON, digests are 32 bytes.
`EndToEnd.AssumptionsAreMet` gives a parser for which this holds. That no two canonical forms of one run
collide under blake3 is a hypothesis of the lemmas that need it (`NoCollision`), and only of those.

A number that is not an integer is represented by the text serde_json prints for it. `RecordKind` and `RecordId` are
merged with `Kind` and `Id`, whose conversions are one to one. A frame value is always one that `Frame::parse` built from
its own bytes (`Wire.IsFrame`).

## Where code and documentation disagree

The model follows the code.

- `crates/acp-trace/src/lib.rs:10-14` and `docs/ARCHITECTURE.md` promise the exact bytes of every frame even when equal
  frames had different key orders. The store keeps the first bytes only: `EndToEnd.ReplayIsNotAlwaysExact` is a session
  replayed with other bytes than were sent, and `EndToEnd.RecordThenReplay` says exactly which sessions are byte-exact.
- `crates/acp-wire/src/canonical.rs:11-12` speaks of surrogate-pair escapes; the code writes such characters as UTF-8.
- RFC 8785 prints 1.0 as `1`; the code prints `1.0`, so a float and an integer of equal value are different values here.
- `docs/ARCHITECTURE.md` says the event log is fsynced after each record; the code flushes it.
- The proxy forwards before it records, so a response may precede its request in the log
  (`Proxy.ResponseMayBeLoggedFirst`): the order is decided when the response's event is appended
  (`Proxy.OrderIsFixedAtAppend`), and is right whenever the request was logged before the response was forwarded
  (`Proxy.LoggedRequestComesFirst`).
- Frames forwarded after the writer is taken are not recorded (`Proxy.LateFramesAreNotRecorded`);
  `Proxy.ClientSideComplete` says exactly when the client's side is recorded whole.
- `README.md:245-249` and `crates/acp-replay/src/lib.rs:161-169` promise that a remapped client sees its own ids back, and
  `crates/acp-replay/src/lib.rs:212-213` that the id map holds requests not yet answered. The map is never cleared and a
  frame that matches outright does not touch it: recorded are requests 1 and 1 with their responses, the client asks
  under 7 and then 1, and both answers come under 7 (`StaleIds.StaleIdIsTold`). Nor is a response rewritten for a frame
  that comes after it in the log: when the answer to request 1 is logged first, a client that asks under 7 is answered
  under 1 (`StaleIds.RecordedIdIsTold`). The client that sends a frame is told its own id exactly when the last frame
  before the response that renamed the recorded id used the same one, or none did and its own frame kept the recorded
  id (`Renaming.ToldOwnId`, `Renaming.RenamedClientGetsItsIds`). For a client that renames consistently this comes to:
  it kept the recorded id, or some frame of that recorded id precedes the response (`Renaming.ConsistentRenaming`).
- `first_divergence` answers "where did they part ways" (`crates/acp-diverge/src/lib.rs:13`), yet it is neither symmetric
  (`DivergeTheory.FirstDivergenceAsymmetric`) nor always the length of the common prefix
  (`DivergeTheory.FirstDivergenceMissesPrefix`). What it is, for all traces, is `FirstDivergence.FirstDivergenceExactly`:
  from the cell where the backtrack reaches the prefix's row or column, the prefix is matched as late as possible, and
  the steps that then still meet themselves are its lead. So it is the length of the common prefix exactly when the last
  step of the prefix does not recur before that cell (`FirstDivergence.FirstDivergenceIsPrefix`), and is symmetric
  exactly when the two leads are equal (`FirstDivergence.FirstDivergenceSymmetric`). Which cell that is depends on the
  table; the condition a caller can read off the traces, that this step recurs nowhere later, is sufficient for both
  (`FirstDivergence.NoRecurrence`) but not necessary: `[x, p, x]` against `[x, q, x]` recurs and reports 1
  (`FirstDivergence.RecurrenceMayBeHarmless`).
- `crates/acp-proxy/src/lib.rs:1-6` says that frames are forwarded with their original bytes intact. A CR before the LF
  is dropped, as are blank lines, and a missing last LF is added: `Framing.ReadThenWrite` says exactly which streams
  come through unchanged.

## Model

| member | source | states |
|---|---|---|
| Canonical.WriteUEscape | crates/acp-wire/src/canonical.rs:109-116 | appends exactly the six bytes of a lower-case `\uXXXX` escape |
| Decoder.UEscapeSpelling | crates/acp-wire/src/canonical.rs:109-116 | that escape is a backslash, a `u` and four digits in `0-9a-f` whose values make up the code unit, high nibble first |
| Canonical.WriteString | crates/acp-wire/src/canonical.rs:84-107 | appends the quoted, escaped text of the string, which `Decoder.QuotedRoundTrip` reads back |
| Canonical.SortEntries | crates/acp-wire/src/canonical.rs:52-53 | sorting with the UTF-16 comparator yields the sorted list, unique by `Canonical.SortedUnique` |
| Canonical.WriteValue | crates/acp-wire/src/canonical.rs:28-66 | the printer, sorting each object as it goes, appends the print of the tree with all keys sorted beforehand |
| Canonical.CanonicalBytes | crates/acp-wire/src/canonical.rs:22-26 | returns the canonical bytes |
| Canonical.SortMembersSorts | crates/acp-wire/src/canonical.rs:52-53 | the entries are permuted, and distinct keys end in strict UTF-16 order |
| Canonical.SortedUnique | crates/acp-wire/src/canonical.rs:52-53 | the sorted entry list is determined by its elements, whatever the input order or the sorting algorithm |
| Unicode.EncodeUtf16.Next | crates/acp-wire/src/canonical.rs:69-72 | the lazy iterator yields the UTF-16 encoding, unit by unit |
| Unicode.UnitsSpell | crates/acp-wire/src/canonical.rs:69-72 | the units of a character carry its scalar value, as section 2.1 of RFC 2781 lays it out |
| Unicode.Utf16Cmp | crates/acp-wire/src/canonical.rs:68-82 | the two-iterator loop computes lexicographic order on the full UTF-16 encodings |
| Unicode.KeyOrderTotal | crates/acp-wire/src/canonical.rs:68-82 | the comparison is a total order and calls only identical strings equal |
| Unicode.KeyOrderByScalars | crates/acp-wire/src/canonical.rs:68-82 | it is the order of scalar values, except that supplementary characters sort before U+E000 |
| Decoder.EscapeIsShortest | crates/acp-wire/src/canonical.rs:84-107 | minimal escaping: of all the ways RFC 8259 has of writing a character, `\/`, either case of hex and surrogate pairs included, none is shorter than the one printed |
| Decoder.QuotedRoundTrip | crates/acp-wire/src/canonical.rs:84-107 | a printed string literal reads back to the string, whatever follows it |
| Decoder.RoundTrip | crates/acp-wire/src/canonical.rs:28-66 | printed text reads back to the tree, whatever follows it, under a strict reader with its own spelling of every token: delimiters, escapes and nesting are unambiguous |
| Decoder.DecimalIsOnlySpelling | crates/acp-wire/src/canonical.rs:33-38 | an integer has one spelling in JSON, and it is the one printed: no leading zero, no `-0` |
| Equality.SameIffSortAlike | crates/acp-wire/src/canonical.rs:50-64 | two values are equal as nested maps exactly when sorting their keys makes them identical |
| Equality.CanonicalDecidesEquality | crates/acp-wire/src/canonical.rs:22-107 | canonical bytes are equal iff the values are equal up to key order at every depth |
| Equality.CanonicalFixedPoint | crates/acp-wire/src/canonical.rs:22-26 | canonical bytes read back to the same value with keys in strict UTF-16 order everywhere, and print again as themselves |
| Equality.CanonicalPrintable | crates/acp-wire/src/canonical.rs:84-116 | no byte below 0x20 is ever printed, so canonical text is a legal line |
| Wire.IdRoundTrip | crates/acp-wire/src/lib.rs:58-75 | reading an id from a value and writing it back are inverse, and defined on exactly the printed ids |
| Wire.FrameFacts | crates/acp-wire/src/lib.rs:111-143 | what a parsed frame guarantees: an object on one line, headed as classified, its id the value of the `id` member |
| Wire.ClassifyExactly | crates/acp-wire/src/lib.rs:118-134 | request, notification, response, not JSON-RPC or unclassifiable: an iff for each, told by the members the object has; method and id are those members' values |
| Wire.IdMeans | crates/acp-wire/src/lib.rs:59-66 | an object has an id iff its `id` member is null, a string or an integer of 64 bits, and the id is that value |
| Wire.ParseFrameExactly | crates/acp-wire/src/lib.rs:111-143 | which lines are frames and which error each other line gives |
| Wire.SameClassify | crates/acp-wire/src/lib.rs:118-134 | kind, method and id, or the rejection, do not depend on key order |
| Wire.CanonicalFrame | crates/acp-wire/src/lib.rs:111-143 | wherever the parser reads the canonical bytes of an accepted frame as the value they print, they are a frame of the same kind, method and id |
| Wire.HexTextInjective | crates/acp-wire/src/lib.rs:176-184 | the hex form of a digest determines the digest |
| Wire.HexTextSpells | crates/acp-wire/src/lib.rs:176-184 | each byte is spelt as two digits in `0-9a-f`, the high one first |
| Wire.HashTextSpells | crates/acp-wire/src/lib.rs:156-184 | a hash text is `blake3:` and the 64 digits of the digest of the canonical bytes |
| Wire.HashDecidesEquality | crates/acp-wire/src/lib.rs:156-174 | hash texts are equal iff the values are equal up to key order, short of a blake3 collision |
| Wire.SameHash | crates/acp-wire/src/lib.rs:156-174 | values equal up to key order hash alike, for any hash function |
| Framing.FrameReader.ReadFrame | crates/acp-wire/src/lib.rs:204-226 | reads the next frame as `NextFrame` says, leaves the rest of the stream, and ends despite recursing on blank lines |
| Framing.WriteLine | crates/acp-wire/src/lib.rs:231-250 | writes the line and one LF, or refuses a line with an LF and writes nothing |
| Framing.SegmentsJoin | crates/acp-wire/src/lib.rs:206-219 | the reference split: LF-free pieces whose LF-join is the stream |
| Framing.ReadAllIsParseLines | crates/acp-wire/src/lib.rs:204-226 | reading to the end yields exactly the frames of the non-empty lines, one CR stripped before each LF, up to the first that fails |
| Framing.StripCrExactly | crates/acp-wire/src/lib.rs:210-217 | exactly one CR goes from the end of a line, and nothing else |
| Framing.ReadsLine | crates/acp-wire/src/lib.rs:204-226 | a line ended by LF or by CR LF gives its frame whole, a blank one nothing, a bad one its error and the end |
| Framing.ReadsLast | crates/acp-wire/src/lib.rs:204-226 | a last line without LF is read as it stands, even if it ends in CR |
| Framing.WriteThenSplit | crates/acp-wire/src/lib.rs:204-250 | written lines come back unchanged iff none ends in CR |
| Framing.WriteThenRead | crates/acp-wire/src/lib.rs:204-239 | writing frames that do not end in CR and reading to the end returns them, raw bytes included |
| Framing.CrLfThenRead | crates/acp-wire/src/lib.rs:204-226 | frames written with CR LF are read back, raw bytes included |
| Framing.ReadThenWrite | crates/acp-wire/src/lib.rs:204-239 | a readable stream, read and written frame by frame, comes through byte for byte iff it is empty or ends in LF and has no blank line and no CR before an LF |
| Members.SameIffAgree | crates/acp-wire/src/lib.rs:156-161 | objects are the same iff they agree at every key |
| Members.InsertInPlace | crates/acp-replay/src/lib.rs:364-370 | a member replaced stays where it stood, a new one goes last, all others stay in place |
| Trace.TraceWriter.constructor | crates/acp-trace/src/lib.rs:367-397 | a reused directory keeps its blobs and starts an empty log |
| Trace.TraceWriter.Record | crates/acp-trace/src/lib.rs:404-445 | one call fills the blob if absent, appends the event, advances the counter and returns the hash text |
| Trace.TraceWriter.Finalize | crates/acp-trace/src/lib.rs:449-467 | sets the event count to the next sequence number and changes neither log nor blobs |
| Trace.RecordedStep | crates/acp-trace/src/lib.rs:404-445 | log position, counter and blobs stay in step over any run |
| Trace.BlobsStayGood | crates/acp-trace/src/lib.rs:409-426 | every blob parses and lies at the path of its own hash |
| Trace.BlobsOnlyGrow | crates/acp-trace/src/lib.rs:414-426 | a written blob stays and never changes |
| Trace.FirstRawWins | crates/acp-trace/src/lib.rs:409-426 | the store holds, for each hash, the bytes already there or the first raw bytes seen |
| Trace.EventsLoad | crates/acp-trace/src/lib.rs:529-553 | `load_blob` accepts every logged event, at every cut between blob fill and event append |
| Trace.LoadBlobExactly | crates/acp-trace/src/lib.rs:529-553 | on any directory, damaged or not: an event loads the bytes its hash names iff they are a frame of that hash; otherwise it dangles, is no frame, or mismatches, each exactly when |
| Trace.BlobPathLayout | crates/acp-trace/src/lib.rs:409-414 | a blob lies in the directory of the first two digits of its hash, under the other 62 |
| Trace.LoadedFrameAgrees | crates/acp-trace/src/lib.rs:404-445 | the loaded frame has the recorded frame's value up to key order, kind, method and id, even from an earlier permuted blob |
| Proxy.ReachableInv | crates/acp-proxy/src/lib.rs:137-200 | lock, log, frame and order invariants hold in every state of every schedule |
| Proxy.ConcurrentRecording | crates/acp-proxy/src/lib.rs:137-200 | per direction the log is a prefix of what was forwarded, at most one frame behind; at finalize the a2c side is complete and the count right |
| Proxy.StoreIsSafe | crates/acp-proxy/src/lib.rs:140-163 | in every reachable state every logged event loads and every blob lies at its hash |
| Proxy.LoggedEventsAgree | crates/acp-proxy/src/lib.rs:140-163 | in every reachable state the loaded frame agrees with its event in kind, method and id |
| Proxy.BlobsArePermanent | crates/acp-trace/src/lib.rs:414-426 | a blob survives every later step of every schedule unchanged |
| Proxy.RecordRuns | crates/acp-proxy/src/lib.rs:143-146 | the three locked steps of a thread amount to one `record` call |
| Proxy.ResponseMayBeLoggedFirst | crates/acp-proxy/src/lib.rs:142-163 | a finished schedule that forwards a request before its response and logs the response first |
| Proxy.LateFramesAreNotRecorded | crates/acp-proxy/src/lib.rs:192-200 | a schedule from the start that finalizes, then forwards a client frame without recording it |
| Proxy.ClientSideComplete | crates/acp-proxy/src/lib.rs:192-200 | the client's side is recorded whole iff no client frame was waiting to be recorded when the writer was taken, and none was forwarded afterwards |
| Proxy.LogOnlyGrows | crates/acp-trace/src/lib.rs:428-445 | the log is append-only along every schedule |
| Proxy.OrderIsFixedAtAppend | crates/acp-proxy/src/lib.rs:142-163 | when an a2c event is appended, a client frame precedes it in every later log iff it has been recorded by then |
| Proxy.LoggedRequestComesFirst | crates/acp-proxy/src/lib.rs:142-163 | a request in the log when its response is forwarded precedes it in every later log |
| Proxy.EverySessionIsRecorded | crates/acp-proxy/src/lib.rs:137-200 | any list of frames in any interleaving is what some schedule records and finishes |
| Proxy.CanAlwaysFinish | crates/acp-proxy/src/lib.rs:137-200 | the recorder cannot wedge: from every reachable state some continuation finishes the trace and stops both threads |
| Replay.FindNextC2a | crates/acp-replay/src/lib.rs:372-379 | finds the next c2a event from the cursor, or reports the trace exhausted |
| Replay.EmitOne | crates/acp-replay/src/lib.rs:335-357 | writes the one line due for an a2c event, rewritten or verbatim, or nothing on an error |
| Replay.EmitA2cBlock | crates/acp-replay/src/lib.rs:321-362 | writes the whole block up to the next c2a event and counts its lines |
| Replay.Accept | crates/acp-replay/src/lib.rs:211-257 | matches one client frame, moving the cursor and the id map or returning the error |
| Replay.ReplayInteractiveWith | crates/acp-replay/src/lib.rs:190-264 | on any client byte stream, writes exactly the lines and ends exactly as the functional description says |
| Replay.ReplayOffline | crates/acp-replay/src/lib.rs:147-158 | writes every a2c blob in order and returns their number, or the first error |
| ReplayTheory.C2aPosEnumerates | crates/acp-replay/src/lib.rs:372-379 | the cursor positions enumerate the c2a events in order and without gaps |
| ReplayTheory.BlockRuns | crates/acp-replay/src/lib.rs:321-362 | an emit block ends at the next c2a event or the end, or at the first event it cannot write, leaving the closed-form state |
| ReplayTheory.RunCharacterized | crates/acp-replay/src/lib.rs:200-263 | on any stream and any trace: the run stops at the first a2c event due that cannot be written, else ends with the stream, with its bad line, with the trace exhausted, or with the first frame that does not match; cursor, id map, count and output in closed form |
| ReplayTheory.SucceedsExactly | crates/acp-replay/src/lib.rs:210-263 | a run succeeds iff the stream can be read, its frames match a prefix of the recorded c2a events one by one, and every a2c event due can be written |
| ReplayTheory.LinesCounted | crates/acp-replay/src/lib.rs:358-361 | one line per a2c event before the cursor, none skipped or repeated |
| ReplayModes.StrictExactly | crates/acp-replay/src/lib.rs:207-285 | strict mode on any stream and any trace: every ending with its error, sequence number and consumed count, a missing or damaged blob and a garbled client line included, and the exact output of each |
| ReplayModes.StrictMeetsOffline | crates/acp-replay/src/lib.rs:147-158 | with the whole c2a stream repeated, strict replay writes what offline replay writes and ends alike, readable blobs or not |
| ReplayModes.WritesOnlyMatches | crates/acp-trace/src/lib.rs:544-551 | on any directory, each line strict or offline replay writes is a frame with the hash of the event it is written for |
| ReplayModes.RemapExactly | crates/acp-replay/src/lib.rs:207-285 | remapping on any stream and any trace: the lines written, and every ending with its error |
| ReplayModes.RemapIsConservative | crates/acp-replay/src/lib.rs:215-239 | a stream strict mode does not turn away gives the same outcome with `remap_ids`, the id map staying empty |
| ReplayModes.AcceptanceMeans | crates/acp-replay/src/lib.rs:211-257 | a frame is accepted iff equal up to key order, or, remapping, both carry ids and everything else is equal up to key order |
| ReplayModes.RenamedIsAccepted | crates/acp-replay/src/lib.rs:296-305 | a frame whose id was renamed to anything is accepted, with no collision hypothesis |
| ReplayModes.IdMapExactly | crates/acp-replay/src/lib.rs:235-239 | an id is mapped iff a slow-path frame taught it, and to what the last such frame carried |
| ReplayModes.RenamerTeaches | crates/acp-replay/src/lib.rs:218-239 | an accepted frame teaches the map an id iff it was recorded under that id and came under another |
| ReplayModes.ResponseCarriesClientId | crates/acp-replay/src/lib.rs:335-353 | a response goes out under the id of the last client frame that taught its recorded id, whichever request it answers; untaught, byte for byte |
| ReplayModes.OthersUnchanged | crates/acp-replay/src/lib.rs:335-357 | requests, notifications and responses without an id go out as stored |
| ReplayModes.WithIdTouchesIdOnly | crates/acp-replay/src/lib.rs:364-370 | rewriting an id changes no other member |
| Diverge.SetCell | crates/acp-diverge/src/lib.rs:151-160 | one cell is written and every other cell kept, since flat indexes of distinct cells differ |
| Diverge.IdxInTable | crates/acp-diverge/src/lib.rs:151-152 | every index stays inside the table |
| Diverge.CellsFit | crates/acp-diverge/src/lib.rs:151-158 | in a table that can be allocated one of the dimensions is below 2^31, so the 32-bit addition cannot overflow |
| Diverge.FillRow | crates/acp-diverge/src/lib.rs:154-161 | fills one row with the recurrence, in 32 bits |
| Diverge.LcsDiff | crates/acp-diverge/src/lib.rs:147-222 | table, backtrack and reversal compute the alignment |
| Diverge.DiffSteps | crates/acp-diverge/src/lib.rs:107-128 | the statistics count the ops and give the first op that is not common |
| DivergeTheory.CommonIsLongest | crates/acp-diverge/src/lib.rs:150-222 | the common ops are as many as the longest common subsequence; no increasing matching is longer |
| DivergeTheory.AlignIsScript | crates/acp-diverge/src/lib.rs:164-221 | erasing b-only ops leaves exactly a's steps, erasing a-only ops exactly b's, in order |
| DivergeTheory.OnlyBQuotes | crates/acp-diverge/src/lib.rs:189-221 | an op only b has quotes a step of b in full, method included |
| DivergeTheory.DiffIsMinimal | crates/acp-diverge/src/lib.rs:164-221 | no edit script has fewer insertions and deletions; counts add up to the lengths |
| DivergeTheory.CountsSymmetric | crates/acp-diverge/src/lib.rs:107-127 | swapping the inputs keeps `common` and exchanges `only_a` with `only_b` |
| DivergeTheory.SuffixStaysCommon | crates/acp-diverge/src/lib.rs:168-179 | the longest common suffix comes out whole, as trailing common ops |
| DivergeTheory.FirstDivergenceMeans | crates/acp-diverge/src/lib.rs:107-127 | none iff the traces agree step by step; at `k` only if they agree on their first `k` steps |
| FirstDivergence.FirstDivergenceExactly | crates/acp-diverge/src/lib.rs:164-199 | the first divergence of any two traces, from their common prefix and the edge of the backtrack |
| FirstDivergence.FirstDivergenceIsPrefix | crates/acp-diverge/src/lib.rs:164-199 | the position is the length of the common prefix iff the last step of the prefix does not recur before the edge of the backtrack |
| FirstDivergence.NoRecurrence | crates/acp-diverge/src/lib.rs:107-127 | for traces in which that step recurs nowhere later, the position is where they part |
| FirstDivergence.FirstDivergenceSymmetric | crates/acp-diverge/src/lib.rs:107-127 | the position is the same both ways round iff the two leads are equal; so when the step recurs in neither backtrack, and not when it recurs in one |
| FirstDivergence.RecurrenceMayBeHarmless | crates/acp-diverge/src/lib.rs:164-199 | two traces whose last shared step recurs and whose parting is still found |
| DivergeTheory.FirstDivergenceMissesPrefix | crates/acp-diverge/src/lib.rs:180-199 | `[x]` against `[x, x]` diverges at 0 |
| DivergeTheory.FirstDivergenceAsymmetric | crates/acp-diverge/src/lib.rs:180-199 | two traces whose first divergence is 0 one way and 1 the other |
| EndToEnd.ReplaySendsStored | crates/acp-replay/src/lib.rs:200-263 | a client repeating the recorded frames up to key order is accepted to the end and sent every stored a2c frame |
| EndToEnd.RecordThenReplay | crates/acp-proxy/src/lib.rs:137-200 | for every schedule, replay to such a client writes the forwarded bytes iff every a2c frame keeps its bytes in the store |
| EndToEnd.KeepsBytesDecides | crates/acp-trace/src/lib.rs:414-426 | a frame keeps its bytes iff the directory already had them, or the first frame equal to it up to key order had them |
| EndToEnd.RepeatedBytesSuffice | crates/acp-trace/src/lib.rs:414-426 | a fresh directory and equal frames with equal bytes are enough |
| EndToEnd.ReplayIsFaithfulUpToKeyOrder | crates/acp-replay/src/lib.rs:354-357 | for every schedule and without any hypothesis on bytes, each line replay writes is the forwarded frame up to key order, with its kind, method and id |
| EndToEnd.ReplayIsNotAlwaysExact | crates/acp-trace/src/lib.rs:10-14 | a notification said twice with permuted keys, recorded by some schedule, is replayed with the first text both times |
| EndToEnd.StrictAcceptsExactly | crates/acp-replay/src/lib.rs:207-263 | strict replay of a recorded trace succeeds iff the client's stream can be read and its frames are a prefix of the recorded ones up to key order |
| Renaming.RenamingIsAccepted | crates/acp-replay/src/lib.rs:161-169 | a client renaming its ids by any rule is accepted to the end and sent one line per recorded a2c frame, in order |
| Renaming.RemapAcceptsExactly | crates/acp-replay/src/lib.rs:211-257 | remapping replay of a recorded trace succeeds iff the stream can be read and its frames are a prefix of the recorded ones up to key order and, where both have one, the id |
| Renaming.RecordThenRename | crates/acp-replay/src/lib.rs:218-239 | for every schedule and every renaming client, the line of each recorded a2c frame: the stored bytes, or the stored response under the id told, placed by the frame's number among the a2c frames |
| Renaming.ToldLineMeans | crates/acp-replay/src/lib.rs:364-370 | the line for a response is the recorded response under the told id up to key order, and reads back as such |
| Renaming.ToldOwnId | crates/acp-replay/src/lib.rs:235-239 | for a frame before the response or after it: the id told is its own iff the last frame to rename the recorded id used the same one, or none did and it kept the recorded id |
| Renaming.RenamedClientGetsItsIds | crates/acp-replay/src/lib.rs:335-353 | for every schedule and every renaming client: each response line written, what it says, and that the id read there is the one a given frame used iff that condition holds |
| Renaming.ConsistentRenaming | README.md:245-249 | a client that renames equal ids equally is told its own iff it kept the recorded id or some frame of that id precedes the response |
| StaleIds.StaleIdIsTold | crates/acp-replay/src/lib.rs:212-239 | a recorded session and a client that is answered under an id it used for an earlier request |
| StaleIds.RecordedIdIsTold | crates/acp-replay/src/lib.rs:335-353 | a schedule that logs the answer first, and a consistently renaming client that is answered under the recorded id |
| EndToEnd.AssumptionsAreMet | crates/acp-wire/src/lib.rs:115 | a parser exists that satisfies what is assumed of the JSON parser |
| Sessions.StepsCompareMessages | crates/acp-diverge/src/lib.rs:143-145 | steps of two recordings match iff they are the same message up to key order, in the same direction; a step carries its position and method |
| Sessions.WhereTheyPart | crates/acp-diverge/src/lib.rs:107-127 | the diff of two recordings reports no divergence iff the same messages were exchanged, never one past the shared messages, and the parting itself unless the last shared message is said again |

## Left out

- The JSON parser itself, its recursion limit and its error texts: a parameter.
- How a float is printed: its printed text stands for it.
- Real files and I/O errors: the store is a map and a log, with the blob write and the event append atomic.
- `events.jsonl` and `manifest.json` as text, `events_hash`, `TraceReader::open`, timestamps and environment capture.
- Child process, stderr thread, exit codes; a thread that fails in the middle of a frame is not a step of the proxy model.
- u64 counters are unbounded naturals.
- A hash text that is not ASCII, on which `load_blob` could split inside a character.
- `diff_two`, the renderers, the command line, the echo agent: they open files, print what the parts above compute, or serve as fixtures.
- Trace.TraceWriter.Finalize: does not set the end time or the hash of the event log, since clocks and the text of `events.jsonl` are not modelled.
- Wire.CanonicalFrame: takes as a hypothesis that the parser reads the canonical bytes as the value they print, since the parser is a parameter; deeply nested values may exceed its recursion limit.
