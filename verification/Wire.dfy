/** JSON-RPC frames, their classification and payload hash. */
module Wire {
  import opened Base
  import opened Json
  import opened Canonical
  import opened Decoder
  import opened Equality

  datatype Kind = Request | Notification | Response

  const MAX_I64: int := 0x7FFF_FFFF_FFFF_FFFF
  type I64 = n: int | -MAX_I64 - 1 <= n <= MAX_I64

  datatype Id = NumId(n: I64) | StrId(s: string) | NullId

  datatype Frame = Frame(kind: Kind, method_: Option<string>, id: Option<Id>, value: Value, raw: Bytes)

  datatype WireError = JsonError | NotJsonRpc | EmbeddedNewline | UnclassifiableFrame

  // The two foreign functions: `serde_json::from_slice` (None on a syntax error) and `blake3::hash`.
  datatype World = World(parse: Bytes -> Option<Value>, blake3: Bytes -> Bytes)

  // What is relied on: parsed trees are well formed, the empty text is not JSON, digests are 32 bytes.
  ghost predicate Sound(w: World) {
    && (forall b: Bytes :: w.parse(b).Some? ==> WellFormed(w.parse(b).value))
    && w.parse([]) == None
    && (forall b: Bytes :: |w.blake3(b)| == 32)
  }

  function IdFromValue(v: Value): Option<Id> {
    match v
    case Int(n) => if -MAX_I64 - 1 <= n <= MAX_I64 then Some(NumId(n)) else None
    case String(s) => Some(StrId(s))
    case Null => Some(NullId)
    case _ => None
  }

  function IdToValue(id: Id): Value {
    match id
    case NumId(n) => Int(n)
    case StrId(s) => String(s)
    case NullId => Null
  }

  lemma {:induction false} IdRoundTrip(v: Value, id: Id)
    ensures IdFromValue(v) == Some(id) <==> v == IdToValue(id)
    ensures WellFormed(IdToValue(id))
  {}

  datatype Heading = Heading(kind: Kind, method_: Option<string>, id: Option<Id>)

  function AsString(v: Option<Value>): Option<string> {
    match v
    case Some(String(s)) => Some(s)
    case _ => None
  }

  function GetId(ms: seq<Member>): Option<Id> {
    match Get(ms, "id")
    case Some(v) => IdFromValue(v)
    case None => None
  }

  function Classify(value: Value): Result<Heading, WireError> {
    if !value.Object? then Err(UnclassifiableFrame)
    else
      var ms := value.members;
      if AsString(Get(ms, "jsonrpc")) != Some("2.0") then Err(NotJsonRpc)
      else
        var name := AsString(Get(ms, "method"));
        var id := GetId(ms);
        var answers := Get(ms, "result").Some? || Get(ms, "error").Some?;
        if name.Some? && !answers then Ok(Heading(if id.Some? then Request else Notification, name, id))
        else if name.None? && answers then Ok(Heading(Response, name, id))
        else Err(UnclassifiableFrame)
  }

  function ParseFrame(w: World, line: Bytes): Result<Frame, WireError> {
    if LF in line then Err(EmbeddedNewline)
    else
      match w.parse(line)
      case None => Err(JsonError)
      case Some(value) =>
        match Classify(value)
        case Err(e) => Err(e)
        case Ok(h) => Ok(Frame(h.kind, h.method_, h.id, value, line))
  }

  // A frame value is only ever built by parsing its own bytes.
  predicate IsFrame(w: World, f: Frame) {
    ParseFrame(w, f.raw) == Ok(f)
  }

  lemma {:induction false} ParsedIsFrame(w: World, line: Bytes)
    requires ParseFrame(w, line).Ok?
    ensures IsFrame(w, ParseFrame(w, line).value) && ParseFrame(w, line).value.raw == line
    ensures w.parse(line) == Some(ParseFrame(w, line).value.value)
  {}

  lemma {:induction false} FrameFacts(w: World, f: Frame)
    requires Sound(w) && IsFrame(w, f)
    ensures WellFormed(f.value) && f.value.Object? && f.raw != [] && LF !in f.raw
    ensures Classify(f.value) == Ok(Heading(f.kind, f.method_, f.id))
    ensures f.id == GetId(f.value.members)
    ensures f.id.Some? ==> Get(f.value.members, "id") == Some(IdToValue(f.id.value))
  {
    var v := Get(f.value.members, "id");
    if v.Some? {
      var i :| 0 <= i < |f.value.members| && f.value.members[i] == Member("id", v.value);
      if f.id.Some? {
        IdRoundTrip(v.value, f.id.value);
      }
    }
  }

  lemma {:induction false} SameGet(m: seq<Member>, n: seq<Member>, key: string)
    requires Same(Object(m), Object(n)) && UniqueKeys(m)
    ensures Get(m, key).Some? <==> Get(n, key).Some?
    ensures Get(m, key).Some? ==> Same(Get(m, key).value, Get(n, key).value)
  {
    if Get(m, key).Some? {
      var i :| 0 <= i < |m| && m[i] == Member(key, Get(m, key).value);
    }
    if Get(n, key).Some? {
      var j :| 0 <= j < |n| && n[j] == Member(key, Get(n, key).value);
      assert n[j].key in Keys(m);
    }
  }

  lemma {:induction false} SameAsString(m: seq<Member>, n: seq<Member>, key: string)
    requires Same(Object(m), Object(n)) && UniqueKeys(m)
    ensures AsString(Get(m, key)) == AsString(Get(n, key))
  {
    SameGet(m, n, key);
  }

  lemma {:induction false} SameGetId(m: seq<Member>, n: seq<Member>)
    requires Same(Object(m), Object(n)) && UniqueKeys(m)
    ensures GetId(m) == GetId(n)
  {
    SameGet(m, n, "id");
  }

  /** Key order does not affect how a message is read: kind, method and id, or the rejection. */
  lemma {:induction false} SameClassify(v: Value, u: Value)
    requires WellFormed(v) && Same(v, u)
    ensures Classify(v) == Classify(u)
  {
    if v.Object? {
      SameAsString(v.members, u.members, "jsonrpc");
      SameAsString(v.members, u.members, "method");
      SameGetId(v.members, u.members);
      SameGet(v.members, u.members, "result");
      SameGet(v.members, u.members, "error");
    }
  }

  /** The canonical bytes of an accepted frame are themselves a frame with the same kind, method and id,
      wherever the JSON parser reads them as the value they print. */
  lemma {:induction false} CanonicalFrame(w: World, f: Frame)
    requires Sound(w) && IsFrame(w, f)
    requires w.parse(Canonicalize(f.value)) == Some(SortKeys(f.value))
    ensures ParseFrame(w, Canonicalize(f.value)) ==
            Ok(Frame(f.kind, f.method_, f.id, SortKeys(f.value), Canonicalize(f.value)))
  {
    FrameFacts(w, f);
    CanonicalPrintable(f.value);
    CanonicalFixedPoint(f.value);
    SameClassify(f.value, SortKeys(f.value));
  }

  // ---- what is accepted, and as what ----

  // A member with this key and value.
  predicate Has(ms: seq<Member>, key: string, val: Value) {
    Member(key, val) in ms
  }

  ghost predicate IsEnvelope(ms: seq<Member>) {
    Has(ms, "jsonrpc", String("2.0"))
  }

  ghost predicate NamesMethod(ms: seq<Member>) {
    exists s :: Has(ms, "method", String(s))
  }

  ghost predicate Answers(ms: seq<Member>) {
    "result" in Keys(ms) || "error" in Keys(ms)
  }

  // An id member that is a null, a string or an integer of 64 bits.
  ghost predicate CarriesId(ms: seq<Member>) {
    || Has(ms, "id", Null)
    || (exists s :: Has(ms, "id", String(s)))
    || (exists n :: -0x8000_0000_0000_0000 <= n < 0x8000_0000_0000_0000 && Has(ms, "id", Int(n)))
  }

  lemma {:induction false} GetHas(ms: seq<Member>, key: string)
    requires UniqueKeys(ms)
    ensures Get(ms, key).Some? <==> key in Keys(ms)
    ensures forall val :: Get(ms, key) == Some(val) <==> Has(ms, key, val)
  {
    var r := Get(ms, key);
    if r.Some? {
      var i :| 0 <= i < |ms| && ms[i] == Member(key, r.value);
    }
    forall val | Has(ms, key, val) ensures r == Some(val) {
      var i :| 0 <= i < |ms| && ms[i] == Member(key, val);
      GetAt(ms, i);
    }
  }

  lemma {:induction false} MethodMeans(ms: seq<Member>)
    requires UniqueKeys(ms)
    ensures AsString(Get(ms, "method")).Some? <==> NamesMethod(ms)
    ensures forall s :: AsString(Get(ms, "method")) == Some(s) <==> Has(ms, "method", String(s))
  {
    GetHas(ms, "method");
  }

  lemma {:induction false} IdMeans(ms: seq<Member>)
    requires UniqueKeys(ms)
    ensures GetId(ms).Some? <==> CarriesId(ms)
    ensures GetId(ms) == Some(NullId) <==> Has(ms, "id", Null)
    ensures forall s :: GetId(ms) == Some(StrId(s)) <==> Has(ms, "id", String(s))
    ensures forall n: I64 :: GetId(ms) == Some(NumId(n)) <==> Has(ms, "id", Int(n))
  {
    GetHas(ms, "id");
    var v := Get(ms, "id");
    if v.Some? {
      assert Has(ms, "id", v.value);
    }
  }

  /** Which objects are frames, and of which kind, told by their members; the method and the id are the values of
      the members of that name. */
  lemma {:induction false} ClassifyExactly(ms: seq<Member>)
    requires UniqueKeys(ms)
    ensures var c := Classify(Object(ms));
            && (c == Err(NotJsonRpc) <==> !IsEnvelope(ms))
            && (c == Err(UnclassifiableFrame) <==> IsEnvelope(ms) && (NamesMethod(ms) <==> Answers(ms)))
            && (c.Ok? && c.value.kind == Response <==> IsEnvelope(ms) && !NamesMethod(ms) && Answers(ms))
            && (c.Ok? && c.value.kind == Request <==>
                IsEnvelope(ms) && NamesMethod(ms) && !Answers(ms) && CarriesId(ms))
            && (c.Ok? && c.value.kind == Notification <==>
                IsEnvelope(ms) && NamesMethod(ms) && !Answers(ms) && !CarriesId(ms))
            && (c.Ok? ==> c.value.id == GetId(ms)
                          && forall s :: c.value.method_ == Some(s) <==> Has(ms, "method", String(s)))
  {
    GetHas(ms, "jsonrpc");
    GetHas(ms, "result");
    GetHas(ms, "error");
    MethodMeans(ms);
    IdMeans(ms);
  }

  /** Which lines are frames, and what is wrong with the others: an LF anywhere, text that does not parse, a value
      that is not an object, or an object that is no envelope. */
  lemma {:induction false} ParseFrameExactly(w: World, line: Bytes)
    requires Sound(w)
    ensures var r := ParseFrame(w, line);
            && (r == Err(EmbeddedNewline) <==> 0x0A in line)
            && (r == Err(JsonError) <==> 0x0A !in line && w.parse(line) == None)
            && (0x0A !in line && w.parse(line).Some? ==>
                  var v := w.parse(line).value;
                  if !v.Object? then r == Err(UnclassifiableFrame)
                  else
                    match Classify(v)
                    case Err(e) => r == Err(e)
                    case Ok(h) => r == Ok(Frame(h.kind, h.method_, h.id, v, line)))
  {
    if w.parse(line).Some? && w.parse(line).value.Object? {
      ClassifyExactly(w.parse(line).value.members);
    }
  }

  // ---- payload hashes ----

  function HexChar(n: int): char
    requires 0 <= n < 16
  {
    Hex(n) as char
  }

  function HexText(bs: Bytes): (r: string)
    ensures |r| == 2 * |bs|
  {
    if bs == [] then "" else [HexChar(bs[0] / 16), HexChar(bs[0] % 16)] + HexText(bs[1..])
  }

  lemma {:induction false} HexTextInjective(a: Bytes, b: Bytes)
    requires HexText(a) == HexText(b)
    ensures a == b
  {
    assert |a| == |b|;
    if a != [] {
      assert HexText(a)[0] == HexChar(a[0] / 16) && HexText(a)[1] == HexChar(a[0] % 16);
      assert HexText(b)[0] == HexChar(b[0] / 16) && HexText(b)[1] == HexChar(b[0] % 16);
      assert HexText(a)[2..] == HexText(a[1..]) && HexText(b)[2..] == HexText(b[1..]);
      HexTextInjective(a[1..], b[1..]);
      assert a == [a[0]] + a[1..] && b == [b[0]] + b[1..];
    }
  }

  // Two lower-case hex digits at `k` spell the byte, the high one first.
  predicate SpellsByte(t: string, k: nat, b: Byte) {
    && k + 1 < |t|
    && var hi, lo := LowerHex(t[k] as int), LowerHex(t[k + 1] as int);
       0 <= hi && 0 <= lo && b as int == hi * 16 + lo
  }

  /** The hex form spells each byte as two lower-case digits, the high one first. */
  lemma {:induction false} HexTextSpells(bs: Bytes, i: nat)
    requires i < |bs|
    ensures SpellsByte(HexText(bs), 2 * i, bs[i])
  {
    if i > 0 {
      HexTextSpells(bs[1..], i - 1);
    }
  }

  const PREFIX := "blake3:"

  function HashText(w: World, v: Value): string {
    PREFIX + HexText(w.blake3(Canonicalize(v)))
  }

  /** A hash text is the name of the hash and the 64 digits of the digest of the canonical bytes. */
  lemma {:induction false} HashTextSpells(w: World, v: Value)
    requires Sound(w)
    ensures var t, d := HashText(w, v), w.blake3(Canonicalize(v));
            && |t| == 71 && t[..7] == "blake3:"
            && forall i: nat | i < 32 :: SpellsByte(t, 7 + 2 * i, d[i])
  {
    var t, d := HashText(w, v), w.blake3(Canonicalize(v));
    forall i: nat | i < 32 ensures SpellsByte(t, 7 + 2 * i, d[i]) {
      HexTextSpells(d, i);
      assert t[7 + 2 * i] == HexText(d)[2 * i] && t[8 + 2 * i] == HexText(d)[2 * i + 1];
    }
  }

  // No two of the canonical forms at hand collide under blake3.
  ghost predicate NoCollision(w: World, vs: set<Value>) {
    forall v, u | v in vs && u in vs ::
      w.blake3(Canonicalize(v)) == w.blake3(Canonicalize(u)) ==> Canonicalize(v) == Canonicalize(u)
  }

  // Hash texts agree exactly on values equal up to key order, short of a blake3 collision.
  lemma {:induction false} HashDecidesEquality(w: World, vs: set<Value>, v: Value, u: Value)
    requires WellFormed(v) && WellFormed(u)
    requires v in vs && u in vs && NoCollision(w, vs)
    ensures HashText(w, v) == HashText(w, u) <==> Same(v, u)
  {
    CanonicalDecidesEquality(v, u);
    if HashText(w, v) == HashText(w, u) {
      assert HashText(w, v)[|PREFIX|..] == HexText(w.blake3(Canonicalize(v)));
      assert HashText(w, u)[|PREFIX|..] == HexText(w.blake3(Canonicalize(u)));
      HexTextInjective(w.blake3(Canonicalize(v)), w.blake3(Canonicalize(u)));
    }
  }

  // Values equal up to key order hash alike, whatever the hash function.
  lemma {:induction false} SameHash(w: World, v: Value, u: Value)
    requires WellFormed(v) && WellFormed(u) && Same(v, u)
    ensures HashText(w, v) == HashText(w, u)
  {
    CanonicalDecidesEquality(v, u);
  }
}
