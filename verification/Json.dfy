/** JSON trees as `serde_json` hands them over with `preserve_order` on: an object is a sequence of
    members in insertion order, with unique keys. */
module Json {
  import opened Base

  datatype Member = Member(key: string, val: Value)

  // A non-integer number is represented by the text `serde_json` prints for it.
  datatype Value =
    | Null
    | Bool(b: bool)
    | Int(n: int)
    | Float(text: Bytes)
    | String(s: string)
    | Array(items: seq<Value>)
    | Object(members: seq<Member>)

  predicate NumberByte(b: Byte) {
    0x30 <= b <= 0x39 || b == 0x2B || b == 0x2D || b == 0x2E || b == 0x45 || b == 0x65
  }

  // Float texts start like a number and hold a '.' or an 'e', which no integer text does.
  predicate FloatText(t: Bytes) {
    && |t| > 0
    && (0x30 <= t[0] <= 0x39 || t[0] == 0x2D)
    && (forall i | 0 <= i < |t| :: NumberByte(t[i]))
    && (0x2E in t || 0x65 in t)
  }

  predicate UniqueKeys(ms: seq<Member>) {
    forall i, j | 0 <= i < j < |ms| :: ms[i].key != ms[j].key
  }

  predicate WellFormed(v: Value) {
    match v
    case Int(n) => -0x8000_0000_0000_0000 <= n < 0x1_0000_0000_0000_0000
    case Float(t) => FloatText(t)
    case Array(items) => forall i | 0 <= i < |items| :: WellFormed(items[i])
    case Object(ms) => UniqueKeys(ms) && forall i | 0 <= i < |ms| :: WellFormed(ms[i].val)
    case _ => true
  }

  predicate WellFormedMembers(ms: seq<Member>) {
    UniqueKeys(ms) && forall i | 0 <= i < |ms| :: WellFormed(ms[i].val)
  }

  function Get(ms: seq<Member>, key: string): (r: Option<Value>)
    ensures r.Some? ==> exists i | 0 <= i < |ms| :: ms[i] == Member(key, r.value)
    ensures r.None? ==> forall i | 0 <= i < |ms| :: ms[i].key != key
  {
    if ms == [] then None
    else if ms[0].key == key then Some(ms[0].val)
    else
      assert forall i | 0 < i < |ms| :: ms[i] == ms[1..][i - 1];
      Get(ms[1..], key)
  }

  // `Map::insert`: an existing member keeps its place, a new one goes last.
  function Insert(ms: seq<Member>, key: string, val: Value): seq<Member> {
    if ms == [] then [Member(key, val)]
    else if ms[0].key == key then [Member(key, val)] + ms[1..]
    else [ms[0]] + Insert(ms[1..], key, val)
  }

  ghost function Keys(ms: seq<Member>): set<string> {
    set i | 0 <= i < |ms| :: ms[i].key
  }

  // Equality of JSON values when objects are read as finite maps, at every depth.
  ghost predicate Same(v: Value, w: Value) {
    match v
    case Array(a) =>
      w.Array? && |a| == |w.items| && forall i | 0 <= i < |a| :: Same(a[i], w.items[i])
    case Object(m) =>
      w.Object? && Keys(m) == Keys(w.members) &&
      forall i | 0 <= i < |m| ::
        Get(w.members, m[i].key).Some? && Same(m[i].val, Get(w.members, m[i].key).value)
    case _ => v == w
  }

  lemma {:induction false} GetAt(ms: seq<Member>, i: nat)
    requires UniqueKeys(ms) && i < |ms|
    ensures Get(ms, ms[i].key) == Some(ms[i].val)
  {
    var r := Get(ms, ms[i].key);
    if r.Some? {
      var j :| 0 <= j < |ms| && ms[j] == Member(ms[i].key, r.value);
    }
  }
}
