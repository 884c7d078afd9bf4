/** The canonical printer: key-sorted, minimally escaped JSON text (RFC 8785, sections 3.2.2.2 and 3.2.3).

    `Compact` prints a tree in the order it stands; `SortKeys` reorders every object; the canonical form is
    the one after the other. The methods below are the printer itself, which sorts as it goes. */
module Canonical {
  import opened Base
  import opened Json
  import opened Unicode

  // ---- text of each kind of node ----

  const NULL: Bytes := [0x6E, 0x75, 0x6C, 0x6C]
  const TRUE: Bytes := [0x74, 0x72, 0x75, 0x65]
  const FALSE: Bytes := [0x66, 0x61, 0x6C, 0x73, 0x65]
  const QUOTE: Byte := 0x22
  const BACKSLASH: Byte := 0x5C
  const COMMA: Byte := 0x2C
  const COLON: Byte := 0x3A

  function Digits(n: nat): (r: Bytes)
    ensures |r| > 0
    ensures forall i | 0 <= i < |r| :: 0x30 <= r[i] <= 0x39
  {
    if n < 10 then [0x30 + n] else Digits(n / 10) + [0x30 + n % 10]
  }

  function Decimal(n: int): Bytes {
    if n < 0 then [0x2D] + Digits(-n) else Digits(n)
  }

  function Hex(n: int): Byte
    requires 0 <= n < 16
  {
    if n < 10 then 0x30 + n else 0x61 + (n - 10)
  }

  function UEscape(unit: int): Bytes
    requires 0 <= unit < 0x1_0000
  {
    [BACKSLASH, 0x75, Hex(unit / 0x1000 % 16), Hex(unit / 0x100 % 16), Hex(unit / 0x10 % 16), Hex(unit % 16)]
  }

  function Escape(c: char): (r: Bytes)
    ensures |r| > 0
  {
    var n := c as int;
    if n == 0x22 || n == 0x5C then [BACKSLASH, n]
    else if n == 0x08 then [BACKSLASH, 0x62]
    else if n == 0x09 then [BACKSLASH, 0x74]
    else if n == 0x0A then [BACKSLASH, 0x6E]
    else if n == 0x0C then [BACKSLASH, 0x66]
    else if n == 0x0D then [BACKSLASH, 0x72]
    else if n < 0x20 then UEscape(n)
    else Utf8(c)
  }

  function EscapeAll(s: string): Bytes {
    if s == "" then [] else Escape(s[0]) + EscapeAll(s[1..])
  }

  function Quoted(s: string): Bytes {
    [QUOTE] + EscapeAll(s) + [QUOTE]
  }

  function Compact(v: Value): Bytes
    decreases v, 1
  {
    match v
    case Null => NULL
    case Bool(b) => if b then TRUE else FALSE
    case Int(n) => Decimal(n)
    case Float(t) => t
    case String(s) => Quoted(s)
    case Array(items) => [0x5B] + (if items == [] then [] else Compact(items[0]) + CompactTail(items[1..])) + [0x5D]
    case Object(ms) => [0x7B] + (if ms == [] then [] else CompactMember(ms[0]) + CompactMembersTail(ms[1..])) + [0x7D]
  }

  function CompactTail(items: seq<Value>): Bytes
    decreases items, 0
  {
    if items == [] then [] else [COMMA] + Compact(items[0]) + CompactTail(items[1..])
  }

  function CompactMember(m: Member): Bytes
    decreases m, 0
  {
    Quoted(m.key) + [COLON] + Compact(m.val)
  }

  function CompactMembersTail(ms: seq<Member>): Bytes
    decreases ms, 0
  {
    if ms == [] then [] else [COMMA] + CompactMember(ms[0]) + CompactMembersTail(ms[1..])
  }

  // ---- key sorting ----

  function InsertSorted(m: Member, ms: seq<Member>): seq<Member> {
    if ms == [] then [m]
    else if KeyOrder(m.key, ms[0].key) == Greater then [ms[0]] + InsertSorted(m, ms[1..])
    else [m] + ms
  }

  function SortMembers(ms: seq<Member>): seq<Member> {
    if ms == [] then [] else InsertSorted(ms[0], SortMembers(ms[1..]))
  }

  function SortKeys(v: Value): Value
    decreases v, 1
  {
    match v
    case Array(items) => Array(SortKeysAll(items))
    case Object(ms) => Object(SortMembers(SortKeysWithin(ms)))
    case _ => v
  }

  function SortKeysAll(items: seq<Value>): (r: seq<Value>)
    ensures |r| == |items| && forall i | 0 <= i < |items| :: r[i] == SortKeys(items[i])
    decreases items, 0
  {
    if items == [] then [] else [SortKeys(items[0])] + SortKeysAll(items[1..])
  }

  function SortKeysWithin(ms: seq<Member>): (r: seq<Member>)
    ensures |r| == |ms| && forall i | 0 <= i < |ms| :: r[i] == Member(ms[i].key, SortKeys(ms[i].val))
    decreases ms, 0
  {
    if ms == [] then [] else [Member(ms[0].key, SortKeys(ms[0].val))] + SortKeysWithin(ms[1..])
  }

  function Canonicalize(v: Value): Bytes {
    Compact(SortKeys(v))
  }

  ghost predicate StrictlySorted(ms: seq<Member>) {
    forall i, j | 0 <= i < j < |ms| :: KeyOrder(ms[i].key, ms[j].key) == Less
  }

  lemma {:induction false} InsertSortedKeepsMembers(m: Member, ms: seq<Member>)
    ensures multiset(InsertSorted(m, ms)) == multiset{m} + multiset(ms)
  {
    if ms != [] {
      assert ms == [ms[0]] + ms[1..];
      InsertSortedKeepsMembers(m, ms[1..]);
    }
  }

  // Putting a smaller member before a sorted list keeps it sorted.
  lemma {:induction false} SmallestFirst(m: Member, ms: seq<Member>)
    requires StrictlySorted(ms) && forall j | 0 <= j < |ms| :: KeyOrder(m.key, ms[j].key) == Less
    ensures StrictlySorted([m] + ms)
  {}

  lemma {:induction false} BelowAll(m: Member, ms: seq<Member>)
    requires StrictlySorted(ms) && ms != [] && KeyOrder(m.key, ms[0].key) == Less
    ensures forall j | 0 <= j < |ms| :: KeyOrder(m.key, ms[j].key) == Less
  {
    forall j | 0 <= j < |ms| ensures KeyOrder(m.key, ms[j].key) == Less {
      KeyOrderTotal(m.key, ms[0].key, ms[j].key);
    }
  }

  lemma {:induction false} InsertSortedSorted(m: Member, ms: seq<Member>)
    requires StrictlySorted(ms) && forall i | 0 <= i < |ms| :: ms[i].key != m.key
    ensures StrictlySorted(InsertSorted(m, ms))
  {
    if ms != [] {
      KeyOrderTotal(m.key, ms[0].key, m.key);
      if KeyOrder(m.key, ms[0].key) == Greater {
        var rest := InsertSorted(m, ms[1..]);
        InsertSortedSorted(m, ms[1..]);
        InsertSortedKeepsMembers(m, ms[1..]);
        forall j | 0 <= j < |rest| ensures KeyOrder(ms[0].key, rest[j].key) == Less {
          assert rest[j] in multiset(rest);
          assert rest[j] == m || rest[j] in ms[1..];
        }
        SmallestFirst(ms[0], rest);
      } else {
        BelowAll(m, ms);
        SmallestFirst(m, ms);
      }
    }
  }

  // Sorting permutes the members and puts distinct keys in strict UTF-16 order.
  lemma {:induction false} SortMembersSorts(ms: seq<Member>)
    ensures multiset(SortMembers(ms)) == multiset(ms)
    ensures UniqueKeys(ms) ==> StrictlySorted(SortMembers(ms))
  {
    if ms != [] {
      var rest := SortMembers(ms[1..]);
      assert ms == [ms[0]] + ms[1..];
      SortMembersSorts(ms[1..]);
      InsertSortedKeepsMembers(ms[0], rest);
      if UniqueKeys(ms) {
        forall i | 0 <= i < |rest| ensures rest[i].key != ms[0].key {
          assert rest[i] in multiset(rest);
          assert rest[i] in ms[1..];
        }
        InsertSortedSorted(ms[0], rest);
      }
    }
  }

  // A strictly sorted list is determined by its elements, whatever algorithm or input order produced it.
  lemma {:induction false} SortedUnique(s: seq<Member>, t: seq<Member>)
    requires StrictlySorted(s) && StrictlySorted(t)
    requires forall m :: m in s <==> m in t
    ensures s == t
  {
    assert s != [] ==> s[0] in t;
    assert t != [] ==> t[0] in s;
    if s != [] && t != [] {
      KeyOrderTotal(s[0].key, t[0].key, s[0].key);
      assert s[0] == t[0] by {
        var i :| 0 <= i < |t| && t[i] == s[0];
        var j :| 0 <= j < |s| && s[j] == t[0];
      }
      KeyOrderTotal(s[0].key, s[0].key, s[0].key);
      forall m ensures m in s[1..] <==> m in t[1..] {
        if m in s[1..] {
          assert m in s && KeyOrder(s[0].key, m.key) == Less;
        }
        if m in t[1..] {
          assert m in t && KeyOrder(t[0].key, m.key) == Less;
        }
      }
      SortedUnique(s[1..], t[1..]);
      assert s == [s[0]] + s[1..] && t == [t[0]] + t[1..];
    }
  }

  lemma {:induction false} InsertSortedCommutes(m: Member, ms: seq<Member>)
    ensures SortKeysWithin(InsertSorted(m, ms)) ==
            InsertSorted(Member(m.key, SortKeys(m.val)), SortKeysWithin(ms))
  {
    if ms != [] && KeyOrder(m.key, ms[0].key) == Greater {
      InsertSortedCommutes(m, ms[1..]);
      assert ([ms[0]] + InsertSorted(m, ms[1..]))[1..] == InsertSorted(m, ms[1..]);
      assert SortKeysWithin(ms)[1..] == SortKeysWithin(ms[1..]);
    } else {
      assert ([m] + ms)[1..] == ms;
    }
  }

  lemma {:induction false} SortingCommutes(ms: seq<Member>)
    ensures SortKeysWithin(SortMembers(ms)) == SortMembers(SortKeysWithin(ms))
  {
    if ms != [] {
      SortingCommutes(ms[1..]);
      InsertSortedCommutes(ms[0], SortMembers(ms[1..]));
      assert SortKeysWithin(ms)[1..] == SortKeysWithin(ms[1..]);
    }
  }

  // ---- the printer ----

  class Buffer {
    var bytes: Bytes

    constructor ()
      ensures bytes == []
    {
      bytes := [];
    }

    method Push(b: Byte)
      modifies this
      ensures bytes == old(bytes) + [b]
    {
      bytes := bytes + [b];
    }

    method Extend(bs: Bytes)
      modifies this
      ensures bytes == old(bytes) + bs
    {
      bytes := bytes + bs;
    }
  }

  method WriteUEscape(out: Buffer, unit: int)
    requires 0 <= unit < 0x1_0000
    modifies out
    ensures out.bytes == old(out.bytes) + UEscape(unit)
  {
    out.Extend([BACKSLASH, 0x75]);
    out.Push(Hex(unit / 0x1000 % 16));
    out.Push(Hex(unit / 0x100 % 16));
    out.Push(Hex(unit / 0x10 % 16));
    out.Push(Hex(unit % 16));
  }

  method WriteChar(out: Buffer, c: char)
    modifies out
    ensures out.bytes == old(out.bytes) + Escape(c)
  {
    var n := c as int;
    if n == 0x22 { out.Extend([BACKSLASH, 0x22]); }
    else if n == 0x5C { out.Extend([BACKSLASH, 0x5C]); }
    else if n == 0x08 { out.Extend([BACKSLASH, 0x62]); }
    else if n == 0x09 { out.Extend([BACKSLASH, 0x74]); }
    else if n == 0x0A { out.Extend([BACKSLASH, 0x6E]); }
    else if n == 0x0C { out.Extend([BACKSLASH, 0x66]); }
    else if n == 0x0D { out.Extend([BACKSLASH, 0x72]); }
    else if n < 0x20 { WriteUEscape(out, n); }
    else { out.Extend(Utf8(c)); }
  }

  method WriteEscaped(out: Buffer, s: string)
    modifies out
    ensures out.bytes == old(out.bytes) + EscapeAll(s)
  {
    ghost var done: Bytes := [];
    for i := 0 to |s|
      invariant out.bytes == old(out.bytes) + done
      invariant done + EscapeAll(s[i..]) == EscapeAll(s)
    {
      assert s[i..][1..] == s[i + 1..];
      WriteChar(out, s[i]);
      Assoc(old(out.bytes), done, Escape(s[i]));
      Assoc(done, Escape(s[i]), EscapeAll(s[i + 1..]));
      done := done + Escape(s[i]);
    }
  }

  method WriteString(out: Buffer, s: string)
    modifies out
    ensures out.bytes == old(out.bytes) + Quoted(s)
  {
    Enclosed(out.bytes, [QUOTE], EscapeAll(s), [QUOTE]);
    out.Push(QUOTE);
    WriteEscaped(out, s);
    out.Push(QUOTE);
  }

  lemma {:induction false} InsertionPoint(m: Member, entries: seq<Member>, i: nat)
    requires i <= |entries|
    requires forall k | 0 <= k < i :: KeyOrder(m.key, entries[k].key) == Greater
    requires i < |entries| ==> KeyOrder(m.key, entries[i].key) != Greater
    ensures InsertSorted(m, entries) == entries[..i] + ([m] + entries[i..])
  {
    if i > 0 {
      InsertionPoint(m, entries[1..], i - 1);
      assert entries[1..][i - 1..] == entries[i..];
      assert entries[..i] == [entries[0]] + entries[1..][..i - 1];
    }
  }

  method InsertEntry(m: Member, entries: seq<Member>) returns (r: seq<Member>)
    ensures r == InsertSorted(m, entries)
  {
    var i := 0;
    while i < |entries|
      invariant 0 <= i <= |entries|
      invariant forall k | 0 <= k < i :: KeyOrder(m.key, entries[k].key) == Greater
    {
      var ord := Utf16Cmp(m.key, entries[i].key);
      if ord != Greater { break; }
      i := i + 1;
    }
    r := entries[..i] + ([m] + entries[i..]);
    InsertionPoint(m, entries, i);
  }

  // `entries.sort_by`: any stable sort under the comparator gives this list (`SortedUnique`).
  method SortEntries(ms: seq<Member>) returns (entries: seq<Member>)
    ensures entries == SortMembers(ms)
  {
    entries := [];
    for k := |ms| downto 0
      invariant entries == SortMembers(ms[k..])
    {
      assert ms[k..][1..] == ms[k + 1..];
      entries := InsertEntry(ms[k], entries);
    }
  }

  ghost function Separator(i: nat): Bytes {
    if i == 0 then [] else [COMMA]
  }

  // The text of `items[i..]` as it follows the items already written.
  ghost function ItemsFrom(items: seq<Value>, i: nat): Bytes
    requires i <= |items|
    decreases |items| - i
  {
    if i == |items| then [] else (Separator(i) + Compact(items[i])) + ItemsFrom(items, i + 1)
  }

  ghost function MembersFrom(ms: seq<Member>, i: nat): Bytes
    requires i <= |ms|
    decreases |ms| - i
  {
    if i == |ms| then [] else (Separator(i) + CompactMember(ms[i])) + MembersFrom(ms, i + 1)
  }

  lemma {:induction false} ItemsFromIsTail(items: seq<Value>, i: nat)
    requires 0 < i <= |items|
    ensures ItemsFrom(items, i) == CompactTail(items[i..])
    decreases |items| - i
  {
    if i < |items| {
      ItemsFromIsTail(items, i + 1);
      assert items[i..][1..] == items[i + 1..];
    }
  }

  lemma {:induction false} MembersFromIsTail(ms: seq<Member>, i: nat)
    requires 0 < i <= |ms|
    ensures MembersFrom(ms, i) == CompactMembersTail(ms[i..])
    decreases |ms| - i
  {
    if i < |ms| {
      MembersFromIsTail(ms, i + 1);
      assert ms[i..][1..] == ms[i + 1..];
    }
  }

  lemma {:induction false} CompactArray(items: seq<Value>)
    ensures Compact(Array(items)) == [0x5B] + ItemsFrom(items, 0) + [0x5D]
  {
    if items != [] {
      ItemsFromIsTail(items, 1);
    }
  }

  lemma {:induction false} CanonicalArray(items: seq<Value>)
    ensures Canonicalize(Array(items)) == [0x5B] + ItemsFrom(SortKeysAll(items), 0) + [0x5D]
  {
    assert SortKeys(Array(items)) == Array(SortKeysAll(items));
    CompactArray(SortKeysAll(items));
  }

  lemma {:induction false} CompactObject(ms: seq<Member>)
    ensures Compact(Object(ms)) == [0x7B] + MembersFrom(ms, 0) + [0x7D]
  {
    if ms != [] {
      MembersFromIsTail(ms, 1);
    }
  }

  lemma {:induction false} CanonicalObject(ms: seq<Member>)
    ensures Canonicalize(Object(ms)) == [0x7B] + MembersFrom(SortKeysWithin(SortMembers(ms)), 0) + [0x7D]
  {
    SortingCommutes(ms);
    var sorted := SortKeysWithin(SortMembers(ms));
    assert SortKeys(Object(ms)) == Object(sorted);
    CompactObject(sorted);
  }

  lemma {:induction false} Appended<T>(start: seq<T>, done: seq<T>, sep: seq<T>, text: seq<T>)
    ensures ((start + done) + sep) + text == start + (done + (sep + text))
  {}

  method WriteSeparator(out: Buffer, i: nat)
    modifies out
    ensures out.bytes == old(out.bytes) + Separator(i)
  {
    if i > 0 {
      out.Push(COMMA);
    }
  }

  method WriteArray(out: Buffer, items: seq<Value>)
    modifies out
    ensures out.bytes == old(out.bytes) + Canonicalize(Array(items))
    decreases items, 1
  {
    CanonicalArray(items);
    out.Push(0x5B);
    WriteItems(out, items);
    Enclosed(old(out.bytes), [0x5B], ItemsFrom(SortKeysAll(items), 0), [0x5D]);
    out.Push(0x5D);
  }

  method WriteItems(out: Buffer, items: seq<Value>)
    modifies out
    ensures out.bytes == old(out.bytes) + ItemsFrom(SortKeysAll(items), 0)
    decreases items, 0
  {
    ghost var sorted := SortKeysAll(items);
    ghost var start, done: Bytes := out.bytes, [];
    for i := 0 to |items|
      invariant out.bytes == start + done
      invariant done + ItemsFrom(sorted, i) == ItemsFrom(sorted, 0)
    {
      ghost var item := Separator(i) + Compact(sorted[i]);
      WriteSeparator(out, i);
      WriteValue(out, items[i]);
      Appended(start, done, Separator(i), Compact(sorted[i]));
      Assoc(done, item, ItemsFrom(sorted, i + 1));
      done := done + item;
    }
  }

  method WriteObject(out: Buffer, ms: seq<Member>)
    modifies out
    ensures out.bytes == old(out.bytes) + Canonicalize(Object(ms))
    decreases ms, 1
  {
    var entries := SortEntries(ms);
    forall i | 0 <= i < |entries| ensures entries[i] in ms {
      SortMembersSorts(ms);
      assert entries[i] in multiset(entries);
    }
    CanonicalObject(ms);
    out.Push(0x7B);
    WriteEntries(out, entries, ms);
    Enclosed(old(out.bytes), [0x7B], MembersFrom(SortKeysWithin(entries), 0), [0x7D]);
    out.Push(0x7D);
  }

  method WriteEntries(out: Buffer, entries: seq<Member>, ghost ms: seq<Member>)
    requires forall i | 0 <= i < |entries| :: entries[i] in ms
    modifies out
    ensures out.bytes == old(out.bytes) + MembersFrom(SortKeysWithin(entries), 0)
    decreases ms, 0
  {
    ghost var sorted := SortKeysWithin(entries);
    ghost var start, done: Bytes := out.bytes, [];
    for i := 0 to |entries|
      invariant out.bytes == start + done
      invariant done + MembersFrom(sorted, i) == MembersFrom(sorted, 0)
    {
      ghost var item := Separator(i) + CompactMember(sorted[i]);
      WriteSeparator(out, i);
      WriteMember(out, entries[i]);
      Appended(start, done, Separator(i), CompactMember(sorted[i]));
      Assoc(done, item, MembersFrom(sorted, i + 1));
      done := done + item;
    }
  }

  method WriteMember(out: Buffer, m: Member)
    modifies out
    ensures out.bytes == old(out.bytes) + CompactMember(Member(m.key, SortKeys(m.val)))
    decreases m, 0
  {
    WriteString(out, m.key);
    out.Push(COLON);
    WriteValue(out, m.val);
  }

  method WriteValue(out: Buffer, v: Value)
    modifies out
    ensures out.bytes == old(out.bytes) + Canonicalize(v)
    decreases v, 1
  {
    match v
    case Null => out.Extend(NULL);
    case Bool(b) => out.Extend(if b then TRUE else FALSE);
    case Int(n) => out.Extend(Decimal(n));
    case Float(t) => out.Extend(t);
    case String(s) => WriteString(out, s);
    case Array(items) => WriteArray(out, items);
    case Object(ms) => WriteObject(out, ms);
  }

  method CanonicalBytes(v: Value) returns (bytes: Bytes)
    ensures bytes == Canonicalize(v)
  {
    var out := new Buffer();
    WriteValue(out, v);
    bytes := out.bytes;
  }
}
