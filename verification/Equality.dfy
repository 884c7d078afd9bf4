/** What the canonical form decides: two values have the same canonical bytes exactly when they are equal up
    to the order of object keys, at every depth. */
module Equality {
  import opened Base
  import opened Json
  import opened Unicode
  import opened Canonical
  import opened Decoder

  lemma {:induction false} SortedMembersOf(ms: seq<Member>)
    requires UniqueKeys(ms)
    ensures UniqueKeys(SortKeysWithin(ms))
    ensures StrictlySorted(SortMembers(SortKeysWithin(ms)))
    ensures forall m :: m in SortMembers(SortKeysWithin(ms)) <==> m in SortKeysWithin(ms)
  {
    var s := SortKeysWithin(ms);
    SortMembersSorts(s);
    forall m ensures m in SortMembers(s) <==> m in s {
      assert m in multiset(SortMembers(s)) <==> m in multiset(s);
    }
  }

  lemma {:induction false} StrictlySortedUnique(ms: seq<Member>)
    requires StrictlySorted(ms)
    ensures UniqueKeys(ms)
  {
    forall i, j | 0 <= i < j < |ms| ensures ms[i].key != ms[j].key {
      KeyOrderTotal(ms[i].key, ms[j].key, ms[i].key);
    }
  }

  lemma {:induction false} SortKeysWellFormed(v: Value)
    requires WellFormed(v)
    ensures WellFormed(SortKeys(v))
  {
    match v
    case Array(items) =>
      forall i | 0 <= i < |items| ensures WellFormed(SortKeysAll(items)[i]) {
        SortKeysWellFormed(items[i]);
      }
    case Object(ms) =>
      SortedMembersOf(ms);
      var sorted := SortMembers(SortKeysWithin(ms));
      StrictlySortedUnique(sorted);
      forall i | 0 <= i < |sorted| ensures WellFormed(sorted[i].val) {
        assert sorted[i] in SortKeysWithin(ms);
        var j :| 0 <= j < |ms| && SortKeysWithin(ms)[j] == sorted[i];
        SortKeysWellFormed(ms[j].val);
      }
    case _ =>
  }

  // Objects equal as maps, member by member after sorting, have the same sorted members.
  lemma {:induction false} SameMembersSortAlike(m: seq<Member>, n: seq<Member>)
    requires UniqueKeys(m) && UniqueKeys(n) && Keys(m) == Keys(n)
    requires forall i | 0 <= i < |m| ::
               Get(n, m[i].key).Some? && SortKeys(m[i].val) == SortKeys(Get(n, m[i].key).value)
    ensures SortMembers(SortKeysWithin(m)) == SortMembers(SortKeysWithin(n))
  {
    var s, t := SortKeysWithin(m), SortKeysWithin(n);
    forall x ensures x in s <==> x in t {
      if x in s {
        var i :| 0 <= i < |s| && s[i] == x;
        var v := Get(n, m[i].key).value;
        var j :| 0 <= j < |n| && n[j] == Member(m[i].key, v);
        assert t[j] == x;
      }
      if x in t {
        var j :| 0 <= j < |t| && t[j] == x;
        assert n[j].key in Keys(n);
        var i :| 0 <= i < |m| && m[i].key == n[j].key;
        GetAt(n, j);
        assert s[i] == x;
      }
    }
    SortedMembersOf(m);
    SortedMembersOf(n);
    SortedUnique(SortMembers(s), SortMembers(t));
  }

  lemma {:induction false} SortAlikeMembersMatch(m: seq<Member>, n: seq<Member>, i: nat)
    requires UniqueKeys(m) && UniqueKeys(n) && i < |m|
    requires SortMembers(SortKeysWithin(m)) == SortMembers(SortKeysWithin(n))
    ensures Get(n, m[i].key).Some? && SortKeys(m[i].val) == SortKeys(Get(n, m[i].key).value)
    ensures exists j | 0 <= j < |n| :: n[j] == Member(m[i].key, Get(n, m[i].key).value)
  {
    var s, t := SortKeysWithin(m), SortKeysWithin(n);
    SortedMembersOf(m);
    SortedMembersOf(n);
    assert s[i] in s;
    assert s[i] in t;
    var j :| 0 <= j < |t| && t[j] == s[i];
    GetAt(n, j);
  }

  // Map equality at every depth is equality after sorting, so it is an equivalence relation.
  lemma {:induction false} SameIffSortAlike(v: Value, w: Value)
    requires WellFormed(v) && WellFormed(w)
    ensures Same(v, w) <==> SortKeys(v) == SortKeys(w)
    decreases v, 1
  {
    match v
    case Array(a) => if w.Array? { ArraysSameIffSortAlike(a, w.items); }
    case Object(m) => if w.Object? { ObjectsSameIffSortAlike(m, w.members); }
    case _ =>
  }

  lemma {:induction false} ArraysSameIffSortAlike(a: seq<Value>, b: seq<Value>)
    requires WellFormed(Array(a)) && WellFormed(Array(b))
    ensures Same(Array(a), Array(b)) <==> SortKeysAll(a) == SortKeysAll(b)
    decreases a, 0
  {
    forall i | 0 <= i < |a| && i < |b| ensures Same(a[i], b[i]) <==> SortKeys(a[i]) == SortKeys(b[i]) {
      SameIffSortAlike(a[i], b[i]);
    }
    if SortKeysAll(a) == SortKeysAll(b) {
      assert forall i | 0 <= i < |a| :: SortKeysAll(a)[i] == SortKeysAll(b)[i];
    }
  }

  lemma {:induction false} ObjectsSameIffSortAlike(m: seq<Member>, n: seq<Member>)
    requires WellFormed(Object(m)) && WellFormed(Object(n))
    ensures Same(Object(m), Object(n)) <==> SortKeys(Object(m)) == SortKeys(Object(n))
    decreases m, 0
  {
    forall i | 0 <= i < |m| && Get(n, m[i].key).Some?
      ensures Same(m[i].val, Get(n, m[i].key).value) <==> SortKeys(m[i].val) == SortKeys(Get(n, m[i].key).value)
    {
      var j :| 0 <= j < |n| && n[j] == Member(m[i].key, Get(n, m[i].key).value);
      SameIffSortAlike(m[i].val, n[j].val);
    }
    if Same(Object(m), Object(n)) {
      SameMembersSortAlike(m, n);
    }
    if SortKeys(Object(m)) == SortKeys(Object(n)) {
      forall i | 0 <= i < |m|
        ensures Get(n, m[i].key).Some? && m[i].key in Keys(n) && SortKeys(m[i].val) == SortKeys(Get(n, m[i].key).value)
      {
        SortAlikeMembersMatch(m, n, i);
      }
      forall j | 0 <= j < |n| ensures n[j].key in Keys(m) {
        SortAlikeMembersMatch(n, m, j);
      }
      assert Keys(m) == Keys(n);
    }
  }

  /** The law the hashes rest on: canonical bytes are equal iff the values are equal up to key order. */
  lemma {:induction false} CanonicalDecidesEquality(v: Value, w: Value)
    requires WellFormed(v) && WellFormed(w)
    ensures Canonicalize(v) == Canonicalize(w) <==> Same(v, w)
  {
    SameIffSortAlike(v, w);
    SortKeysWellFormed(v);
    SortKeysWellFormed(w);
    DecodeCompact(SortKeys(v));
    DecodeCompact(SortKeys(w));
  }

  lemma {:induction false} SortKeysIdempotent(v: Value)
    requires WellFormed(v)
    ensures SortKeys(SortKeys(v)) == SortKeys(v)
  {
    match v
    case Array(items) =>
      forall i | 0 <= i < |items| ensures SortKeys(SortKeys(items[i])) == SortKeys(items[i]) {
        SortKeysIdempotent(items[i]);
      }
      assert SortKeysAll(SortKeysAll(items)) == SortKeysAll(items);
    case Object(ms) =>
      var s := SortKeysWithin(ms);
      forall i | 0 <= i < |ms| ensures SortKeys(SortKeys(ms[i].val)) == SortKeys(ms[i].val) {
        SortKeysIdempotent(ms[i].val);
      }
      assert SortKeysWithin(s) == s;
      SortingCommutes(s);
      SortedMembersOf(ms);
      SortMembersSorts(SortMembers(s));
      StrictlySortedUnique(SortMembers(s));
      forall m ensures m in SortMembers(SortMembers(s)) <==> m in SortMembers(s) {
        assert m in multiset(SortMembers(SortMembers(s))) <==> m in multiset(SortMembers(s));
      }
      SortedUnique(SortMembers(SortMembers(s)), SortMembers(s));
    case _ =>
  }

  // Keys are in strict UTF-16 order in every object, at every depth.
  ghost predicate SortedDeep(v: Value) {
    match v
    case Array(items) => forall i | 0 <= i < |items| :: SortedDeep(items[i])
    case Object(ms) => StrictlySorted(ms) && forall i | 0 <= i < |ms| :: SortedDeep(ms[i].val)
    case _ => true
  }

  lemma {:induction false} SortKeysSortsDeep(v: Value)
    requires WellFormed(v)
    ensures SortedDeep(SortKeys(v))
  {
    match v
    case Array(items) =>
      forall i | 0 <= i < |items| ensures SortedDeep(SortKeysAll(items)[i]) {
        SortKeysSortsDeep(items[i]);
      }
    case Object(ms) =>
      SortedMembersOf(ms);
      var sorted := SortMembers(SortKeysWithin(ms));
      forall i | 0 <= i < |sorted| ensures SortedDeep(sorted[i].val) {
        assert sorted[i] in SortKeysWithin(ms);
        var j :| 0 <= j < |ms| && SortKeysWithin(ms)[j] == sorted[i];
        SortKeysSortsDeep(ms[j].val);
      }
    case _ =>
  }

  /** Reading canonical bytes back gives the same value up to key order, and printing that again changes
      nothing: the canonical form is a fixed point. */
  lemma {:induction false} CanonicalFixedPoint(v: Value)
    requires WellFormed(v)
    ensures Decode(Canonicalize(v)) == Some(SortKeys(v))
    ensures WellFormed(SortKeys(v)) && SortedDeep(SortKeys(v)) && Same(v, SortKeys(v))
    ensures Canonicalize(SortKeys(v)) == Canonicalize(v)
  {
    SortKeysWellFormed(v);
    DecodeCompact(SortKeys(v));
    SortKeysIdempotent(v);
    SortKeysSortsDeep(v);
    SameIffSortAlike(v, SortKeys(v));
  }

  // ---- printed text is a legal line ----

  predicate Printable(bs: Bytes) {
    forall i | 0 <= i < |bs| :: bs[i] >= 0x20
  }

  lemma {:induction false} QuotedPrintable(s: string)
    ensures Printable(EscapeAll(s)) && Printable(Quoted(s))
  {
    if s != "" {
      QuotedPrintable(s[1..]);
      assert Printable(Escape(s[0]));
    }
  }

  lemma {:induction false} CompactPrintable(v: Value)
    requires WellFormed(v)
    ensures Printable(Compact(v))
    decreases v, 1
  {
    match v
    case String(s) => QuotedPrintable(s);
    case Array(items) =>
      if items != [] {
        CompactPrintable(items[0]);
        TailPrintable(items[1..]);
        EnclosedPrintable(0x5B, Compact(items[0]), CompactTail(items[1..]), 0x5D);
      }
    case Object(ms) =>
      if ms != [] {
        MemberPrintable(ms[0]);
        MembersTailPrintable(ms[1..]);
        EnclosedPrintable(0x7B, CompactMember(ms[0]), CompactMembersTail(ms[1..]), 0x7D);
      }
    case _ =>
  }

  lemma {:induction false} EnclosedPrintable(l: Byte, a: Bytes, b: Bytes, r: Byte)
    requires l >= 0x20 && r >= 0x20 && Printable(a) && Printable(b)
    ensures Printable([l] + (a + b) + [r])
  {}

  lemma {:induction false} MemberPrintable(m: Member)
    requires WellFormed(m.val)
    ensures Printable(CompactMember(m))
    decreases m, 0
  {
    QuotedPrintable(m.key);
    CompactPrintable(m.val);
  }

  lemma {:induction false} TailPrintable(items: seq<Value>)
    requires forall i | 0 <= i < |items| :: WellFormed(items[i])
    ensures Printable(CompactTail(items))
    decreases items, 0
  {
    if items != [] {
      CompactPrintable(items[0]);
      TailPrintable(items[1..]);
    }
  }

  lemma {:induction false} MembersTailPrintable(ms: seq<Member>)
    requires forall i | 0 <= i < |ms| :: WellFormed(ms[i].val)
    ensures Printable(CompactMembersTail(ms))
    decreases ms, 0
  {
    if ms != [] {
      MemberPrintable(ms[0]);
      MembersTailPrintable(ms[1..]);
    }
  }

  // No byte below 0x20 is ever printed; in particular no line feed.
  lemma {:induction false} CanonicalPrintable(v: Value)
    requires WellFormed(v)
    ensures Printable(Canonicalize(v)) && LF !in Canonicalize(v)
    ensures Printable(Compact(v)) && LF !in Compact(v)
  {
    SortKeysWellFormed(v);
    CompactPrintable(SortKeys(v));
    CompactPrintable(v);
  }
}
