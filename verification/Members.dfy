/** How inserting, replacing and dropping one member of an object relate to reading it. */
module Members {
  import opened Base
  import opened Json
  import opened Equality
  import opened Wire

  lemma {:induction false} InsertGet(ms: seq<Member>, key: string, val: Value, other: string)
    ensures Get(Insert(ms, key, val), other) == if other == key then Some(val) else Get(ms, other)
  {
    var r := Insert(ms, key, val);
    if ms == [] {
      assert r[1..] == [];
    } else if ms[0].key == key {
      assert r[1..] == ms[1..];
    } else {
      assert r[1..] == Insert(ms[1..], key, val);
      InsertGet(ms[1..], key, val, other);
    }
  }

  lemma {:induction false} InsertKeys(ms: seq<Member>, key: string, val: Value)
    ensures Keys(Insert(ms, key, val)) == Keys(ms) + {key}
  {
    forall k ensures k in Keys(Insert(ms, key, val)) <==> k in Keys(ms) + {key} {
      InsertGet(ms, key, val, k);
      GetSomeIffKey(Insert(ms, key, val), k);
      GetSomeIffKey(ms, k);
    }
  }

  lemma {:induction false} InsertWellFormed(ms: seq<Member>, key: string, val: Value)
    requires WellFormedMembers(ms) && WellFormed(val)
    ensures WellFormedMembers(Insert(ms, key, val))
  {
    var r := Insert(ms, key, val);
    if ms != [] {
      forall i | 0 <= i < |ms[1..]| ensures ms[1..][i] == ms[i + 1] {}
      if ms[0].key == key {
        forall i | 0 <= i < |r| ensures WellFormed(r[i].val) && r[i].key == ms[i].key {}
      } else {
        assert r[1..] == Insert(ms[1..], key, val);
        InsertWellFormed(ms[1..], key, val);
        InsertKeys(ms[1..], key, val);
        UniqueCons(r);
        forall i | 0 <= i < |r| ensures WellFormed(r[i].val) {
          assert i > 0 ==> r[i] == r[1..][i - 1];
        }
      }
    }
  }

  lemma {:induction false} KeysCons(ms: seq<Member>)
    requires ms != []
    ensures Keys(ms) == {ms[0].key} + Keys(ms[1..])
  {
    assert ms[0].key in Keys(ms);
    forall k ensures k in Keys(ms) <==> k in {ms[0].key} + Keys(ms[1..]) {
      if k in Keys(ms) {
        var i :| 0 <= i < |ms| && ms[i].key == k;
        assert i > 0 ==> ms[1..][i - 1].key == k;
      }
      if k in Keys(ms[1..]) {
        var i :| 0 <= i < |ms[1..]| && ms[1..][i].key == k;
        assert ms[i + 1].key == k;
      }
    }
  }

  lemma {:induction false} UniqueCons(ms: seq<Member>)
    requires ms != [] && UniqueKeys(ms[1..]) && ms[0].key !in Keys(ms[1..])
    ensures UniqueKeys(ms)
  {
    forall i, j | 0 <= i < j < |ms| ensures ms[i].key != ms[j].key {
      assert ms[j] == ms[1..][j - 1];
      assert ms[1..][j - 1].key in Keys(ms[1..]);
      assert i > 0 ==> ms[i] == ms[1..][i - 1];
    }
  }

  lemma {:induction false} GetSomeIffKey(ms: seq<Member>, key: string)
    ensures Get(ms, key).Some? <==> key in Keys(ms)
  {
    if Get(ms, key).Some? {
      var i :| 0 <= i < |ms| && ms[i] == Member(key, Get(ms, key).value);
    }
  }

  // Writing a member back as it was changes nothing.
  lemma {:induction false} InsertOwn(ms: seq<Member>, key: string, val: Value)
    requires Get(ms, key) == Some(val)
    ensures Insert(ms, key, val) == ms
  {
    assert ms == [ms[0]] + ms[1..];
    if ms[0].key != key {
      InsertOwn(ms[1..], key, val);
    }
  }

  /** An existing member is replaced where it stands; a new one goes last; all else stays in place. */
  lemma {:induction false} InsertInPlace(ms: seq<Member>, key: string, val: Value)
    ensures var r := Insert(ms, key, val);
            if key in Keys(ms) then
              |r| == |ms| && forall i | 0 <= i < |ms| :: r[i].key == ms[i].key && (ms[i].key != key ==> r[i] == ms[i])
            else r == ms + [Member(key, val)]
  {
    if ms != [] {
      var r, tail := Insert(ms, key, val), Insert(ms[1..], key, val);
      assert ms == [ms[0]] + ms[1..];
      if ms[0].key != key {
        InsertInPlace(ms[1..], key, val);
        KeysCons(ms);
        assert r == [ms[0]] + tail;
      } else {
        assert r == [Member(key, val)] + ms[1..];
        assert ms[0].key in Keys(ms);
      }
    }
  }

  // An object without one of its members.
  function Without(ms: seq<Member>, key: string): seq<Member> {
    if ms == [] then []
    else if ms[0].key == key then Without(ms[1..], key)
    else [ms[0]] + Without(ms[1..], key)
  }

  lemma {:induction false} WithoutFacts(ms: seq<Member>, key: string)
    requires WellFormedMembers(ms)
    ensures WellFormedMembers(Without(ms, key))
    ensures Get(Without(ms, key), key) == None
    ensures forall other | other != key :: Get(Without(ms, key), other) == Get(ms, other)
    ensures Keys(Without(ms, key)) == Keys(ms) - {key}
  {
    if ms != [] {
      var r := Without(ms, key);
      forall i | 0 <= i < |ms[1..]| ensures ms[1..][i] == ms[i + 1] {}
      WithoutFacts(ms[1..], key);
      KeysCons(ms);
      if ms[0].key != key {
        assert r[1..] == Without(ms[1..], key);
        KeysCons(r);
        assert ms[0].key !in Keys(ms[1..]);
        UniqueCons(r);
      } else {
        assert key !in Keys(ms[1..]);
      }
    }
  }

  // Objects are the same exactly when they have the same keys and the same value at each.
  ghost predicate Agree(m: seq<Member>, n: seq<Member>, key: string) {
    && Get(m, key).Some? == Get(n, key).Some?
    && (Get(m, key).Some? ==> Same(Get(m, key).value, Get(n, key).value))
  }

  lemma {:induction false} SameIffAgree(m: seq<Member>, n: seq<Member>)
    requires UniqueKeys(m) && UniqueKeys(n)
    ensures Same(Object(m), Object(n)) <==> forall key :: Agree(m, n, key)
  {
    if Same(Object(m), Object(n)) {
      forall key ensures Agree(m, n, key) {
        SameGet(m, n, key);
      }
    }
    if forall key :: Agree(m, n, key) {
      forall key ensures key in Keys(m) <==> key in Keys(n) {
        GetSomeIffKey(m, key);
        GetSomeIffKey(n, key);
        assert Agree(m, n, key);
      }
      forall i | 0 <= i < |m|
        ensures Get(n, m[i].key).Some? && Same(m[i].val, Get(n, m[i].key).value)
      {
        GetAt(m, i);
        assert Agree(m, n, m[i].key);
      }
    }
  }

  // Giving both of two equal objects the same member keeps them equal.
  lemma {:induction false} SameAfterInsert(m: seq<Member>, n: seq<Member>, key: string, val: Value)
    requires WellFormedMembers(m) && WellFormedMembers(n) && WellFormed(val) && Same(Object(m), Object(n))
    ensures Same(Object(Insert(m, key, val)), Object(Insert(n, key, val)))
  {
    InsertWellFormed(m, key, val);
    InsertWellFormed(n, key, val);
    SameIffAgree(m, n);
    SameIffSortAlike(val, val);
    forall other ensures Agree(Insert(m, key, val), Insert(n, key, val), other) {
      InsertGet(m, key, val, other);
      InsertGet(n, key, val, other);
      assert Agree(m, n, other);
    }
    SameIffAgree(Insert(m, key, val), Insert(n, key, val));
  }
}
