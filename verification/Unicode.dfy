/** The UTF-8 and UTF-16 encodings of Unicode scalar values (Dafny's `char`), and the UTF-16 key order. */
module Unicode {
  import opened Base

  function Utf8(c: char): (r: Bytes)
    ensures 1 <= |r| <= 4
  {
    var n := c as int;
    if n < 0x80 then [n]
    else if n < 0x800 then [0xC0 + n / 0x40, 0x80 + n % 0x40]
    else if n < 0x1_0000 then [0xE0 + n / 0x1000, 0x80 + n / 0x40 % 0x40, 0x80 + n % 0x40]
    else [0xF0 + n / 0x4_0000, 0x80 + n / 0x1000 % 0x40, 0x80 + n / 0x40 % 0x40, 0x80 + n % 0x40]
  }

  // `EncodeUtf16`: one code unit, or a surrogate pair (RFC 2781, section 2.1).
  function Units(c: char): (r: seq<int>)
    ensures 1 <= |r| <= 2
  {
    var n := c as int;
    if n < 0x1_0000 then [n]
    else [0xD800 + (n - 0x1_0000) / 0x400, 0xDC00 + (n - 0x1_0000) % 0x400]
  }

  /** One unit outside the surrogate range is the scalar value; otherwise a high and a low surrogate carry its ten
      upper and ten lower bits. */
  lemma {:induction false} UnitsSpell(c: char)
    ensures var u := Units(c);
            && (|u| == 1 ==> u[0] == c as int && !(0xD800 <= u[0] < 0xE000))
            && (|u| == 2 ==> && 0xD800 <= u[0] < 0xDC00 && 0xDC00 <= u[1] < 0xE000
                             && c as int == 0x1_0000 + (u[0] - 0xD800) * 0x400 + (u[1] - 0xDC00))
  {}

  function Utf16(s: string): seq<int> {
    if s == "" then [] else Units(s[0]) + Utf16(s[1..])
  }

  datatype Ordering = Less | Equal | Greater

  function Flip(o: Ordering): Ordering {
    match o case Less => Greater case Equal => Equal case Greater => Less
  }

  function LexCmp(a: seq<int>, b: seq<int>): Ordering {
    if a == [] then (if b == [] then Equal else Less)
    else if b == [] then Greater
    else if a[0] < b[0] then Less
    else if a[0] > b[0] then Greater
    else LexCmp(a[1..], b[1..])
  }

  function KeyOrder(a: string, b: string): Ordering {
    LexCmp(Utf16(a), Utf16(b))
  }

  lemma {:induction false} LexCmpFlip(a: seq<int>, b: seq<int>)
    ensures LexCmp(b, a) == Flip(LexCmp(a, b))
    ensures LexCmp(a, b) == Equal <==> a == b
  {
    if a != [] && b != [] {
      LexCmpFlip(a[1..], b[1..]);
      assert a == [a[0]] + a[1..] && b == [b[0]] + b[1..];
    }
  }

  lemma {:induction false} LexCmpTransitive(a: seq<int>, b: seq<int>, c: seq<int>)
    requires LexCmp(a, b) == Less && LexCmp(b, c) == Less
    ensures LexCmp(a, c) == Less
  {
    if a != [] && b != [] && c != [] && a[0] == b[0] == c[0] {
      LexCmpTransitive(a[1..], b[1..], c[1..]);
    }
  }

  lemma {:induction false} UnitsUnambiguous(c: char, d: char, x: seq<int>, y: seq<int>)
    requires Units(c) + x == Units(d) + y
    ensures c == d && x == y
  {
    var l, r := Units(c) + x, Units(d) + y;
    assert l[0] == Units(c)[0] && r[0] == Units(d)[0];
    if |Units(c)| == 2 && |Units(d)| == 2 {
      assert l[1] == Units(c)[1] && r[1] == Units(d)[1];
    }
    assert |Units(c)| == |Units(d)|;
    assert x == l[|Units(c)|..] && y == r[|Units(d)|..];
  }

  lemma {:induction false} Utf16Injective(s: string, t: string)
    requires Utf16(s) == Utf16(t)
    ensures s == t
  {
    if s == "" || t == "" {
    } else {
      UnitsUnambiguous(s[0], t[0], Utf16(s[1..]), Utf16(t[1..]));
      Utf16Injective(s[1..], t[1..]);
      assert s == [s[0]] + s[1..] && t == [t[0]] + t[1..];
    }
  }

  // The key order is a total order on strings, and calls only identical strings equal.
  lemma {:induction false} KeyOrderTotal(a: string, b: string, c: string)
    ensures KeyOrder(b, a) == Flip(KeyOrder(a, b))
    ensures KeyOrder(a, b) == Equal <==> a == b
    ensures KeyOrder(a, b) == Less && KeyOrder(b, c) == Less ==> KeyOrder(a, c) == Less
  {
    LexCmpFlip(Utf16(a), Utf16(b));
    if KeyOrder(a, b) == Equal {
      Utf16Injective(a, b);
    }
    if KeyOrder(a, b) == Less && KeyOrder(b, c) == Less {
      LexCmpTransitive(Utf16(a), Utf16(b), Utf16(c));
    }
  }

  // Where a scalar value sorts: supplementary characters come before U+E000, everything else by value.
  function Rank(c: char): int {
    var n := c as int;
    if n < 0xD800 then n else if n >= 0x1_0000 then n - 0x1_0000 + 0xD800 else n + 0x10_0000
  }

  function RankOrder(a: string, b: string): Ordering {
    if a == "" then (if b == "" then Equal else Less)
    else if b == "" then Greater
    else if Rank(a[0]) < Rank(b[0]) then Less
    else if Rank(a[0]) > Rank(b[0]) then Greater
    else RankOrder(a[1..], b[1..])
  }

  lemma {:induction false} LexCmpCommonPrefix(p: seq<int>, x: seq<int>, y: seq<int>)
    ensures LexCmp(p + x, p + y) == LexCmp(x, y)
  {
    if p == [] {
      assert p + x == x && p + y == y;
    } else {
      assert (p + x)[1..] == p[1..] + x && (p + y)[1..] == p[1..] + y;
      LexCmpCommonPrefix(p[1..], x, y);
    }
  }

  lemma {:induction false} UnitsByRank(c: char, d: char, x: seq<int>, y: seq<int>)
    requires Rank(c) < Rank(d)
    ensures LexCmp(Units(c) + x, Units(d) + y) == Less
  {
    var l, r := Units(c) + x, Units(d) + y;
    assert l[0] == Units(c)[0] && r[0] == Units(d)[0];
    if l[0] == r[0] {
      assert |Units(c)| == 2 && |Units(d)| == 2;
      assert l[1] == Units(c)[1] && r[1] == Units(d)[1];
      assert l[1..][0] == l[1] && r[1..][0] == r[1];
    }
  }

  /** UTF-16 order told by scalar values alone: characters compare by value, except that supplementary ones
      sort before U+E000. */
  lemma {:induction false} KeyOrderByScalars(a: string, b: string)
    ensures KeyOrder(a, b) == RankOrder(a, b)
  {
    if a != "" && b != "" {
      var x, y := Utf16(a[1..]), Utf16(b[1..]);
      if Rank(a[0]) < Rank(b[0]) {
        UnitsByRank(a[0], b[0], x, y);
      } else if Rank(a[0]) > Rank(b[0]) {
        UnitsByRank(b[0], a[0], y, x);
        LexCmpFlip(Utf16(b), Utf16(a));
      } else {
        assert a[0] == b[0];
        LexCmpCommonPrefix(Units(a[0]), x, y);
        KeyOrderByScalars(a[1..], b[1..]);
      }
    }
  }

  // The lazy iterator behind `str::encode_utf16`: the characters to come and a pending low surrogate.
  class EncodeUtf16 {
    var chars: string
    var extra: Option<int>

    ghost function Remaining(): seq<int>
      reads this
    {
      (if extra.Some? then [extra.value] else []) + Utf16(chars)
    }

    constructor (s: string)
      ensures Remaining() == Utf16(s)
    {
      chars, extra := s, None;
    }

    method Next() returns (u: Option<int>)
      modifies this
      ensures old(Remaining()) == [] ==> u == None && Remaining() == []
      ensures old(Remaining()) != [] ==>
                u == Some(old(Remaining())[0]) && Remaining() == old(Remaining())[1..]
    {
      if extra.Some? {
        u := extra;
        extra := None;
      } else if chars == "" {
        u := None;
      } else {
        var us := Units(chars[0]);
        u := Some(us[0]);
        extra := if |us| == 2 then Some(us[1]) else None;
        chars := chars[1..];
      }
    }
  }

  method Utf16Cmp(a: string, b: string) returns (ord: Ordering)
    ensures ord == KeyOrder(a, b)
  {
    var ai := new EncodeUtf16(a);
    var bi := new EncodeUtf16(b);
    while true
      invariant fresh(ai) && fresh(bi) && ai != bi
      invariant LexCmp(ai.Remaining(), bi.Remaining()) == KeyOrder(a, b)
      decreases |ai.Remaining()|
    {
      ghost var x, y := ai.Remaining(), bi.Remaining();
      var u := ai.Next();
      assert bi.Remaining() == y;
      var v := bi.Next();
      match (u, v)
      case (Some(m), Some(n)) =>
        if m < n { return Less; }
        if m > n { return Greater; }
      case (Some(_), None) => return Greater;
      case (None, Some(_)) => return Less;
      case (None, None) => return Equal;
    }
  }
}
