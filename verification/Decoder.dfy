/** A reader for printed JSON text, used to show that the printer is unambiguous: it inverts `Compact`, so
    canonical bytes determine the value up to key order. It is a proof device, not part of the program. */
module Decoder {
  import opened Base
  import opened Json
  import opened Unicode
  import opened Canonical

  datatype Parsed<+T> = Fail | Got(val: T, rest: Bytes)

  predicate Scalar(n: int) {
    0 <= n < 0xD800 || 0xE000 <= n < 0x11_0000
  }

  predicate Continuation(s: Bytes, i: nat) {
    i < |s| && 0x80 <= s[i] < 0xC0
  }

  // Overlong forms are refused, as section 3 of RFC 3629 requires.
  function DecodeUtf8(s: Bytes): (r: Parsed<char>)
    requires s != []
    ensures r.Got? ==> |r.rest| < |s|
  {
    var b := s[0] as int;
    if b < 0x20 then Fail  // control characters must be escaped
    else if b < 0x80 then Got(b as char, s[1..])
    else if 0xC2 <= b < 0xE0 && Continuation(s, 1) then
      Got(((b - 0xC0) * 0x40 + (s[1] as int - 0x80)) as char, s[2..])
    else if 0xE0 <= b < 0xF0 && Continuation(s, 1) && Continuation(s, 2) then
      var n := (b - 0xE0) * 0x1000 + (s[1] as int - 0x80) * 0x40 + (s[2] as int - 0x80);
      if 0x800 <= n && Scalar(n) then Got(n as char, s[3..]) else Fail
    else if 0xF0 <= b && Continuation(s, 1) && Continuation(s, 2) && Continuation(s, 3) then
      var n := (b - 0xF0) * 0x4_0000 + (s[1] as int - 0x80) * 0x1000 +
               (s[2] as int - 0x80) * 0x40 + (s[3] as int - 0x80);
      if 0x1_0000 <= n && Scalar(n) then Got(n as char, s[4..]) else Fail
    else Fail
  }

  function FromHex(b: Byte): (r: int)
    ensures -1 <= r < 16
  {
    if 0x30 <= b <= 0x39 then b - 0x30
    else if 0x61 <= b <= 0x66 then b - 0x61 + 10
    else if 0x41 <= b <= 0x46 then b - 0x41 + 10
    else -1
  }

  function DecodeHex4(s: Bytes): (r: int)
    requires |s| >= 4
    ensures -1 <= r < 0x1_0000
  {
    var a, b, c, d := FromHex(s[0]), FromHex(s[1]), FromHex(s[2]), FromHex(s[3]);
    if a < 0 || b < 0 || c < 0 || d < 0 then -1 else a * 0x1000 + b * 0x100 + c * 0x10 + d
  }

  // A high surrogate must be followed by an escaped low one (section 7 of RFC 8259).
  function DecodePair(high: int, s: Bytes): (r: Parsed<char>)
    requires 0xD800 <= high < 0xDC00
    ensures r.Got? ==> |r.rest| + 6 <= |s|
  {
    if |s| >= 6 && s[0] == 0x5C && s[1] == 0x75 then
      var low := DecodeHex4(s[2..]);
      if 0xDC00 <= low < 0xE000 then Got((0x1_0000 + (high - 0xD800) * 0x400 + (low - 0xDC00)) as char, s[6..])
      else Fail
    else Fail
  }

  // Every escape of RFC 8259, section 7.
  function DecodeEscape(s: Bytes): (r: Parsed<char>)
    requires |s| >= 2
    ensures r.Got? ==> |r.rest| < |s|
  {
    match s[1]
    case 0x22 => Got('\"', s[2..])
    case 0x5C => Got('\\', s[2..])
    case 0x2F => Got('/', s[2..])
    case 0x62 => Got(0x08 as char, s[2..])
    case 0x74 => Got('\t', s[2..])
    case 0x6E => Got('\n', s[2..])
    case 0x66 => Got(0x0C as char, s[2..])
    case 0x72 => Got('\r', s[2..])
    case 0x75 =>
      if |s| < 6 then Fail
      else
        var n := DecodeHex4(s[2..]);
        if Scalar(n) then Got(n as char, s[6..])
        else if 0xD800 <= n < 0xDC00 then DecodePair(n, s[6..])
        else Fail
    case _ => Fail
  }

  function DecodeChar(s: Bytes): (r: Parsed<char>)
    requires s != []
    ensures r.Got? ==> |r.rest| < |s|
  {
    if s[0] != 0x5C then DecodeUtf8(s) else if |s| >= 2 then DecodeEscape(s) else Fail
  }

  // The rest of a string literal, after its opening quote.
  function DecodeString(s: Bytes): (r: Parsed<string>)
    ensures r.Got? ==> |r.rest| < |s|
    decreases |s|
  {
    if s == [] then Fail
    else if s[0] == 0x22 then Got("", s[1..])
    else
      match DecodeChar(s)
      case Fail => Fail
      case Got(c, rest) =>
        match DecodeString(rest)
        case Fail => Fail
        case Got(cs, rest') => Got([c] + cs, rest')
  }

  function NumberLength(s: Bytes): (n: nat)
    ensures n <= |s|
  {
    if s == [] || !NumberByte(s[0]) then 0 else 1 + NumberLength(s[1..])
  }

  function DigitsValue(t: Bytes): int {
    if t == [] then 0 else DigitsValue(t[..|t| - 1]) * 10 + (t[|t| - 1] as int - 0x30)
  }

  function DecodeNumber(s: Bytes): (r: Parsed<Value>)
    ensures r.Got? ==> |r.rest| < |s|
  {
    var t := s[..NumberLength(s)];
    if t == [] then Fail
    else if 0x2E in t || 0x65 in t then Got(Float(t), s[|t|..])
    else if PlainInteger(t) then Got(Int(DigitsValue(t)), s[|t|..])
    else if t[0] == 0x2D && PlainInteger(t[1..]) && t[1] != 0x30 then Got(Int(-DigitsValue(t[1..])), s[|t|..])
    else Fail
  }

  // The integers of RFC 8259, section 6: no leading zeros.
  predicate PlainInteger(t: Bytes) {
    t != [] && (forall i | 0 <= i < |t| :: 0x30 <= t[i] <= 0x39) && (|t| > 1 ==> t[0] != 0x30)
  }

  function Keyword(s: Bytes, word: Bytes, v: Value): (r: Parsed<Value>)
    requires word != []
    ensures r.Got? ==> |r.rest| < |s|
  {
    if word <= s then Got(v, s[|word|..]) else Fail
  }

  function DecodeValue(s: Bytes): (r: Parsed<Value>)
    ensures r.Got? ==> |r.rest| < |s|
    decreases |s|, 0
  {
    if s == [] then Fail
    else if s[0] == 0x6E then Keyword(s, [0x6E, 0x75, 0x6C, 0x6C], Null)
    else if s[0] == 0x74 then Keyword(s, [0x74, 0x72, 0x75, 0x65], Bool(true))
    else if s[0] == 0x66 then Keyword(s, [0x66, 0x61, 0x6C, 0x73, 0x65], Bool(false))
    else if s[0] == 0x22 then
      match DecodeString(s[1..])
      case Fail => Fail
      case Got(str, rest) => Got(String(str), rest)
    else if s[0] == 0x5B then
      if |s| > 1 && s[1] == 0x5D then Got(Array([]), s[2..])
      else
        match DecodeValue(s[1..])
        case Fail => Fail
        case Got(v, rest) =>
          match DecodeTail(rest)
          case Fail => Fail
          case Got(vs, rest') => Got(Array([v] + vs), rest')
    else if s[0] == 0x7B then
      if |s| > 1 && s[1] == 0x7D then Got(Object([]), s[2..])
      else
        match DecodeMember(s[1..])
        case Fail => Fail
        case Got(m, rest) =>
          match DecodeMembersTail(rest)
          case Fail => Fail
          case Got(ms, rest') => Got(Object([m] + ms), rest')
    else DecodeNumber(s)
  }

  function DecodeTail(s: Bytes): (r: Parsed<seq<Value>>)
    ensures r.Got? ==> |r.rest| < |s|
    decreases |s|, 0
  {
    if s == [] then Fail
    else if s[0] == 0x5D then Got([], s[1..])
    else if s[0] != 0x2C then Fail
    else
      match DecodeValue(s[1..])
      case Fail => Fail
      case Got(v, rest) =>
        match DecodeTail(rest)
        case Fail => Fail
        case Got(vs, rest') => Got([v] + vs, rest')
  }

  function DecodeMember(s: Bytes): (r: Parsed<Member>)
    ensures r.Got? ==> |r.rest| < |s|
    decreases |s|, 1
  {
    if s == [] || s[0] != 0x22 then Fail
    else
      match DecodeString(s[1..])
      case Fail => Fail
      case Got(key, rest) =>
        if rest == [] || rest[0] != 0x3A then Fail
        else
          match DecodeValue(rest[1..])
          case Fail => Fail
          case Got(v, rest') => Got(Member(key, v), rest')
  }

  function DecodeMembersTail(s: Bytes): (r: Parsed<seq<Member>>)
    ensures r.Got? ==> |r.rest| < |s|
    decreases |s|, 0
  {
    if s == [] then Fail
    else if s[0] == 0x7D then Got([], s[1..])
    else if s[0] != 0x2C then Fail
    else
      match DecodeMember(s[1..])
      case Fail => Fail
      case Got(m, rest) =>
        match DecodeMembersTail(rest)
        case Fail => Fail
        case Got(ms, rest') => Got([m] + ms, rest')
  }

  // ---- the reader inverts the printer ----

  lemma {:induction false} SixBitGroups(n: nat)
    ensures n / 0x1000 == n / 0x40 / 0x40 && n / 0x4_0000 == n / 0x1000 / 0x40
    ensures n == n / 0x40 * 0x40 + n % 0x40
    ensures n / 0x40 == n / 0x1000 * 0x40 + n / 0x40 % 0x40
    ensures n / 0x1000 == n / 0x4_0000 * 0x40 + n / 0x1000 % 0x40
  {}

  lemma {:induction false} Utf8RoundTrip(c: char, rest: Bytes)
    requires c as int >= 0x20
    ensures DecodeUtf8(Utf8(c) + rest) == Got(c, rest)
  {
    var u := Utf8(c);
    var s := u + rest;
    SixBitGroups(c as int);
    assert s[|u|..] == rest;
    assert s[0] == u[0];
    if |u| > 1 { assert s[1] == u[1]; }
    if |u| > 2 { assert s[2] == u[2]; }
    if |u| > 3 { assert s[3] == u[3]; }
    Utf8Inverts(c);
  }

  lemma {:induction false} Utf8Inverts(c: char)
    requires c as int >= 0x20
    ensures DecodeUtf8(Utf8(c)) == Got(c, [])
  {
    var n, u := c as int, Utf8(c);
    SixBitGroups(n);
    if 0x80 <= n < 0x800 {
      assert Continuation(u, 1) && u[2..] == [];
    } else if 0x800 <= n < 0x1_0000 {
      assert Continuation(u, 1) && Continuation(u, 2) && u[3..] == [];
    } else if 0x1_0000 <= n {
      assert Continuation(u, 1) && Continuation(u, 2) && Continuation(u, 3) && u[4..] == [];
    }
  }

  lemma {:induction false} UEscapeRoundTrip(c: char, rest: Bytes)
    requires c as int < 0x20
    ensures DecodeEscape(UEscape(c as int) + rest) == Got(c, rest)
  {
    var s := UEscape(c as int) + rest;
    assert s[6..] == rest;
    var t := s[2..];
    assert t[0] == Hex(0) && t[1] == Hex(0) && t[2] == Hex(c as int / 0x10) && t[3] == Hex(c as int % 16);
  }

  // The value of a lower-case hex digit.
  function LowerHex(b: int): (r: int)
    ensures -1 <= r < 16
  {
    if '0' as int <= b <= '9' as int then b - '0' as int
    else if 'a' as int <= b <= 'f' as int then b - 'a' as int + 10
    else -1
  }

  /** An escape is a backslash, a `u` and four lower-case hex digits, high nibble first. */
  lemma {:induction false} UEscapeSpelling(unit: int)
    requires 0 <= unit < 0x1_0000
    ensures var e := UEscape(unit);
            && |e| == 6 && e[0] as int == '\\' as int && e[1] as int == 'u' as int
            && (forall i | 2 <= i < 6 :: LowerHex(e[i]) >= 0)
            && unit == LowerHex(e[2]) * 0x1000 + LowerHex(e[3]) * 0x100 + LowerHex(e[4]) * 0x10 + LowerHex(e[5])
  {
    HexNibbles(unit);
  }

  lemma {:induction false} HexNibbles(unit: int)
    requires 0 <= unit < 0x1_0000
    ensures unit == unit / 0x1000 % 16 * 0x1000 + unit / 0x100 % 16 * 0x100 + unit / 0x10 % 16 * 0x10 + unit % 16
  {
    assert unit / 0x100 == unit / 0x10 / 0x10 && unit / 0x1000 == unit / 0x100 / 0x10;
  }

  lemma {:induction false} CharRoundTrip(c: char, rest: Bytes)
    ensures Escape(c)[0] != QUOTE
    ensures DecodeChar(Escape(c) + rest) == Got(c, rest)
  {
    var s := Escape(c) + rest;
    if c as int >= 0x20 && Escape(c) == Utf8(c) {
      Utf8RoundTrip(c, rest);
    } else if c as int < 0x20 && Escape(c) == UEscape(c as int) {
      UEscapeRoundTrip(c, rest);
    } else {
      assert s[2..] == rest;
    }
  }

  /** Minimal escaping: of all the ways RFC 8259 has of writing a character in a string literal, escapes of
      every kind included, none is shorter than the one printed. */
  lemma {:induction false} EscapeIsShortest(c: char, s: Bytes, rest: Bytes)
    requires s != [] && s[0] != QUOTE && DecodeChar(s) == Got(c, rest)
    ensures |Escape(c)| <= |s| - |rest|
  {}

  lemma {:induction false} StringRoundTrip(str: string, rest: Bytes)
    ensures DecodeString(EscapeAll(str) + [QUOTE] + rest) == Got(str, rest)
  {
    var s := EscapeAll(str) + [QUOTE] + rest;
    if str == "" {
      assert s[1..] == rest;
    } else {
      var more := EscapeAll(str[1..]) + [QUOTE] + rest;
      Regroup(Escape(str[0]), EscapeAll(str[1..]), [QUOTE], rest);
      assert s == Escape(str[0]) + more;
      CharRoundTrip(str[0], more);
      StringRoundTrip(str[1..], rest);
      assert s[0] == Escape(str[0])[0];
      assert str == [str[0]] + str[1..];
    }
  }

  lemma {:induction false} QuotedRoundTrip(str: string, rest: Bytes)
    ensures (Quoted(str) + rest)[0] == QUOTE
    ensures DecodeString((Quoted(str) + rest)[1..]) == Got(str, rest)
  {
    StringRoundTrip(str, rest);
    Regroup([QUOTE], EscapeAll(str), [QUOTE], rest);
  }

  predicate EndsNumber(rest: Bytes) {
    rest == [] || !NumberByte(rest[0])
  }

  lemma {:induction false} NumberLengthExact(t: Bytes, rest: Bytes)
    requires forall i | 0 <= i < |t| :: NumberByte(t[i])
    requires EndsNumber(rest)
    ensures NumberLength(t + rest) == |t|
  {
    if t == [] {
      assert t + rest == rest;
    } else {
      NumberLengthExact(t[1..], rest);
      assert (t + rest)[1..] == t[1..] + rest;
    }
  }

  lemma {:induction false} DigitsRoundTrip(n: nat)
    ensures DigitsValue(Digits(n)) == n
    ensures PlainInteger(Digits(n)) && (Digits(n)[0] == 0x30 <==> n == 0)
  {
    if n >= 10 {
      DigitsRoundTrip(n / 10);
      assert Digits(n)[..|Digits(n)| - 1] == Digits(n / 10);
    } else {
      assert DigitsValue([0x30 + n]) == DigitsValue([]) * 10 + n;
    }
  }

  lemma {:induction false} DecimalShape(n: int)
    ensures var t := Decimal(n);
            t != [] && (0x30 <= t[0] <= 0x39 || t[0] == 0x2D) &&
            (forall i | 0 <= i < |t| :: NumberByte(t[i]) && t[i] != 0x2E && t[i] != 0x65)
    ensures Decimal(n)[0] == 0x2D <==> n < 0
    ensures n >= 0 ==> PlainInteger(Decimal(n))
    ensures n < 0 ==> PlainInteger(Decimal(n)[1..]) && Decimal(n)[1] != 0x30
  {
    DigitsRoundTrip(if n < 0 then -n else n);
    assert n < 0 ==> Decimal(n)[1..] == Digits(-n);
  }

  lemma {:induction false} LastDigit(v: nat, d: nat)
    requires v > 0 && d < 10
    ensures Digits(v * 10 + d) == Digits(v) + [0x30 + d]
  {
    assert (v * 10 + d) / 10 == v && (v * 10 + d) % 10 == d;
  }

  lemma {:induction false} DigitsUnique(t: Bytes)
    requires PlainInteger(t)
    ensures DigitsValue(t) >= 0 && Digits(DigitsValue(t)) == t && (t[0] != 0x30 ==> DigitsValue(t) > 0)
  {
    var init, last := t[..|t| - 1], t[|t| - 1];
    assert t == init + [last];
    if init == [] {
      assert DigitsValue(init) == 0;
    } else {
      assert init[0] == t[0];
      DigitsUnique(init);
      LastDigit(DigitsValue(init), last - 0x30);
    }
  }

  /** An integer has one spelling: whatever text reads as it is the one printed. */
  lemma {:induction false} DecimalIsOnlySpelling(t: Bytes, n: int)
    requires DecodeNumber(t) == Got(Int(n), [])
    ensures t == Decimal(n)
  {
    var k := NumberLength(t);
    assert t[..k] == t;
    if PlainInteger(t) {
      DigitsUnique(t);
    } else {
      DigitsUnique(t[1..]);
      assert t == [0x2D] + t[1..];
    }
  }

  lemma {:induction false} DecimalValue(n: int)
    ensures n < 0 ==> -DigitsValue(Decimal(n)[1..]) == n
    ensures n >= 0 ==> DigitsValue(Decimal(n)) == n
  {
    if n < 0 {
      DigitsRoundTrip(-n);
      assert Decimal(n)[1..] == Digits(-n);
    } else {
      DigitsRoundTrip(n);
    }
  }

  lemma {:induction false} NumberToken(t: Bytes, rest: Bytes)
    requires forall i | 0 <= i < |t| :: NumberByte(t[i])
    requires EndsNumber(rest)
    ensures var s := t + rest; s[..NumberLength(s)] == t && s[|t|..] == rest
  {
    NumberLengthExact(t, rest);
  }

  lemma {:induction false} NumberRoundTrip(v: Value, rest: Bytes)
    requires (v.Int? || v.Float?) && WellFormed(v) && EndsNumber(rest)
    ensures DecodeNumber(Compact(v) + rest) == Got(v, rest)
    ensures Compact(v) != [] && (0x30 <= Compact(v)[0] <= 0x39 || Compact(v)[0] == 0x2D)
  {
    var t := Compact(v);
    if v.Int? {
      DecimalShape(v.n);
      DecimalValue(v.n);
    }
    NumberToken(t, rest);
  }

  lemma {:induction false} KeywordRoundTrip(word: Bytes, v: Value, rest: Bytes)
    requires word != []
    ensures Keyword(word + rest, word, v) == Got(v, rest)
  {
    assert (word + rest)[|word|..] == rest;
  }

  lemma {:induction false} RoundTrip(v: Value, rest: Bytes)
    requires WellFormed(v) && EndsNumber(rest)
    ensures DecodeValue(Compact(v) + rest) == Got(v, rest)
    ensures Compact(v) != [] && Compact(v)[0] != 0x5D && Compact(v)[0] != 0x7D
    decreases v, 1
  {
    var s := Compact(v) + rest;
    match v
    case Null => KeywordRoundTrip(NULL, v, rest);
    case Bool(b) => KeywordRoundTrip(if b then TRUE else FALSE, v, rest);
    case Int(_) => NumberRoundTrip(v, rest);
    case Float(_) => NumberRoundTrip(v, rest);
    case String(str) => QuotedRoundTrip(str, rest);
    case Array(items) => ArrayRoundTrip(items, rest);
    case Object(ms) => ObjectRoundTrip(ms, rest);
  }

  lemma {:induction false} ArrayRoundTrip(items: seq<Value>, rest: Bytes)
    requires forall i | 0 <= i < |items| :: WellFormed(items[i])
    ensures DecodeValue(Compact(Array(items)) + rest) == Got(Array(items), rest)
    decreases items, 1
  {
    var s := Compact(Array(items)) + rest;
    if items == [] {
      assert s[2..] == rest;
    } else {
      var more := CompactTail(items[1..]) + [0x5D] + rest;
      TailRoundTrip(items[1..], rest);
      RoundTrip(items[0], more);
      var first := Compact(items[0]);
      assert Compact(Array(items)) == [0x5B] + (first + CompactTail(items[1..])) + [0x5D];
      Nested([0x5B], first, CompactTail(items[1..]), [0x5D], rest);
      assert items == [items[0]] + items[1..];
      ArrayDecodes(first, more, items[0], items[1..], rest);
    }
  }

  lemma {:induction false} ArrayDecodes(first: Bytes, more: Bytes, v: Value, vs: seq<Value>, rest: Bytes)
    requires first != [] && first[0] != 0x5D
    requires DecodeValue(first + more) == Got(v, more) && DecodeTail(more) == Got(vs, rest)
    ensures DecodeValue([0x5B] + (first + more)) == Got(Array([v] + vs), rest)
  {
    var s := [0x5B] + (first + more);
    assert s[1..] == first + more && s[1] == first[0];
  }

  lemma {:induction false} ObjectDecodes(first: Bytes, more: Bytes, m: Member, ms: seq<Member>, rest: Bytes)
    requires first != [] && first[0] == QUOTE
    requires DecodeMember(first + more) == Got(m, more) && DecodeMembersTail(more) == Got(ms, rest)
    ensures DecodeValue([0x7B] + (first + more)) == Got(Object([m] + ms), rest)
  {
    var s := [0x7B] + (first + more);
    assert s[1..] == first + more && s[1] == first[0];
  }

  lemma {:induction false} Nested<T>(l: seq<T>, first: seq<T>, more: seq<T>, r: seq<T>, rest: seq<T>)
    ensures (l + (first + more) + r) + rest == l + (first + (more + r + rest))
  {}

  lemma {:induction false} ObjectRoundTrip(ms: seq<Member>, rest: Bytes)
    requires forall i | 0 <= i < |ms| :: WellFormed(ms[i].val)
    ensures DecodeValue(Compact(Object(ms)) + rest) == Got(Object(ms), rest)
    decreases ms, 1
  {
    var s := Compact(Object(ms)) + rest;
    if ms == [] {
      assert s[2..] == rest;
    } else {
      var more := CompactMembersTail(ms[1..]) + [0x7D] + rest;
      MembersTailRoundTrip(ms[1..], rest);
      MemberRoundTrip(ms[0], more);
      var first := CompactMember(ms[0]);
      assert Compact(Object(ms)) == [0x7B] + (first + CompactMembersTail(ms[1..])) + [0x7D];
      Nested([0x7B], first, CompactMembersTail(ms[1..]), [0x7D], rest);
      assert ms == [ms[0]] + ms[1..];
      ObjectDecodes(first, more, ms[0], ms[1..], rest);
    }
  }

  lemma {:induction false} TailDecodes(first: Bytes, more: Bytes, v: Value, vs: seq<Value>, rest: Bytes)
    requires DecodeValue(first + more) == Got(v, more) && DecodeTail(more) == Got(vs, rest)
    ensures DecodeTail([COMMA] + (first + more)) == Got([v] + vs, rest)
  {
    assert ([COMMA] + (first + more))[1..] == first + more;
  }

  lemma {:induction false} MembersTailDecodes(first: Bytes, more: Bytes, m: Member, ms: seq<Member>, rest: Bytes)
    requires DecodeMember(first + more) == Got(m, more) && DecodeMembersTail(more) == Got(ms, rest)
    ensures DecodeMembersTail([COMMA] + (first + more)) == Got([m] + ms, rest)
  {
    assert ([COMMA] + (first + more))[1..] == first + more;
  }

  // A separator, an item and the rest, regrouped around the item.
  lemma {:induction false} TailGroups<T>(sep: seq<T>, first: seq<T>, more: seq<T>, r: seq<T>, rest: seq<T>)
    ensures ((sep + first) + more) + r + rest == sep + (first + (more + r + rest))
  {}

  lemma {:induction false} TailRoundTrip(items: seq<Value>, rest: Bytes)
    requires forall i | 0 <= i < |items| :: WellFormed(items[i])
    ensures DecodeTail(CompactTail(items) + [0x5D] + rest) == Got(items, rest)
    ensures EndsNumber(CompactTail(items) + [0x5D] + rest)
    decreases items, 0
  {
    if items == [] {
      assert ([0x5D] + rest)[1..] == rest;
    } else {
      var more := CompactTail(items[1..]) + [0x5D] + rest;
      TailRoundTrip(items[1..], rest);
      RoundTrip(items[0], more);
      TailGroups([COMMA], Compact(items[0]), CompactTail(items[1..]), [0x5D], rest);
      TailDecodes(Compact(items[0]), more, items[0], items[1..], rest);
      assert items == [items[0]] + items[1..];
    }
  }

  lemma {:induction false} MemberRoundTrip(m: Member, rest: Bytes)
    requires WellFormed(m.val) && EndsNumber(rest)
    ensures DecodeMember(CompactMember(m) + rest) == Got(m, rest)
    ensures CompactMember(m)[0] == QUOTE
    decreases m, 0
  {
    var more := [COLON] + Compact(m.val) + rest;
    Regroup(Quoted(m.key), [COLON], Compact(m.val), rest);
    QuotedRoundTrip(m.key, more);
    Assoc([COLON], Compact(m.val), rest);
    assert more[1..] == Compact(m.val) + rest;
    RoundTrip(m.val, rest);
  }

  lemma {:induction false} MembersTailRoundTrip(ms: seq<Member>, rest: Bytes)
    requires forall i | 0 <= i < |ms| :: WellFormed(ms[i].val)
    ensures DecodeMembersTail(CompactMembersTail(ms) + [0x7D] + rest) == Got(ms, rest)
    ensures EndsNumber(CompactMembersTail(ms) + [0x7D] + rest)
    decreases ms, 0
  {
    if ms == [] {
      assert ([0x7D] + rest)[1..] == rest;
    } else {
      var more := CompactMembersTail(ms[1..]) + [0x7D] + rest;
      MembersTailRoundTrip(ms[1..], rest);
      MemberRoundTrip(ms[0], more);
      TailGroups([COMMA], CompactMember(ms[0]), CompactMembersTail(ms[1..]), [0x7D], rest);
      MembersTailDecodes(CompactMember(ms[0]), more, ms[0], ms[1..], rest);
      assert ms == [ms[0]] + ms[1..];
    }
  }

  // A whole line: one value and nothing after it.
  function Decode(s: Bytes): Option<Value> {
    match DecodeValue(s)
    case Got(v, rest) => if rest == [] then Some(v) else None
    case Fail => None
  }

  lemma {:induction false} DecodeCompact(v: Value)
    requires WellFormed(v)
    ensures Decode(Compact(v)) == Some(v)
  {
    RoundTrip(v, []);
    assert Compact(v) + [] == Compact(v);
  }
}
