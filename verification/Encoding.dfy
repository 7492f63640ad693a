/** UTF-8 text as bytes. */
module Utf8 {
  type Byte = n: int | 0 <= n < 256

  /** A continuation byte. */
  function Low(n: nat): Byte {
    0x80 + n % 64
  }

  function EncodeChar(c: char): (r: seq<Byte>)
    ensures 1 <= |r| <= 4
  {
    var n: nat := c as int;
    if n < 0x80 then [n]
    else if n < 0x800 then [0xC0 + n / 64, Low(n)]
    else if n < 0x1_0000 then [0xE0 + n / 64 / 64, Low(n / 64), Low(n)]
    else [0xF0 + n / 64 / 64 / 64, Low(n / 64 / 64), Low(n / 64), Low(n)]
  }

  function Encode(s: string): seq<Byte> {
    if s == "" then [] else EncodeChar(s[0]) + Encode(s[1..])
  }

  /** The first byte of a character determines how many follow. */
  function Length(first: Byte): nat {
    if first < 0xC0 then 1 else if first < 0xE0 then 2 else if first < 0xF0 then 3 else 4
  }

  function Shift(n: int, low: int): int {
    n * 64 + (low - 0x80)
  }

  function Code(b: seq<Byte>): int {
    if |b| == 1 then b[0]
    else if |b| == 2 then Shift(b[0] as int - 0xC0, b[1])
    else if |b| == 3 then Shift(Shift(b[0] as int - 0xE0, b[1]), b[2])
    else if |b| == 4 then Shift(Shift(Shift(b[0] as int - 0xF0, b[1]), b[2]), b[3])
    else -1
  }

  lemma CharCode(c: char)
    ensures Length(EncodeChar(c)[0]) == |EncodeChar(c)| && Code(EncodeChar(c)) == c as int
  {
  }

  predicate Tail(b: int) {
    0x80 <= b < 0xC0
  }

  // The well-formed byte sequences of section 4 of RFC 3629, with what they stand for.
  predicate Two(a: int, b: int, n: int) {
    0xC2 <= a <= 0xDF && Tail(b) && n == (a - 0xC0) * 64 + (b - 0x80)
  }

  predicate Three(a: int, b: int, c: int, n: int) {
    && 0xE0 <= a <= 0xEF && Tail(b) && Tail(c) && (a == 0xE0 ==> b >= 0xA0) && (a == 0xED ==> b < 0xA0)
    && n == (a - 0xE0) * 4096 + (b - 0x80) * 64 + (c - 0x80)
  }

  predicate Four(a: int, b: int, c: int, d: int, n: int) {
    && 0xF0 <= a <= 0xF4 && Tail(b) && Tail(c) && Tail(d) && (a == 0xF0 ==> b >= 0x90) && (a == 0xF4 ==> b < 0x90)
    && n == (a - 0xF0) * 262144 + (b - 0x80) * 4096 + (c - 0x80) * 64 + (d - 0x80)
  }

  predicate Stands(b: seq<Byte>, n: int) {
    || (|b| == 1 && b[0] < 0x80 && n == b[0])
    || (|b| == 2 && Two(b[0], b[1], n))
    || (|b| == 3 && Three(b[0], b[1], b[2], n))
    || (|b| == 4 && Four(b[0], b[1], b[2], b[3], n))
  }

  lemma Quotients(n: nat)
    ensures n == n / 64 * 64 + n % 64 && n / 64 == n / 64 / 64 * 64 + n / 64 % 64
    ensures n / 64 / 64 == n / 64 / 64 / 64 * 64 + n / 64 / 64 % 64
  {
  }

  lemma CharStands(c: char)
    ensures Stands(EncodeChar(c), c as int)
  {
    var n: nat := c as int;
    Quotients(n);
    if 0x80 <= n < 0x800 {
      assert Two(0xC0 + n / 64, Low(n), n);
    } else if 0x800 <= n < 0x1_0000 {
      assert Three(0xE0 + n / 64 / 64, Low(n / 64), Low(n), n);
    } else if 0x1_0000 <= n {
      assert Four(0xF0 + n / 64 / 64 / 64, Low(n / 64 / 64), Low(n / 64), Low(n), n);
    }
  }

  /** The bytes of a character are the one sequence that stands for it. */
  lemma EncodeCharIff(c: char, b: seq<Byte>)
    ensures b == EncodeChar(c) <==> Stands(b, c as int)
  {
    CharStands(c);
    if Stands(b, c as int) {
      OneSequence(b, EncodeChar(c), c as int);
    }
  }

  lemma OneSequence(a: seq<Byte>, b: seq<Byte>, n: int)
    requires Stands(a, n) && Stands(b, n)
    ensures a == b
  {
    assert n < 0x80 <==> |a| == 1;
    assert 0x80 <= n < 0x800 <==> |a| == 2;
    assert 0x800 <= n < 0x1_0000 <==> |a| == 3;
    assert 0x1_0000 <= n <==> |a| == 4;
    assert |b| == |a|;
  }

  lemma CharThenRest(c: char, rest: seq<Byte>)
    ensures var b := EncodeChar(c) + rest;
            var k := Length(b[0]);
            k <= |b| && Code(b[..k]) == c as int && b[k..] == rest
  {
    CharCode(c);
    var k := |EncodeChar(c)|;
    assert (EncodeChar(c) + rest)[..k] == EncodeChar(c);
  }

  lemma {:induction false} EncodeIsInjective(s: string, t: string)
    requires Encode(s) == Encode(t)
    ensures s == t
  {
    if s != "" && t != "" {
      CharThenRest(s[0], Encode(s[1..]));
      CharThenRest(t[0], Encode(t[1..]));
      EncodeIsInjective(s[1..], t[1..]);
      assert s == [s[0]] + s[1..] && t == [t[0]] + t[1..];
    }
  }
}

/** Unpadded base64url (section 5 of RFC 4648) as Go's RawURLEncoding reads and
    writes it: the decoder skips line breaks and ignores unused trailing bits. */
module Base64Url {
  import opened Json
  import opened Utf8
  import opened Text

  function Digit(n: int): char
    requires 0 <= n < 64
  {
    if n < 26 then ('A' as int + n) as char
    else if n < 52 then ('a' as int + n - 26) as char
    else if n < 62 then ('0' as int + n - 52) as char
    else if n == 62 then '-' else '_'
  }

  /** The six bits of a digit, -1 for any other character. */
  function Bits(c: char): int {
    if 'A' <= c <= 'Z' then c as int - 'A' as int
    else if 'a' <= c <= 'z' then c as int - 'a' as int + 26
    else if '0' <= c <= '9' then c as int - '0' as int + 52
    else if c == '-' then 62 else if c == '_' then 63 else -1
  }

  type Sextet = n: int | 0 <= n < 64

  // The six-bit groups of three bytes, and the bytes of four six-bit groups.
  function Group1(x: int, y: int): int { x % 4 * 16 + y / 16 }
  function Group2(y: int, z: int): int { y % 16 * 4 + z / 64 }
  function Byte0(p: int, q: int): int { p * 4 + q / 16 }
  function Byte1(q: int, r: int): int { q % 16 * 16 + r / 4 }
  function Byte2(r: int, s: int): int { r % 4 * 64 + s }

  function ToSextets(b: seq<Byte>): seq<Sextet> {
    if |b| == 0 then []
    else if |b| == 1 then [b[0] / 4, Group1(b[0], 0)]
    else if |b| == 2 then [b[0] / 4, Group1(b[0], b[1]), Group2(b[1], 0)]
    else [b[0] / 4, Group1(b[0], b[1]), Group2(b[1], b[2]), b[2] % 64] + ToSextets(b[3..])
  }

  /** Groups of four, of which only the last may be shorter, but not a single one. */
  predicate Grouped(n: nat) {
    n != 1 && (n > 3 ==> Grouped(n - 4))
  }

  /** Four sextets make three bytes; of a shorter last group the unused bits are dropped. */
  function FromSextets(v: seq<Sextet>): seq<Byte>
    requires Grouped(|v|)
  {
    if |v| == 0 then []
    else if |v| == 2 then [Byte0(v[0], v[1])]
    else if |v| == 3 then [Byte0(v[0], v[1]), Byte1(v[1], v[2])]
    else [Byte0(v[0], v[1]), Byte1(v[1], v[2]), Byte2(v[2], v[3])] + FromSextets(v[4..])
  }

  function Digits(v: seq<Sextet>): (s: string)
    ensures |s| == |v| && forall i :: 0 <= i < |v| ==> s[i] == Digit(v[i])
  {
    seq(|v|, i requires 0 <= i < |v| => Digit(v[i]))
  }

  predicate AllDigits(s: string) {
    forall i :: 0 <= i < |s| ==> Bits(s[i]) >= 0
  }

  function Values(s: string): (v: seq<Sextet>)
    requires AllDigits(s)
    ensures |v| == |s| && forall i :: 0 <= i < |s| ==> v[i] == Bits(s[i])
  {
    seq(|s|, i requires 0 <= i < |s| => Bits(s[i]))
  }

  function EncodeBytes(b: seq<Byte>): string {
    Digits(ToSextets(b))
  }

  predicate LineBreak(c: char) {
    c == '\r' || c == '\n'
  }

  function DropLineBreaks(s: string): (r: string)
    ensures |r| <= |s|
  {
    if s == "" then "" else (if LineBreak(s[0]) then "" else [s[0]]) + DropLineBreaks(s[1..])
  }

  function DecodeText(s: string): Option<seq<Byte>> {
    var digits := DropLineBreaks(s);
    if AllDigits(digits) && Grouped(|digits|) then Some(FromSextets(Values(digits))) else None
  }

  /** The values of the digits (table 2 of RFC 4648). */
  lemma DigitTable(i: nat)
    ensures i < 26 ==> Bits("ABCDEFGHIJKLMNOPQRSTUVWXYZ"[i]) == i
    ensures i < 26 ==> Bits("abcdefghijklmnopqrstuvwxyz"[i]) == 26 + i
    ensures i < 10 ==> Bits("0123456789"[i]) == 52 + i
    ensures Bits('-') == 62 && Bits('_') == 63
  {
    UpperTable(i);
    LowerTable(i);
  }

  lemma UpperTable(i: nat)
    ensures i < 26 ==> Bits("ABCDEFGHIJKLMNOPQRSTUVWXYZ"[i]) == i
  {
  }

  lemma LowerTable(i: nat)
    ensures i < 26 ==> Bits("abcdefghijklmnopqrstuvwxyz"[i]) == 26 + i
  {
  }

  lemma DigitBits(n: Sextet)
    ensures Bits(Digit(n)) == n && Digit(n) != '.'
  {
  }

  lemma DigitsValues(v: seq<Sextet>)
    ensures AllDigits(Digits(v)) && Values(Digits(v)) == v
    ensures '.' !in Digits(v)
  {
    forall i | 0 <= i < |v| ensures Bits(Digits(v)[i]) == v[i] && Digits(v)[i] != '.' {
      DigitBits(v[i]);
    }
  }

  lemma GroupForth(x: Byte, y: Byte, z: Byte)
    ensures Byte0(x / 4, Group1(x, y)) == x
    ensures Byte1(Group1(x, y), Group2(y, z)) == y
    ensures Byte2(Group2(y, z), z % 64) == z
  {
  }

  lemma FromToStep(b: seq<Byte>, rest: seq<Sextet>)
    requires |b| > 2 && Grouped(|rest|) && FromSextets(rest) == b[3..]
    ensures var v: seq<Sextet> := [b[0] / 4, Group1(b[0], b[1]), Group2(b[1], b[2]), b[2] % 64] + rest;
            Grouped(|v|) && FromSextets(v) == b
  {
    GroupForth(b[0], b[1], b[2]);
    var v: seq<Sextet> := [b[0] / 4, Group1(b[0], b[1]), Group2(b[1], b[2]), b[2] % 64] + rest;
    assert v[4..] == rest;
    assert b == [b[0], b[1], b[2]] + b[3..];
  }

  lemma FromToOne(x: Byte)
    ensures FromSextets([x / 4, Group1(x, 0)]) == [x]
  {
    GroupForth(x, 0, 0);
  }

  lemma FromToTwo(x: Byte, y: Byte)
    ensures FromSextets([x / 4, Group1(x, y), Group2(y, 0)]) == [x, y]
  {
    GroupForth(x, y, 0);
  }

  lemma FromToLast(b: seq<Byte>)
    requires |b| < 3
    ensures Grouped(|ToSextets(b)|) && FromSextets(ToSextets(b)) == b
  {
    if |b| == 1 {
      FromToOne(b[0]);
      assert b == [b[0]];
    } else if |b| == 2 {
      FromToTwo(b[0], b[1]);
      assert b == [b[0], b[1]];
    }
  }

  /** Bytes cut into sextets and put together again. */
  lemma {:induction false} FromToSextets(b: seq<Byte>)
    ensures Grouped(|ToSextets(b)|)
    ensures FromSextets(ToSextets(b)) == b
  {
    if |b| < 3 {
      FromToLast(b);
    } else {
      FromToSextets(b[3..]);
      FromToStep(b, ToSextets(b[3..]));
    }
  }

  lemma {:induction false} NoLineBreaks(s: string)
    requires AllDigits(s)
    ensures DropLineBreaks(s) == s
  {
    if s != "" {
      NoLineBreaks(s[1..]);
      assert Bits(s[0]) >= 0;
    }
  }

  lemma DecodeEncode(b: seq<Byte>)
    ensures DecodeText(EncodeBytes(b)) == Some(b)
    ensures '.' !in EncodeBytes(b)
  {
    DigitsValues(ToSextets(b));
    NoLineBreaks(EncodeBytes(b));
    FromToSextets(b);
  }

  // ---- groups of 24 bits ----

  function Number(s: string): int {
    if s == "" then 0 else Number(s[..|s| - 1]) * 64 + Bits(s[|s| - 1])
  }

  /** Three bytes and four digits are one number; the last one or two bytes are filled up
      with zero bits (section 4 of RFC 4648), without padding. */
  predicate Encodes(s: string, b: seq<Byte>) {
    if b == [] then s == ""
    else if |b| == 1 then |s| == 2 && AllDigits(s) && Number(s) * 64 * 64 == Bytes(b[0], 0, 0)
    else if |b| == 2 then |s| == 3 && AllDigits(s) && Number(s) * 64 == Bytes(b[0], b[1], 0)
    else
      && |s| > 3 && AllDigits(s[..4]) && Number(s[..4]) == Bytes(b[0], b[1], b[2])
      && Encodes(s[4..], b[3..])
  }

  function Bytes(x: int, y: int, z: int): int {
    x * 65536 + y * 256 + z
  }

  lemma NumberOf(s: string)
    ensures |s| == 2 ==> Number(s) == Bits(s[0]) * 64 + Bits(s[1])
    ensures |s| == 3 ==> Number(s) == (Bits(s[0]) * 64 + Bits(s[1])) * 64 + Bits(s[2])
    ensures |s| == 4 ==> Number(s) == ((Bits(s[0]) * 64 + Bits(s[1])) * 64 + Bits(s[2])) * 64 + Bits(s[3])
  {
    if 2 <= |s| <= 4 {
      assert Number(s[..1]) == Bits(s[0]) by { assert s[..1][..0] == ""; }
      assert s[..2][..1] == s[..1] && Number(s[..2]) == Number(s[..1]) * 64 + Bits(s[1]);
      if |s| == 2 {
        assert s[..2] == s;
      } else {
        assert s[..3][..2] == s[..2] && Number(s[..3]) == Number(s[..2]) * 64 + Bits(s[2]);
        if |s| == 3 { assert s[..3] == s; }
      }
    }
  }

  lemma BytesCut(x: Byte, y: Byte, z: Byte)
    ensures Bytes(x, y, z) == ((x / 4 * 64 + Group1(x, y)) * 64 + Group2(y, z)) * 64 + z % 64
    ensures 0 <= Group1(x, y) < 64 && 0 <= Group2(y, z) < 64
  {
  }

  lemma SameDigits(p: Sextet, q: Sextet, r: Sextet, s: Sextet, p': Sextet, q': Sextet, r': Sextet, s': Sextet)
    requires ((p * 64 + q) * 64 + r) * 64 + s == ((p' * 64 + q') * 64 + r') * 64 + s'
    ensures p == p' && q == q' && r == r' && s == s'
  {
  }

  function Group(x: Byte, y: Byte, z: Byte): string {
    BytesCut(x, y, z);
    [Digit(x / 4), Digit(Group1(x, y)), Digit(Group2(y, z)), Digit(z % 64)]
  }

  lemma GroupNumber(x: Byte, y: Byte, z: Byte)
    ensures AllDigits(Group(x, y, z)) && Number(Group(x, y, z)) == Bytes(x, y, z)
  {
    NumberOf(Group(x, y, z));
    BytesCut(x, y, z);
    DigitBits(x / 4);
    DigitBits(Group1(x, y));
    DigitBits(Group2(y, z));
    DigitBits(z % 64);
  }

  /** Four digits are those of three bytes when they are one number. */
  lemma GroupIff(s: string, x: Byte, y: Byte, z: Byte)
    requires |s| == 4
    ensures AllDigits(s) && Number(s) == Bytes(x, y, z) <==> s == Group(x, y, z)
  {
    GroupNumber(x, y, z);
    if AllDigits(s) && Number(s) == Bytes(x, y, z) {
      NumberOf(s);
      BytesCut(x, y, z);
      SameDigits(Bits(s[0]), Bits(s[1]), Bits(s[2]), Bits(s[3]), x / 4, Group1(x, y), Group2(y, z), z % 64);
      BitsDigit(s[0]);
      BitsDigit(s[1]);
      BitsDigit(s[2]);
      BitsDigit(s[3]);
    }
  }

  lemma PaddedDigits(s: string, t: string)
    ensures AllDigits(s + t) <==> AllDigits(s) && AllDigits(t)
  {
    var all := s + t;
    if AllDigits(all) {
      assert forall i :: 0 <= i < |s| ==> s[i] == all[i];
      assert forall i :: 0 <= i < |t| ==> t[i] == all[|s| + i];
    }
  }

  /** Zero bits fill up the last group. */
  lemma Padded(s: string, t: string)
    requires (|s| == 2 && t == "AA") || (|s| == 3 && t == "A")
    ensures AllDigits(s + t) <==> AllDigits(s)
    ensures Number(s + t) == if |s| == 2 then Number(s) * 64 * 64 else Number(s) * 64
  {
    PaddedDigits(s, t);
    NumberOf(s);
    NumberOf(s + t);
    assert Bits('A') == 0;
  }

  lemma SameStart(s: string, t: string, end: string)
    requires |s| == |t|
    ensures s + end == t + end <==> s == t
  {
    if s + end == t + end {
      assert s == (s + end)[..|s|] && t == (t + end)[..|t|];
    }
  }

  lemma LastOfOne(s: string, x: Byte)
    requires |s| == 2
    ensures AllDigits(s) && Number(s) * 64 * 64 == Bytes(x, 0, 0) <==> s == [Digit(x / 4), Digit(Group1(x, 0))]
  {
    GroupIff(s + "AA", x, 0, 0);
    Padded(s, "AA");
    BytesCut(x, 0, 0);
    var two := [Digit(x / 4), Digit(Group1(x, 0))];
    assert Digit(0) == 'A' && Group2(0, 0) == 0 && 0 % 64 == 0;
    assert Group(x, 0, 0) == two + "AA";
    SameStart(s, two, "AA");
  }

  lemma LastOfTwo(s: string, x: Byte, y: Byte)
    requires |s| == 3
    ensures AllDigits(s) && Number(s) * 64 == Bytes(x, y, 0) <==>
            s == [Digit(x / 4), Digit(Group1(x, y)), Digit(Group2(y, 0))]
  {
    GroupIff(s + "A", x, y, 0);
    Padded(s, "A");
    BytesCut(x, y, 0);
    var three := [Digit(x / 4), Digit(Group1(x, y)), Digit(Group2(y, 0))];
    assert Digit(0) == 'A' && 0 % 64 == 0;
    assert Group(x, y, 0) == three + "A";
    SameStart(s, three, "A");
  }

  lemma EncodeSome(b: seq<Byte>)
    ensures |b| == 1 ==> EncodeBytes(b) == [Digit(b[0] / 4), Digit(Group1(b[0], 0))]
    ensures |b| == 2 ==>
      EncodeBytes(b) == [Digit(b[0] / 4), Digit(Group1(b[0], b[1])), Digit(Group2(b[1], 0))]
    ensures |b| > 2 ==>
      EncodeBytes(b) == Group(b[0], b[1], b[2]) + EncodeBytes(b[3..])
  {
  }

  /** The encoding of bytes is the one text whose digits are, group by group, their
      bits. */
  lemma {:induction false} EncodesIff(s: string, b: seq<Byte>)
    ensures s == EncodeBytes(b) <==> Encodes(s, b)
  {
    EncodeSome(b);
    if |b| == 1 {
      if |s| == 2 { LastOfOne(s, b[0]); }
    } else if |b| == 2 {
      if |s| == 3 { LastOfTwo(s, b[0], b[1]); }
    } else if |b| > 2 && |s| > 3 {
      GroupIff(s[..4], b[0], b[1], b[2]);
      EncodesIff(s[4..], b[3..]);
      assert s == s[..4] + s[4..];
    }
  }

  // ---- which texts the decoder's leniency leaves ambiguous ----

  /** No bit is set that decoding drops. */
  predicate NoSpareBits(v: seq<Sextet>) {
    if |v| > 3 then NoSpareBits(v[4..])
    else |v| == 0 || (|v| == 2 && v[1] % 16 == 0) || (|v| == 3 && v[2] % 4 == 0)
  }

  predicate Strict(s: string) {
    AllDigits(s) && Grouped(|s|) && NoSpareBits(Values(s))
  }

  lemma BitsDigit(c: char)
    requires Bits(c) >= 0
    ensures Digit(Bits(c)) == c
  {
  }

  lemma {:induction false} ToSextetsSpare(b: seq<Byte>)
    ensures NoSpareBits(ToSextets(b))
  {
    if |b| > 2 {
      ToSextetsSpare(b[3..]);
      var v := ToSextets(b);
      assert v[4..] == ToSextets(b[3..]);
    }
  }

  lemma GroupBack(p: Sextet, q: Sextet, r: Sextet, s: Sextet)
    ensures Byte0(p, q) / 4 == p
    ensures Group1(Byte0(p, q), Byte1(q, r)) == q
    ensures Group2(Byte1(q, r), Byte2(r, s)) == r
    ensures Byte2(r, s) % 64 == s
  {
  }

  lemma ToFromStep(v: seq<Sextet>, rest: seq<Byte>)
    requires |v| > 3 && ToSextets(rest) == v[4..]
    ensures ToSextets([Byte0(v[0], v[1]), Byte1(v[1], v[2]), Byte2(v[2], v[3])] + rest) == v
  {
    GroupBack(v[0], v[1], v[2], v[3]);
    var b: seq<Byte> := [Byte0(v[0], v[1]), Byte1(v[1], v[2]), Byte2(v[2], v[3])] + rest;
    assert b[3..] == rest;
    assert v == [v[0], v[1], v[2], v[3]] + v[4..];
  }

  lemma ToFromTwo(p: Sextet, q: Sextet)
    requires q % 16 == 0
    ensures ToSextets([Byte0(p, q)]) == [p, q]
  {
    GroupBack(p, q, 0, 0);
  }

  lemma ToFromThree(p: Sextet, q: Sextet, r: Sextet)
    requires r % 4 == 0
    ensures ToSextets([Byte0(p, q), Byte1(q, r)]) == [p, q, r]
  {
    GroupBack(p, q, r, 0);
  }

  lemma ToFromLast(v: seq<Sextet>)
    requires NoSpareBits(v) && |v| < 4
    ensures Grouped(|v|) && ToSextets(FromSextets(v)) == v
  {
    if |v| == 2 {
      ToFromTwo(v[0], v[1]);
      assert v == [v[0], v[1]];
    } else if |v| == 3 {
      ToFromThree(v[0], v[1], v[2]);
      assert v == [v[0], v[1], v[2]];
    }
  }

  lemma {:induction false} ToFromSextets(v: seq<Sextet>)
    requires NoSpareBits(v) && Grouped(|v|)
    ensures ToSextets(FromSextets(v)) == v
  {
    if |v| < 4 {
      ToFromLast(v);
    } else {
      ToFromSextets(v[4..]);
      ToFromStep(v, FromSextets(v[4..]));
    }
  }

  /** A text is the encoding of what it decodes to exactly when it is strict. */
  lemma EncodeDecodeIff(s: string)
    requires DecodeText(s).Some?
    ensures EncodeBytes(DecodeText(s).value) == s <==> Strict(s)
  {
    var b := DecodeText(s).value;
    ToSextetsSpare(b);
    FromToSextets(b);
    DigitsValues(ToSextets(b));
    if Strict(s) {
      NoLineBreaks(s);
      ToFromSextets(Values(s));
      forall i | 0 <= i < |s| ensures Digits(Values(s))[i] == s[i] {
        BitsDigit(s[i]);
      }
      assert Digits(Values(s)) == s;
    }
  }
}
