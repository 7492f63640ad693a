/** The member order is the one section 3.2.3 of RFC 8785 asks for: by UTF-16 code units. */
module Utf16 {
  import opened Json

  function High(n: int): int {
    0xD800 + (n - 0x1_0000) / 0x400
  }

  function Low(n: int): int {
    0xDC00 + (n - 0x1_0000) % 0x400
  }

  /** The code units of a character: one, or a surrogate pair. */
  function CharUnits(c: char): seq<int> {
    var n := c as int;
    if n < 0x1_0000 then [n] else [High(n), Low(n)]
  }

  function Units(s: string): seq<int> {
    if s == "" then [] else CharUnits(s[0]) + Units(s[1..])
  }

  /** Lexicographic order. */
  predicate Below(x: seq<int>, y: seq<int>) {
    y != [] && (x == [] || x[0] < y[0] || (x[0] == y[0] && Below(x[1..], y[1..])))
  }

  lemma BelowCons(u: int, x: seq<int>, v: int, y: seq<int>)
    ensures Below([u] + x, [v] + y) <==> u < v || (u == v && Below(x, y))
  {
    assert ([u] + x)[1..] == x && ([v] + y)[1..] == y;
  }

  lemma BelowPair(u: int, u': int, x: seq<int>, v: int, v': int, y: seq<int>)
    ensures Below([u, u'] + x, [v, v'] + y) <==> u < v || (u == v && (u' < v' || (u' == v' && Below(x, y))))
  {
    BelowCons(u, [u'] + x, v, [v'] + y);
    BelowCons(u', x, v', y);
    assert [u, u'] + x == [u] + ([u'] + x) && [v, v'] + y == [v] + ([v'] + y);
  }

  lemma FirstUnit(c: char, x: seq<int>) returns (u: int, rest: seq<int>)
    ensures CharUnits(c) + x == [u] + rest && u == CharUnits(c)[0]
  {
    var units := CharUnits(c);
    u, rest := units[0], units[1..] + x;
    assert units == [units[0]] + units[1..];
  }

  /** Surrogate pairs are ordered as the characters they stand for. */
  lemma PairOrder(m: int, n: int)
    requires 0x1_0000 <= m < 0x11_0000 && 0x1_0000 <= n < 0x11_0000
    ensures m < n <==> High(m) < High(n) || (High(m) == High(n) && Low(m) < Low(n))
    ensures m == n <==> High(m) == High(n) && Low(m) == Low(n)
    ensures 0xD800 <= High(m) < 0xDC00
  {
  }

  lemma DifferentFirst(c: char, x: seq<int>, d: char, y: seq<int>)
    requires c != d
    ensures Below(CharUnits(c) + x, CharUnits(d) + y) <==> Rank(c) < Rank(d)
  {
    var m, n := c as int, d as int;
    if m >= 0x1_0000 && n >= 0x1_0000 {
      PairOrder(m, n);
      BelowPair(High(m), Low(m), x, High(n), Low(n), y);
    } else {
      var u, x' := FirstUnit(c, x);
      var v, y' := FirstUnit(d, y);
      BelowCons(u, x', v, y');
      if m >= 0x1_0000 { PairOrder(m, m); }
      if n >= 0x1_0000 { PairOrder(n, n); }
    }
  }

  lemma SameFirst(c: char, x: seq<int>, y: seq<int>)
    ensures Below(CharUnits(c) + x, CharUnits(c) + y) <==> Below(x, y)
  {
    var n := c as int;
    if n < 0x1_0000 {
      BelowCons(n, x, n, y);
    } else {
      BelowPair(High(n), Low(n), x, High(n), Low(n), y);
    }
  }

  /** A name comes before another exactly when its UTF-16 code units do. */
  lemma {:induction false} LessIsUtf16Order(a: string, b: string)
    ensures Less(a, b) <==> Below(Units(a), Units(b))
  {
    if a != "" && b != "" {
      LessIsUtf16Order(a[1..], b[1..]);
      if a[0] == b[0] {
        SameFirst(a[0], Units(a[1..]), Units(b[1..]));
      } else {
        DifferentFirst(a[0], Units(a[1..]), b[0], Units(b[1..]));
      }
    }
  }
}
