/** The string functions of Go's standard library that the modelled code calls,
    over ASCII text. */
module Text {

  /** The ASCII characters that Go counts as white space. */
  const SPACE: string := ['\t', '\n', '\U{0B}', '\U{0C}', '\r', ' ']

  /** The index of the first character of s that is in stop, or |s|. */
  function Span(s: string, stop: string): (n: nat)
    ensures n <= |s|
    ensures forall i :: 0 <= i < n ==> s[i] !in stop
    ensures n < |s| ==> s[n] in stop
  {
    if s == "" || s[0] in stop then 0 else 1 + Span(s[1..], stop)
  }

  function TrimLeft(s: string, cut: string): (r: string)
    ensures |r| <= |s|
    ensures r != "" ==> r[0] !in cut
  {
    if s == "" || s[0] !in cut then s else TrimLeft(s[1..], cut)
  }

  function TrimRight(s: string, cut: string): (r: string)
    ensures |r| <= |s|
    ensures r != "" ==> r[|r| - 1] !in cut
  {
    if s == "" || s[|s| - 1] !in cut then s else TrimRight(s[..|s| - 1], cut)
  }

  function TrimSpace(s: string): (r: string)
  {
    TrimRight(TrimLeft(s, SPACE), SPACE)
  }

  function LowerChar(c: char): char {
    if 'A' <= c <= 'Z' then (c as int + 32) as char else c
  }

  function ToLower(s: string): (r: string)
    ensures |r| == |s|
    ensures forall i :: 0 <= i < |s| ==> r[i] == LowerChar(s[i])
  {
    seq(|s|, i requires 0 <= i < |s| => LowerChar(s[i]))
  }

  /** One spelling for all cases of a letter: two characters beyond ASCII are cases of
      ASCII letters. */
  function FoldChar(c: char): char {
    if c == '\U{17F}' then 's' else if c == '\U{212A}' then 'k' else LowerChar(c)
  }

  /** Equal for texts that differ in letter case alone. */
  function Fold(s: string): (r: string)
    ensures |r| == |s|
    ensures forall i :: 0 <= i < |s| ==> r[i] == FoldChar(s[i])
  {
    seq(|s|, i requires 0 <= i < |s| => FoldChar(s[i]))
  }

  /** The maximal runs of non-space characters. */
  function Fields(s: string): (fs: seq<string>)
    decreases |s|
  {
    var r := TrimLeft(s, SPACE);
    var n := Span(r, SPACE);
    if n == 0 then [] else [r[..n]] + Fields(r[n..])
  }

  function Join(parts: seq<string>, sep: string): string {
    if parts == [] then ""
    else if |parts| == 1 then parts[0]
    else parts[0] + sep + Join(parts[1..], sep)
  }

  /** strings.Split with a one-character separator. */
  function Split(s: string, sep: char): (parts: seq<string>)
    ensures |parts| > 0
    ensures forall p, c :: p in parts && c in p ==> c != sep && c in s
    decreases |s|
  {
    var n := Span(s, [sep]);
    if n == |s| then [s] else [s[..n]] + Split(s[n + 1..], sep)
  }

  predicate Token(f: string) {
    f != "" && forall c :: c in f ==> c !in SPACE
  }

  // ---- laws ----

  lemma {:induction false} SpanAppend(s: string, t: string, stop: string)
    ensures Span(s, stop) < |s| ==> Span(s + t, stop) == Span(s, stop)
    ensures Span(s, stop) == |s| ==> Span(s + t, stop) == |s| + Span(t, stop)
  {
    if s == "" {
      assert s + t == t;
    } else {
      assert (s + t)[1..] == s[1..] + t;
      SpanAppend(s[1..], t, stop);
    }
  }

  lemma {:induction false} TrimLeftAppend(s: string, t: string, cut: string)
    ensures TrimLeft(s + t, cut) == if TrimLeft(s, cut) == "" then TrimLeft(t, cut) else TrimLeft(s, cut) + t
  {
    if s == "" {
      assert s + t == t;
    } else if s[0] in cut {
      assert (s + t)[1..] == s[1..] + t;
      TrimLeftAppend(s[1..], t, cut);
    }
  }

  lemma {:induction false} TrimRightFacts(s: string, cut: string)
    ensures TrimRight(s, cut) == s[..|TrimRight(s, cut)|]
    ensures forall c :: c in TrimRight(s, cut) ==> c in s
  {
    if s != "" && s[|s| - 1] in cut {
      TrimRightFacts(s[..|s| - 1], cut);
    }
  }

  lemma {:induction false} TrimLeftFacts(s: string, cut: string)
    ensures forall c :: c in TrimLeft(s, cut) ==> c in s
  {
    if s != "" && s[0] in cut {
      TrimLeftFacts(s[1..], cut);
    }
  }

  lemma TrimSpaceFacts(s: string)
    ensures TrimSpace(TrimSpace(s)) == TrimSpace(s)
    ensures forall c :: c in TrimSpace(s) ==> c in s
  {
    TrimLeftFacts(s, SPACE);
    TrimRightFacts(TrimLeft(s, SPACE), SPACE);
  }

  lemma {:induction false} FieldsAreTokens(s: string)
    ensures forall f :: f in Fields(s) ==> Token(f)
    decreases |s|
  {
    var r := TrimLeft(s, SPACE);
    var n := Span(r, SPACE);
    if n > 0 {
      FieldsAreTokens(r[n..]);
    }
  }

  /** Tokens joined by a blank are split back into the same tokens. */
  lemma {:induction false} FieldsOfJoin(fs: seq<string>)
    requires forall f :: f in fs ==> Token(f)
    ensures Fields(Join(fs, " ")) == fs
  {
    if |fs| == 1 {
      FieldsCons(fs[0], "");
      assert fs[0] + "" == fs[0];
    } else if |fs| > 1 {
      assert forall g :: g in fs[1..] ==> g in fs;
      FieldsOfJoin(fs[1..]);
      FieldsStep(fs[0], Join(fs[1..], " "));
    }
  }

  lemma FieldsStep(f: string, rest: string)
    requires Token(f)
    ensures Fields(f + " " + rest) == [f] + Fields(rest)
  {
    FieldsCons(f, " " + rest);
    assert f + " " + rest == f + (" " + rest);
    assert (" " + rest)[1..] == rest;
  }

  lemma FieldsCons(f: string, tail: string)
    requires Token(f) && (tail == "" || tail[0] in SPACE)
    ensures Fields(f + tail) == [f] + Fields(tail)
  {
    assert f[0] in f;
    SpanAppend(f, tail, SPACE);
    assert (f + tail)[..|f|] == f && (f + tail)[|f|..] == tail;
  }

  lemma {:induction false} JoinOfSplit(s: string, sep: char)
    ensures Join(Split(s, sep), [sep]) == s
    decreases |s|
  {
    var n := Span(s, [sep]);
    if n < |s| {
      JoinOfSplit(s[n + 1..], sep);
      JoinCons(s[..n], Split(s[n + 1..], sep), [sep]);
      assert s == s[..n] + [sep] + s[n + 1..];
    }
  }

  lemma JoinCons(part: string, parts: seq<string>, sep: string)
    requires parts != []
    ensures Join([part] + parts, sep) == part + sep + Join(parts, sep)
  {
    assert ([part] + parts)[1..] == parts;
  }

  lemma JoinThree(a: string, b: string, c: string, sep: string)
    ensures Join([a, b, c], sep) == a + sep + (b + sep + c)
  {
    JoinCons(a, [b, c], sep);
    JoinCons(b, [c], sep);
    assert [a] + [b, c] == [a, b, c] && [b] + [c] == [b, c];
  }

  lemma NoneIn(s: string, sep: char)
    requires sep !in s
    ensures Span(s, [sep]) == |s| && Split(s, sep) == [s]
  {
    forall i | 0 <= i < |s| ensures s[i] !in [sep] {
      assert s[i] in s;
    }
  }

  lemma SplitCons(part: string, rest: string, sep: char)
    requires sep !in part
    ensures Split(part + [sep] + rest, sep) == [part] + Split(rest, sep)
  {
    var s := part + [sep] + rest;
    NoneIn(part, sep);
    SpanAppend(part, [sep] + rest, [sep]);
    assert s == part + ([sep] + rest);
    assert Span([sep] + rest, [sep]) == 0;
    assert s[..|part|] == part && s[|part| + 1..] == rest;
  }

  lemma {:induction false} SplitOfJoin(parts: seq<string>, sep: char)
    requires parts != [] && forall p :: p in parts ==> sep !in p
    ensures Split(Join(parts, [sep]), sep) == parts
  {
    if |parts| == 1 {
      NoneIn(parts[0], sep);
    } else {
      assert forall p :: p in parts[1..] ==> p in parts;
      SplitOfJoin(parts[1..], sep);
      SplitCons(parts[0], Join(parts[1..], [sep]), sep);
    }
  }

  // ---- what trimming, splitting at blanks and lowercasing mean ----

  predicate AllBlank(s: string) {
    forall i :: 0 <= i < |s| ==> s[i] in SPACE
  }

  lemma {:induction false} TrimLeftIs(s: string, cut: string)
    ensures var n := |s| - |TrimLeft(s, cut)|;
            s[n..] == TrimLeft(s, cut) && forall i :: 0 <= i < n ==> s[i] in cut
  {
    if s != "" && s[0] in cut {
      TrimLeftIs(s[1..], cut);
    }
  }

  lemma {:induction false} TrimRightIs(s: string, cut: string)
    ensures var n := |TrimRight(s, cut)|;
            n <= |s| && s[..n] == TrimRight(s, cut) && forall i :: n <= i < |s| ==> s[i] in cut
  {
    if s != "" && s[|s| - 1] in cut {
      TrimRightIs(s[..|s| - 1], cut);
    }
  }

  /** Trimming takes white space off both ends, all of it and nothing else. */
  lemma TrimSpaceIs(s: string) returns (before: string, after: string)
    ensures s == before + TrimSpace(s) + after && AllBlank(before) && AllBlank(after)
    ensures var t := TrimSpace(s); t != "" ==> t[0] !in SPACE && t[|t| - 1] !in SPACE
  {
    var left := TrimLeft(s, SPACE);
    var t := TrimRight(left, SPACE);
    TrimLeftIs(s, SPACE);
    TrimRightIs(left, SPACE);
    before, after := s[..|s| - |left|], left[|t|..];
    assert left == t + after && s == before + left;
    assert t != "" ==> t[0] == left[0];
  }

  predicate Between(s: string, before: string, f: string, after: string) {
    && s == before + f + after
    && (before == "" || before[|before| - 1] in SPACE) && (after == "" || after[0] in SPACE)
  }

  /** f stands in s between white space or the ends. */
  ghost predicate Stands(s: string, f: string) {
    Token(f) && exists before, after :: Between(s, before, f, after)
  }

  lemma {:induction false} StandingIsField(before: string, f: string, after: string)
    requires Token(f) && (before == "" || before[|before| - 1] in SPACE) && (after == "" || after[0] in SPACE)
    ensures f in Fields(before + f + after)
    decreases |before|
  {
    var s := before + f + after;
    if before == "" {
      assert s == f + after;
      FieldsCons(f, after);
    } else if before[0] in SPACE {
      assert s[1..] == before[1..] + f + after;
      StandingIsField(before[1..], f, after);
      assert TrimLeft(s, SPACE) == TrimLeft(s[1..], SPACE);
    } else {
      var n := Span(before, SPACE);
      var t, rest := before[..n], before[n..] + f + after;
      assert s == t + rest;
      FieldsCons(t, rest);
      StandingIsField(before[n..], f, after);
    }
  }

  lemma StandsLater(cut: string, t: string, rest: string, before: string, f: string, after: string)
    requires Token(f) && rest != "" && rest[0] in SPACE && Between(rest, before, f, after)
    ensures Between(cut + t + rest, cut + t + before, f, after)
  {
    assert f[0] in f;
    assert rest[0] == (before + f + after)[0];
    assert cut + t + rest == cut + t + before + f + after;
  }

  lemma FirstStands(cut: string, t: string, rest: string)
    requires AllBlank(cut) && Token(t) && (rest == "" || rest[0] in SPACE)
    ensures Stands(cut + t + rest, t)
  {
    assert Between(cut + t + rest, cut, t, rest);
  }

  lemma {:induction false} FieldStands(s: string, f: string)
    requires f in Fields(s)
    ensures Stands(s, f)
    decreases |s|
  {
    FieldsAreTokens(s);
    TrimLeftIs(s, SPACE);
    var r := TrimLeft(s, SPACE);
    var n, cut := Span(r, SPACE), s[..|s| - |r|];
    var t, rest := r[..n], r[n..];
    assert s == cut + t + rest;
    if f == t {
      FirstStands(cut, t, rest);
    } else {
      FieldStands(rest, f);
      var before, after :| Between(rest, before, f, after);
      StandsLater(cut, t, rest, before, f, after);
    }
  }

  /** The fields of a text are what stands between white space. */
  lemma FieldsIff(s: string, f: string)
    ensures f in Fields(s) <==> Stands(s, f)
  {
    if f in Fields(s) {
      FieldStands(s, f);
    }
    if Stands(s, f) {
      var before, after :| Between(s, before, f, after);
      StandingIsField(before, f, after);
    }
  }

  /** Only the 26 letters change. */
  lemma LowerIs(i: nat)
    requires i < 26
    ensures LowerChar("ABCDEFGHIJKLMNOPQRSTUVWXYZ"[i]) == "abcdefghijklmnopqrstuvwxyz"[i]
    ensures forall c :: c !in "ABCDEFGHIJKLMNOPQRSTUVWXYZ" ==> LowerChar(c) == c
  {
  }

  /** What folds to a letter: both its cases, the long s to s, and the Kelvin sign to k. */
  lemma FoldIs(c: char, i: nat)
    requires i < 26
    ensures var lower, upper := "abcdefghijklmnopqrstuvwxyz"[i], "ABCDEFGHIJKLMNOPQRSTUVWXYZ"[i];
            FoldChar(c) == lower <==>
            c == lower || c == upper || (lower == 's' && c == '\U{17F}') || (lower == 'k' && c == '\U{212A}')
  {
    LowerIs(i);
    LetterIs(i);
  }

  lemma LetterIs(i: nat)
    requires i < 26
    ensures "abcdefghijklmnopqrstuvwxyz"[i] as int == 'a' as int + i
    ensures "ABCDEFGHIJKLMNOPQRSTUVWXYZ"[i] as int == 'A' as int + i
  {
  }
}
