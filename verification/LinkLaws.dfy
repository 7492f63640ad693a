/** What a Link header field value means next to other text: how lines combine,
    and that printing and scanning are inverse. */
module LinkLaws {
  import opened Text
  import opened LinkGrammar
  import opened Seqs

  predicate StartsAtComma(t: string) {
    t != "" && t[0] == ','
  }

  // ---- scanning a value that is followed by a comma ----

  lemma {:induction false} QuotedAppend(q: string, t: string)
    requires QuoteCloses(q)
    ensures ReadQuoted(q + t) == (ReadQuoted(q).0, ReadQuoted(q).1 + t)
  {
    assert (q + t)[1..] == q[1..] + t;
    if q[0] == '"' {
    } else if q[0] == '\\' {
      assert (q + t)[2..] == q[2..] + t;
      QuotedAppend(q[2..], t);
    } else {
      QuotedAppend(q[1..], t);
    }
  }

  lemma ValueAppend(input: string, t: string)
    requires StartsAtComma(t)
    requires input != "" && input[0] == '"' ==> QuoteCloses(input[1..])
    ensures ReadValue(input + t) == (ReadValue(input).0, ReadValue(input).1 + t)
  {
    if input != "" && input[0] == '"' {
      assert (input + t)[1..] == input[1..] + t;
      QuotedAppend(input[1..], t);
    } else {
      var n := Span(input, TOKEN_STOP);
      SpanAppend(input, t, TOKEN_STOP);
      assert Span(input + t, TOKEN_STOP) == n;
      assert (input + t)[..n] == input[..n] && (input + t)[n..] == input[n..] + t;
    }
  }

  lemma NameAppend(after: string, t: string)
    requires StartsAtComma(t)
    ensures ReadName(after + t) == (ReadName(after).0, ReadName(after).1 + t)
  {
    TrimBlankAppend(after, t);
    var text := TrimLeft(after, BLANK);
    var n := Span(text, NAME_STOP);
    SpanAppend(text, t, NAME_STOP);
    assert Span(text + t, NAME_STOP) == n;
    assert (text + t)[..n] == text[..n] && (text + t)[n..] == text[n..] + t;
    TrimBlankAppend(text[n..], t);
  }

  lemma TrimBlankAppend(s: string, t: string)
    requires StartsAtComma(t)
    ensures TrimLeft(s + t, BLANK) == TrimLeft(s, BLANK) + t
  {
    TrimLeftAppend(s, t, BLANK);
    assert TrimLeft(t, BLANK) == t && "" + t == t;
  }

  lemma ParamAppend(after: string, t: string)
    requires StartsAtComma(t) && ParamCloses(after)
    ensures ReadParam(after + t) == (ReadParam(after).0, ReadParam(after).1 + t)
  {
    NameAppend(after, t);
    var rest := ReadName(after).1;
    if rest != "" && rest[0] == '=' {
      assert (rest + t)[1..] == rest[1..] + t;
      TrimBlankAppend(rest[1..], t);
      ValueAppend(TrimLeft(rest[1..], BLANK), t);
    }
  }

  lemma {:induction false} ParamsAppend(text: string, t: string)
    requires StartsAtComma(t) && ParamsClose(text)
    ensures ReadParams(text + t) == (ReadParams(text).0, ReadParams(text).1 + t)
    decreases |text|, 1
  {
    TrimBlankAppend(text, t);
    ParamsAtAppend(TrimLeft(text, BLANK), t);
  }

  lemma {:induction false} ParamsAtAppend(rest: string, t: string)
    requires StartsAtComma(t) && ParamsAtClose(rest)
    ensures ParamsAt(rest + t) == (ParamsAt(rest).0, ParamsAt(rest).1 + t)
    decreases |rest|, 0
  {
    if rest != "" && rest[0] == ';' {
      assert (rest + t)[1..] == rest[1..] + t;
      ParamAppend(rest[1..], t);
      ParamsAppend(ReadParam(rest[1..]).1, t);
    } else {
      SpanAppend(rest, t, ",");
      var n := Span(rest, ",");
      assert (rest + t)[n..] == rest[n..] + t;
    }
  }

  lemma {:induction false} LinksAppend(value: string, t: string)
    requires StartsAtComma(t) && Closed(value)
    ensures RawLinks(value + t) == RawLinks(value) + RawLinks(t)
    decreases |value|, 1
  {
    TrimLeftAppend(value, t, BETWEEN_LINKS);
    var rest := TrimLeft(value, BETWEEN_LINKS);
    if rest != "" {
      LinksAtAppend(rest, t);
    }
  }

  lemma {:induction false} LinksAtAppend(rest: string, t: string)
    requires rest != "" && rest[0] !in BETWEEN_LINKS
    requires StartsAtComma(t) && ClosedAt(rest)
    ensures LinksAt(rest + t) == LinksAt(rest) + RawLinks(t)
    decreases |rest|, 0
  {
    if rest[0] == '<' {
      LinkUnfold(rest, t);
      ParamsAppend(AfterTarget(rest), t);
      var (ps, end) := ReadParams(AfterTarget(rest));
      LinksAppend(end, t);
      ConsAppend(RawLink(Target(rest), ps), RawLinks(end), RawLinks(t));
    } else {
      JunkAppend(rest, t);
      var i := Span(rest, ",");
      if i < |rest| {
        LinksAppend(rest[i..], t);
      } else {
        assert rest[i..] + t == t;
      }
    }
  }

  /** The target of the link at the start of rest, and the text after it. */
  function Target(rest: string): string
    requires rest != "" && rest[0] == '<' && Span(rest, ">") < |rest|
  {
    TrimSpace(rest[1..Span(rest, ">")])
  }

  function AfterTarget(rest: string): string
    requires Span(rest, ">") < |rest|
  {
    rest[Span(rest, ">") + 1..]
  }

  lemma LinkUnfold(rest: string, t: string)
    requires rest != "" && rest[0] == '<' && Span(rest, ">") < |rest|
    ensures var (ps, end) := ReadParams(AfterTarget(rest));
            LinksAt(rest) == [RawLink(Target(rest), ps)] + RawLinks(end)
    ensures var (ps, end) := ReadParams(AfterTarget(rest) + t);
            LinksAt(rest + t) == [RawLink(Target(rest), ps)] + RawLinks(end)
  {
    var n := Span(rest, ">");
    SpanAppend(rest, t, ">");
    assert (rest + t)[1..n] == rest[1..n] && (rest + t)[n + 1..] == rest[n + 1..] + t;
  }

  lemma JunkAppend(rest: string, t: string)
    requires rest != "" && rest[0] != '<' && rest[0] !in BETWEEN_LINKS && StartsAtComma(t)
    ensures var i := Span(rest, ",");
            && LinksAt(rest) == (if i < |rest| then RawLinks(rest[i..]) else [])
            && LinksAt(rest + t) == RawLinks(rest[i..] + t)
  {
    var i := Span(rest, ",");
    SpanAppend(rest, t, ",");
    assert (rest + t)[i..] == rest[i..] + t;
  }

  lemma CommaIsSkipped(b: string)
    ensures RawLinks("," + b) == RawLinks(b)
  {
    assert ("," + b)[1..] == b;
    assert TrimLeft("," + b, BETWEEN_LINKS) == TrimLeft(b, BETWEEN_LINKS);
  }

  // ---- scanning a value that ends inside a target or a quoted string ----

  /** Ends an open quoted string and adds a parameter; ends nothing otherwise. */
  const CLOSE_QUOTE: string := ",\";z"
  /** Ends an open target. */
  const CLOSE_TARGET: string := ",>"

  lemma {:induction false} QuotedOpen(q: string)
    requires !QuoteCloses(q)
    ensures ReadQuoted(q).1 == "" && ReadQuoted(q + CLOSE_QUOTE).1 == ";z"
  {
    var w := q + CLOSE_QUOTE;
    if q == "" {
      assert w == CLOSE_QUOTE;
      assert ReadQuoted("\";z") == ("", ";z");
      assert w[1..] == "\";z";
    } else if q == "\\" {
      assert w[2..] == "\";z";
      assert ReadQuoted("\";z") == ("", ";z");
    } else if q[0] == '\\' {
      assert w[2..] == q[2..] + CLOSE_QUOTE;
      QuotedOpen(q[2..]);
    } else {
      assert w[1..] == q[1..] + CLOSE_QUOTE;
      QuotedOpen(q[1..]);
    }
  }

  lemma ParamOpen(after: string)
    requires !ParamCloses(after)
    ensures ReadParam(after).1 == "" && ReadParam(after + CLOSE_QUOTE).1 == ";z"
    ensures ReadParam(after).0.name == ReadParam(after + CLOSE_QUOTE).0.name
  {
    NameAppend(after, CLOSE_QUOTE);
    var rest := ReadName(after).1;
    assert (rest + CLOSE_QUOTE)[1..] == rest[1..] + CLOSE_QUOTE;
    TrimBlankAppend(rest[1..], CLOSE_QUOTE);
    ValueOpen(TrimLeft(rest[1..], BLANK));
  }

  lemma ValueOpen(input: string)
    requires input != "" && input[0] == '"' && !QuoteCloses(input[1..])
    ensures ReadValue(input).1 == "" && ReadValue(input + CLOSE_QUOTE).1 == ";z"
  {
    assert (input + CLOSE_QUOTE)[1..] == input[1..] + CLOSE_QUOTE;
    QuotedOpen(input[1..]);
  }

  lemma LastParam()
    ensures ReadParams(";z") == ([Param("z", "")], "")
  {
    var after := "z";
    assert after[1..] == "";
    assert Span("", NAME_STOP) == 0;
    assert Span(after, NAME_STOP) == 1;
    assert TrimLeft(after, BLANK) == after;
    assert ToLower(after[..1]) == "z";
    assert ReadParam(after) == (Param("z", ""), "");
    assert ReadParams("") == ([], "");
    assert (";z")[1..] == after;
    assert TrimLeft(";z", BLANK) == ";z";
    assert [Param("z", "")] + [] == [Param("z", "")];
    assert ParamsAt(";z") == ([Param("z", "")], "");
  }

  /** Closing the quotation afterwards yields exactly one more parameter. */
  lemma {:induction false} ParamsOpen(text: string)
    requires !ParamsClose(text)
    ensures ReadParams(text).1 == ReadParams(text + CLOSE_QUOTE).1 == ""
    ensures |ReadParams(text + CLOSE_QUOTE).0| == |ReadParams(text).0| + 1
    decreases |text|
  {
    TrimBlankAppend(text, CLOSE_QUOTE);
    var rest := TrimLeft(text, BLANK);
    assert (rest + CLOSE_QUOTE)[1..] == rest[1..] + CLOSE_QUOTE;
    if ParamCloses(rest[1..]) {
      ParamAppend(rest[1..], CLOSE_QUOTE);
      ParamsOpen(ReadParam(rest[1..]).1);
    } else {
      ParamOpen(rest[1..]);
      LastParam();
      assert ReadParams("") == ([], "");
    }
  }

  lemma {:induction false} LinksOpen(value: string)
    requires !Closed(value)
    ensures RawLinks(value + CLOSE_QUOTE) != RawLinks(value) || RawLinks(value + CLOSE_TARGET) != RawLinks(value)
    decreases |value|, 1
  {
    TrimLeftAppend(value, CLOSE_QUOTE, BETWEEN_LINKS);
    TrimLeftAppend(value, CLOSE_TARGET, BETWEEN_LINKS);
    LinksAtOpen(TrimLeft(value, BETWEEN_LINKS));
  }

  lemma {:induction false} LinksAtOpen(rest: string)
    requires rest != "" && rest[0] !in BETWEEN_LINKS && !ClosedAt(rest)
    ensures LinksAt(rest + CLOSE_QUOTE) != LinksAt(rest) || LinksAt(rest + CLOSE_TARGET) != LinksAt(rest)
    decreases |rest|, 0
  {
    if rest[0] != '<' {
      JunkAppend(rest, CLOSE_QUOTE);
      JunkAppend(rest, CLOSE_TARGET);
      LinksOpen(rest[Span(rest, ",")..]);
    } else if Span(rest, ">") == |rest| {
      TargetOpen(rest);
    } else {
      if ParamsClose(AfterTarget(rest)) {
        var end := ReadParams(AfterTarget(rest)).1;
        LinksOpen(end);
        LaterOpen(rest, if RawLinks(end + CLOSE_QUOTE) != RawLinks(end) then CLOSE_QUOTE else CLOSE_TARGET);
      } else {
        ParamsOpenHere(rest);
      }
    }
  }

  lemma LaterOpen(rest: string, t: string)
    requires rest != "" && rest[0] == '<' && Span(rest, ">") < |rest| && StartsAtComma(t)
    requires ParamsClose(AfterTarget(rest))
    requires var end := ReadParams(AfterTarget(rest)).1; RawLinks(end + t) != RawLinks(end)
    ensures LinksAt(rest + t) != LinksAt(rest)
  {
    LinkUnfold(rest, t);
    ParamsAppend(AfterTarget(rest), t);
    var (ps, end) := ReadParams(AfterTarget(rest));
    ConsDiffers(RawLink(Target(rest), ps), RawLinks(end), RawLink(Target(rest), ps), RawLinks(end + t));
  }

  lemma ParamsOpenHere(rest: string)
    requires rest != "" && rest[0] == '<' && Span(rest, ">") < |rest|
    requires !ParamsClose(AfterTarget(rest))
    ensures LinksAt(rest + CLOSE_QUOTE) != LinksAt(rest)
  {
    LinkUnfold(rest, CLOSE_QUOTE);
    ParamsOpen(AfterTarget(rest));
    var (ps, end) := ReadParams(AfterTarget(rest));
    var (ps', end') := ReadParams(AfterTarget(rest) + CLOSE_QUOTE);
    ConsDiffers(RawLink(Target(rest), ps), RawLinks(end), RawLink(Target(rest), ps'), RawLinks(end'));
  }

  lemma TargetOpen(rest: string)
    requires rest != "" && rest[0] == '<' && Span(rest, ">") == |rest|
    ensures LinksAt(rest) == [] && LinksAt(rest + CLOSE_TARGET) != []
  {
    SpanAppend(rest, CLOSE_TARGET, ">");
    assert CLOSE_TARGET[1..][0] == '>';
    assert Span(CLOSE_TARGET[1..], ">") == 0;
    assert Span(CLOSE_TARGET, ">") == 1;
  }

  // ---- combining field lines ----

  lemma ClosedCombines(a: string, b: string)
    requires Closed(a)
    ensures RawLinks(a + "," + b) == RawLinks(a) + RawLinks(b)
  {
    assert a + "," + b == a + ("," + b);
    LinksAppend(a, "," + b);
    CommaIsSkipped(b);
  }

  lemma NoLinksAlone()
    ensures RawLinks(CLOSE_QUOTE[1..]) == [] && RawLinks(CLOSE_TARGET[1..]) == []
  {
    var q := CLOSE_QUOTE[1..];
    assert Span(q, ",") == 3 by { assert Span(q[3..], ",") == 0; }
  }

  lemma OpenDiffers(a: string) returns (b: string)
    requires !Closed(a)
    ensures RawLinks(a + "," + b) != RawLinks(a) + RawLinks(b)
  {
    LinksOpen(a);
    var q, g := CLOSE_QUOTE[1..], CLOSE_TARGET[1..];
    NoLinksAlone();
    assert RawLinks(a) + [] == RawLinks(a);
    b := if RawLinks(a + CLOSE_QUOTE) != RawLinks(a) then q else g;
    assert a + "," + q == a + CLOSE_QUOTE && a + "," + g == a + CLOSE_TARGET;
  }

  /** Two field lines mean the same apart and joined by a comma, whatever the
      second one is, exactly when the first is closed. */
  lemma CombineIff(a: string)
    ensures Closed(a) <==> forall b :: RawLinks(a + "," + b) == RawLinks(a) + RawLinks(b)
  {
    if Closed(a) {
      forall b ensures RawLinks(a + "," + b) == RawLinks(a) + RawLinks(b) {
        ClosedCombines(a, b);
      }
    } else {
      var b := OpenDiffers(a);
    }
  }

  lemma {:induction false} InterpretAppend(xs: seq<RawLink>, ys: seq<RawLink>)
    ensures Interpret(xs + ys) == Interpret(xs) + Interpret(ys)
  {
    if xs == [] {
      assert xs + ys == ys;
    } else {
      assert (xs + ys)[1..] == xs[1..] + ys;
      InterpretAppend(xs[1..], ys);
    }
  }

  lemma {:induction false} SelectAppend(xs: seq<Link>, ys: seq<Link>, rel: string)
    ensures Select(xs + ys, rel) == Select(xs, rel) + Select(ys, rel)
  {
    if xs == [] {
      assert xs + ys == ys;
    } else {
      assert (xs + ys)[1..] == xs[1..] + ys;
      SelectAppend(xs[1..], ys, rel);
    }
  }

  /** Field lines may be combined into one, separated by commas, when every line
      but the last is closed (section 5.3 of RFC 9110). */
  lemma {:induction false} CombinedLines(headers: seq<string>, rel: string)
    requires forall i :: 0 <= i < |headers| - 1 ==> Closed(headers[i])
    ensures Targets(headers, rel) == Targets([Join(headers, ",")], rel)
  {
    TargetsOne(Join(headers, ","), rel);
    if |headers| == 0 {
      assert RawLinks("") == [];
    } else if |headers| == 1 {
      TargetsOne(headers[0], rel);
      assert headers == [headers[0]];
    } else {
      var rest := Join(headers[1..], ",");
      CombinedLines(headers[1..], rel);
      TargetsOne(rest, rel);
      ClosedCombines(headers[0], rest);
      InterpretAppend(RawLinks(headers[0]), RawLinks(rest));
      SelectAppend(Links(headers[0]), Links(rest), rel);
    }
  }

  lemma TargetsOne(value: string, rel: string)
    ensures Targets([value], rel) == Select(Links(value), rel)
  {
    assert Targets([value][1..], rel) == [];
  }

  // ---- printing and scanning are inverse ----

  lemma {:induction false} QuotedEscape(v: string, t: string)
    ensures ReadQuoted(Escape(v) + "\"" + t) == (v, t)
  {
    if v == "" {
      assert (Escape(v) + "\"" + t)[1..] == t;
    } else {
      QuotedEscape(v[1..], t);
      EscapedFirst(v[0], Escape(v[1..]) + "\"" + t);
      assert Escape(v) + "\"" + t == EscapeChar(v[0]) + (Escape(v[1..]) + "\"" + t);
      assert [v[0]] + v[1..] == v;
    }
  }

  lemma EscapedFirst(c: char, rest: string)
    requires rest != ""
    ensures ReadQuoted(EscapeChar(c) + rest) == ([c] + ReadQuoted(rest).0, ReadQuoted(rest).1)
  {
    var w := EscapeChar(c) + rest;
    if c == '"' || c == '\\' {
      assert w[2..] == rest;
    } else {
      assert w[1..] == rest && |w| > 1;
    }
  }

  lemma ValueOfQuoted(quoted: string)
    ensures TrimLeft("\"" + quoted, BLANK) == "\"" + quoted
    ensures ReadValue("\"" + quoted) == ReadQuoted(quoted)
  {
    assert ("\"" + quoted)[1..] == quoted;
  }

  lemma NameOfPrinted(name: string, value: string)
    requires WellFormedParam(Param(name, "")) && value != "" && value[0] == '='
    ensures ReadName(" " + (name + value)) == (name, value)
  {
    var text := name + value;
    assert (" " + text)[1..] == text;
    assert name[0] in name && text[0] !in BLANK;
    assert TrimLeft(" " + text, BLANK) == text;
    SpanAppend(name, value, NAME_STOP);
    assert Span(text, NAME_STOP) == |name|;
    assert text[..|name|] == name && text[|name|..] == value;
  }

  lemma ReadPrintedParam(p: Param, t: string)
    requires WellFormedParam(p)
    ensures PrintParam(p) + t == ";" + (PrintParam(p) + t)[1..]
    ensures ReadParam((PrintParam(p) + t)[1..]) == (p, t)
  {
    var quoted := Escape(p.value) + "\"" + t;
    var value := "=\"" + quoted;
    assert PrintParam(p) + t == ";" + (" " + (p.name + value));
    assert (PrintParam(p) + t)[1..] == " " + (p.name + value);
    NameOfPrinted(p.name, value);
    assert value[1..] == "\"" + quoted;
    QuotedEscape(p.value, t);
    ValueOfQuoted(quoted);
  }

  lemma ParamsAtParam(after: string, p: Param, rest: string)
    requires ReadParam(after) == (p, rest) && p.name != ""
    ensures ReadParams(";" + after) == ([p] + ReadParams(rest).0, ReadParams(rest).1)
  {
    assert (";" + after)[1..] == after;
    assert TrimLeft(";" + after, BLANK) == ";" + after;
  }

  lemma {:induction false} ReadPrintedParams(ps: seq<Param>, t: string)
    requires forall i :: 0 <= i < |ps| ==> WellFormedParam(ps[i])
    requires t == "" || t[0] == ','
    ensures ReadParams(PrintParams(ps) + t) == (ps, t)
  {
    if ps == [] {
      assert PrintParams(ps) + t == t;
      assert TrimLeft(t, BLANK) == t && t[Span(t, ",")..] == t;
    } else {
      ReadPrintedParams(ps[1..], t);
      ReadPrintedFirst(ps[0], PrintParams(ps[1..]) + t);
      Regroup("", PrintParam(ps[0]), PrintParams(ps[1..]), t);
      assert [ps[0]] + ps[1..] == ps;
    }
  }

  lemma ReadPrintedFirst(p: Param, rest: string)
    requires WellFormedParam(p)
    ensures ReadParams("" + (PrintParam(p) + rest)) == ([p] + ReadParams(rest).0, ReadParams(rest).1)
    ensures "" + PrintParam(p) == PrintParam(p)
  {
    ReadPrintedParam(p, rest);
    ParamsAtParam((PrintParam(p) + rest)[1..], p, rest);
    assert "" + (PrintParam(p) + rest) == PrintParam(p) + rest;
  }

  lemma NoneOf(s: string, stop: string)
    requires forall i :: 0 <= i < |s| ==> s[i] !in stop
    ensures Span(s, stop) == |s|
  {
  }

  lemma LinksAtTarget(target: string, after: string)
    requires '>' !in target
    ensures RawLinks("<" + target + ">" + after) ==
            [RawLink(TrimSpace(target), ReadParams(after).0)] + RawLinks(ReadParams(after).1)
  {
    var text := "<" + target + ">" + after;
    TargetSpan(target, after);
    assert TrimLeft(text, BETWEEN_LINKS) == text;
  }

  lemma TargetSpan(target: string, after: string)
    requires '>' !in target
    ensures var text, n := "<" + target + ">" + after, |target| + 1;
            Span(text, ">") == n && text[1..n] == target && text[n + 1..] == after
  {
    var open := "<" + target;
    var text := open + ">" + after;
    assert text == open + (">" + after);
    SpanAppend(open, ">" + after, ">");
    NoneOf(open, ">");
  }

  lemma ReadPrintedLink(l: RawLink, t: string)
    requires WellFormed(l) && (t == "" || t[0] == ',')
    ensures RawLinks(PrintLink(l) + t) == [l] + RawLinks(t)
  {
    var after := PrintParams(l.params) + t;
    assert PrintLink(l) + t == "<" + l.target + ">" + after;
    LinksAtTarget(l.target, after);
    ReadPrintedParams(l.params, t);
  }

  lemma SeparatorIsSkipped(b: string)
    ensures RawLinks(", " + b) == RawLinks(b)
  {
    assert (", " + b)[1..] == " " + b && (" " + b)[1..] == b;
    assert TrimLeft(", " + b, BETWEEN_LINKS) == TrimLeft(" " + b, BETWEEN_LINKS) == TrimLeft(b, BETWEEN_LINKS);
  }

  /** A printed list followed by the end or by a comma and arbitrary text is
      scanned as the list followed by that text's own links. */
  lemma {:induction false} ReadPrintedLinks(ls: seq<RawLink>, t: string)
    requires AllWellFormed(ls) && (t == "" || t[0] == ',')
    ensures RawLinks(PrintLinks(ls) + t) == ls + RawLinks(t)
  {
    if ls == [] {
      assert PrintLinks(ls) + t == t;
      assert [] + RawLinks(t) == RawLinks(t);
    } else if |ls| == 1 {
      ReadPrintedLink(ls[0], t);
      assert ls == [ls[0]];
    } else {
      ReadPrintedLinks(ls[1..], t);
      ReadPrintedStep(ls, t);
    }
  }

  lemma ReadPrintedStep(ls: seq<RawLink>, t: string)
    requires |ls| > 1 && WellFormed(ls[0])
    requires RawLinks(PrintLinks(ls[1..]) + t) == ls[1..] + RawLinks(t)
    ensures RawLinks(PrintLinks(ls) + t) == ls + RawLinks(t)
  {
    ReadPrintedCons(ls[0], PrintLinks(ls[1..]) + t);
    PrintedStep(ls, t);
    ConsAppend(ls[0], ls[1..], RawLinks(t));
    assert [ls[0]] + ls[1..] == ls;
  }

  lemma PrintedStep(ls: seq<RawLink>, t: string)
    requires |ls| > 1
    ensures PrintLinks(ls) + t == PrintLink(ls[0]) + (", " + (PrintLinks(ls[1..]) + t))
  {
    Regroup(PrintLink(ls[0]), ", ", PrintLinks(ls[1..]), t);
  }

  lemma ReadPrintedCons(l: RawLink, rest: string)
    requires WellFormed(l)
    ensures RawLinks(PrintLink(l) + (", " + rest)) == [l] + RawLinks(rest)
  {
    ReadPrintedLink(l, ", " + rest);
    SeparatorIsSkipped(rest);
  }

  /** Whatever follows a printed list, the list itself is read back. */
  lemma PrintedPrefix(ls: seq<RawLink>, b: string)
    requires AllWellFormed(ls)
    ensures RawLinks(PrintLinks(ls) + "," + b) == ls + RawLinks(b)
  {
    assert PrintLinks(ls) + "," + b == PrintLinks(ls) + ("," + b);
    ReadPrintedLinks(ls, "," + b);
    CommaIsSkipped(b);
  }

  lemma {:induction false} ParamsAreWellFormed(text: string)
    ensures forall i :: 0 <= i < |ReadParams(text).0| ==> WellFormedParam(ReadParams(text).0[i])
    decreases |text|
  {
    var rest := TrimLeft(text, BLANK);
    if rest != "" && rest[0] == ';' {
      var (p, rest') := ReadParam(rest[1..]);
      ParamsAreWellFormed(rest');
      NameIsWellFormed(TrimLeft(rest[1..], BLANK));
      assert ReadParams(text).0 == Named(p) + ReadParams(rest').0;
      assert p.name != "" ==> WellFormedParam(p);
    }
  }

  lemma NameIsWellFormed(text: string)
    ensures var name := ToLower(text[..Span(text, NAME_STOP)]);
            ToLower(name) == name && forall c :: c in name ==> c !in NAME_STOP
  {
    var n := Span(text, NAME_STOP);
    var name := ToLower(text[..n]);
    forall i | 0 <= i < n ensures name[i] !in NAME_STOP && LowerChar(name[i]) == name[i] {
      assert text[i] !in NAME_STOP;
    }
    assert ToLower(name) == name;
  }

  lemma {:induction false} LinksAreWellFormed(value: string)
    ensures AllWellFormed(RawLinks(value))
    decreases |value|
  {
    var rest := TrimLeft(value, BETWEEN_LINKS);
    if rest != "" && rest[0] == '<' {
      var n := Span(rest, ">");
      if n < |rest| {
        TrimSpaceFacts(rest[1..n]);
        ParamsAreWellFormed(rest[n + 1..]);
        LinksAreWellFormed(ReadParams(rest[n + 1..]).1);
      }
    } else {
      var i := Span(rest, ",");
      if i < |rest| {
        LinksAreWellFormed(rest[i..]);
      }
    }
  }

  /** Every header value, however malformed, is read as a list that survives
      printing and reading again. */
  lemma RoundTrip(value: string)
    ensures RawLinks(PrintLinks(RawLinks(value))) == RawLinks(value)
  {
    LinksAreWellFormed(value);
    ReadPrintedLinks(RawLinks(value), "");
    assert PrintLinks(RawLinks(value)) + "" == PrintLinks(RawLinks(value));
    assert RawLinks("") == [];
  }

  ghost predicate LinkWellFormed(l: Link) {
    '>' !in l.target && TrimSpace(l.target) == l.target &&
    forall r :: r in l.rel ==> Token(r) && ToLower(r) == r
  }

  lemma LowerToken(f: string)
    requires Token(f)
    ensures Token(ToLower(f)) && ToLower(ToLower(f)) == ToLower(f)
  {
    forall i | 0 <= i < |f| ensures ToLower(f)[i] !in SPACE && LowerChar(ToLower(f)[i]) == ToLower(f)[i] {
      assert f[i] in f;
    }
    assert ToLower(ToLower(f)) == ToLower(f);
  }

  lemma RelTypesAreTokens(rel: string)
    ensures forall r :: r in RelTypes(rel) ==> Token(r) && ToLower(r) == r
  {
    FieldsAreTokens(rel);
    forall i | 0 <= i < |Fields(rel)| ensures Token(RelTypes(rel)[i]) && ToLower(RelTypes(rel)[i]) == RelTypes(rel)[i] {
      assert Fields(rel)[i] in Fields(rel);
      LowerToken(Fields(rel)[i]);
    }
  }

  lemma {:induction false} InterpretWellFormed(ls: seq<RawLink>)
    requires AllWellFormed(ls)
    ensures forall l :: l in Interpret(ls) ==> LinkWellFormed(l)
  {
    if ls != [] {
      InterpretWellFormed(ls[1..]);
      if Kept(ls[0]) {
        RelTypesAreTokens(First(ls[0].params, "rel"));
      }
    }
  }

  lemma {:induction false} InterpretRelOnly(ls: seq<Link>)
    requires forall l :: l in ls ==> LinkWellFormed(l)
    ensures Interpret(RelOnlyAll(ls)) == ls
  {
    if ls != [] {
      var l, raw := ls[0], RelOnly(ls[0]);
      assert LinkWellFormed(l);
      assert RelOnlyAll(ls)[0] == raw && RelOnlyAll(ls)[1..] == RelOnlyAll(ls[1..]);
      assert raw.params[0].name == "rel";
      FieldsOfJoin(l.rel);
      forall i | 0 <= i < |l.rel| ensures ToLower(l.rel[i]) == l.rel[i] {
        assert l.rel[i] in l.rel;
      }
      assert RelTypes(Join(l.rel, " ")) == l.rel;
      forall m | m in ls[1..] ensures LinkWellFormed(m) {
        assert m in ls;
      }
      InterpretRelOnly(ls[1..]);
    }
  }

  /** The links of a header, written back as target and relation types only, are
      read as the same links. */
  lemma LinksRoundTrip(value: string)
    ensures Links(PrintLinks(RelOnlyAll(Links(value)))) == Links(value)
  {
    var ls := Links(value);
    LinksAreWellFormed(value);
    InterpretWellFormed(RawLinks(value));
    forall i | 0 <= i < |ls| ensures WellFormed(RelOnlyAll(ls)[i]) {
      assert ls[i] in ls;
      RelOnlyWellFormed(ls[i]);
    }
    ReadPrintedLinks(RelOnlyAll(ls), "");
    assert PrintLinks(RelOnlyAll(ls)) + "" == PrintLinks(RelOnlyAll(ls));
    assert RawLinks("") == [];
    assert RelOnlyAll(ls) + [] == RelOnlyAll(ls);
    InterpretRelOnly(ls);
  }

  lemma RelOnlyWellFormed(l: Link)
    requires LinkWellFormed(l)
    ensures WellFormed(RelOnly(l))
  {
    assert ToLower("rel") == "rel";
  }
}
