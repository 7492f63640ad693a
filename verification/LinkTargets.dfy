/** When combining field lines keeps the targets that callers get. */
module LinkTargets {
  import opened Text
  import opened LinkGrammar
  import opened LinkLaws

  // ---- a second line that no quoted string swallows unnoticed ----

  /** A target longer than n. */
  function Long(n: nat): string {
    seq(n + 1, _ => 'z')
  }

  const SECOND_REL := "; rel=r"

  /** One link of relation r, without a quote. */
  function Second(n: nat): string {
    "<" + Long(n) + ">" + SECOND_REL
  }

  lemma RelValue()
    ensures ReadValue(TrimLeft("r", BLANK)) == ("r", "")
  {
    var r := "r";
    assert TrimLeft(r, BLANK) == r && Span(r, TOKEN_STOP) == 1;
    assert r[..1] == r && r[1..] == "";
  }

  lemma RelRead()
    ensures ReadParam(" " + ("rel" + "=r")) == (Param("rel", "r"), "")
  {
    var p := Param("rel", "");
    assert WellFormedParam(p);
    NameOfPrinted("rel", "=r");
    assert ("=r")[1..] == "r";
    RelValue();
  }

  lemma RelParam()
    ensures ReadParams(SECOND_REL) == ([Param("rel", "r")], "")
  {
    var after := " " + ("rel" + "=r");
    RelRead();
    ParamsAtParam(after, Param("rel", "r"), "");
    assert ReadParams("") == ([], "");
    assert [Param("rel", "r")] + [] == [Param("rel", "r")];
    assert ";" + after == SECOND_REL;
  }

  lemma LongTarget(n: nat)
    ensures '>' !in Long(n) && ',' !in Long(n) && '"' !in Second(n) && TrimSpace(Long(n)) == Long(n)
  {
    assert Long(n)[0] !in SPACE && Long(n)[n] !in SPACE;
  }

  lemma SecondLinks(n: nat)
    ensures RawLinks(Second(n)) == [RawLink(Long(n), [Param("rel", "r")])]
  {
    LongTarget(n);
    LinksAtTarget(Long(n), SECOND_REL);
    RelParam();
    assert RawLinks("") == [];
  }

  lemma SecondTargets(n: nat)
    ensures Select(Links(Second(n)), "r") == [Long(n)]
  {
    SecondLinks(n);
    var ps := [Param("rel", "r")];
    assert ps[0].name == "rel" && Has(ps, "rel") && !Has(ps, "anchor") && First(ps, "rel") == "r";
    FieldsOfJoin(["r"]);
    assert Join(["r"], " ") == "r" && ToLower("r") == "r";
    assert RelTypes("r") == ["r"];
    assert Interpret([RawLink(Long(n), ps)]) == [Link(Long(n), ["r"])] + Interpret([]);
  }

  // ---- an open line swallows it ----

  predicate NoQuote(t: string) {
    '"' !in t
  }

  lemma {:induction false} NeverCloses(t: string)
    requires NoQuote(t)
    ensures ReadQuoted(t).1 == ""
  {
    if t != "" && t != "\\" {
      var rest := if t[0] == '\\' then t[2..] else t[1..];
      assert forall c :: c in rest ==> c in t;
      NeverCloses(rest);
    }
  }

  lemma {:induction false} QuoteStaysOpen(q: string, t: string)
    requires !QuoteCloses(q) && NoQuote(t) && StartsAtComma(t)
    ensures ReadQuoted(q + t).1 == ""
  {
    var w := q + t;
    if q == "" {
      assert w == t;
      NeverCloses(t);
    } else if q == "\\" {
      assert w[2..] == t[1..];
      assert forall c :: c in t[1..] ==> c in t;
      NeverCloses(t[1..]);
    } else if q[0] == '\\' {
      assert w[2..] == q[2..] + t;
      QuoteStaysOpen(q[2..], t);
    } else {
      assert w[1..] == q[1..] + t;
      QuoteStaysOpen(q[1..], t);
    }
  }

  lemma ParamStaysOpen(after: string, t: string)
    requires !ParamCloses(after) && NoQuote(t) && StartsAtComma(t)
    ensures ReadParam(after + t).1 == ""
  {
    NameAppend(after, t);
    var rest := ReadName(after).1;
    assert (rest + t)[1..] == rest[1..] + t;
    TrimBlankAppend(rest[1..], t);
    ValueStaysOpen(TrimLeft(rest[1..], BLANK), t);
  }

  lemma ValueStaysOpen(input: string, t: string)
    requires input != "" && input[0] == '"' && !QuoteCloses(input[1..]) && NoQuote(t) && StartsAtComma(t)
    ensures ReadValue(input + t).1 == ""
  {
    assert (input + t)[1..] == input[1..] + t;
    QuoteStaysOpen(input[1..], t);
  }

  lemma {:induction false} ParamsStayOpen(text: string, t: string)
    requires !ParamsClose(text) && NoQuote(t) && StartsAtComma(t)
    ensures ReadParams(text + t).1 == ""
    decreases |text|
  {
    TrimBlankAppend(text, t);
    var rest := TrimLeft(text, BLANK);
    assert (rest + t)[1..] == rest[1..] + t;
    if ParamCloses(rest[1..]) {
      ParamAppend(rest[1..], t);
      ParamsStayOpen(ReadParam(rest[1..]).1, t);
    } else {
      ParamStaysOpen(rest[1..], t);
      assert ReadParams("") == ([], "");
    }
  }

  lemma {:induction false} TrimLeftKeeps(s: string, cut: string, c: char)
    requires c in s && c !in cut
    ensures c in TrimLeft(s, cut)
  {
    if s[0] in cut {
      assert s == [s[0]] + s[1..];
      TrimLeftKeeps(s[1..], cut, c);
    }
  }

  lemma {:induction false} TrimRightKeeps(s: string, cut: string, c: char)
    requires c in s && c !in cut
    ensures c in TrimRight(s, cut)
  {
    if s[|s| - 1] in cut {
      assert s == s[..|s| - 1] + [s[|s| - 1]];
      TrimRightKeeps(s[..|s| - 1], cut, c);
    }
  }

  predicate Absent(ls: seq<RawLink>, target: string) {
    forall i :: 0 <= i < |ls| ==> ls[i].target != target
  }

  lemma TrimKeeps(s: string, c: char)
    requires c in s && c !in SPACE
    ensures c in TrimSpace(s)
  {
    TrimLeftKeeps(s, SPACE, c);
    TrimRightKeeps(TrimLeft(s, SPACE), SPACE, c);
  }

  lemma SecondParts(n: nat)
    ensures "," + Second(n) == (",<" + Long(n)) + (">" + SECOND_REL) 
    ensures '>' !in ",<" + Long(n) && ',' in ",<" + Long(n)
  {
    LongTarget(n);
  }

  lemma Regrouped(a: string, b: string, c: string, d: string, e: string)
    ensures (a + b) + (c + (d + e)) == a + (b + c) + d + e
  {
  }

  lemma OpenTarget(inside: string, more: string, after: string)
    requires '>' !in inside && '>' !in more && ',' in more
    ensures var text := ("<" + inside) + (more + (">" + after));
            && LinksAt(text) == [RawLink(TrimSpace(inside + more), ReadParams(after).0)] + RawLinks(ReadParams(after).1)
            && ',' in TrimSpace(inside + more)
  {
    Regrouped("<", inside, more, ">", after);
    LinksAtTarget(inside + more, after);
    TrimKeeps(inside + more, ',');
    StartsHere(("<" + inside) + (more + (">" + after)));
  }

  lemma NoEnd(rest: string)
    requires rest != "" && rest[0] == '<' && Span(rest, ">") == |rest|
    ensures rest == "<" + rest[1..] && '>' !in rest[1..]
  {
    forall i | 0 <= i < |rest| ensures rest[i] != '>' { assert rest[i] !in ">"; }
  }

  lemma TargetRunsOn(rest: string, n: nat)
    requires rest != "" && rest[0] == '<' && Span(rest, ">") == |rest|
    ensures Absent(LinksAt(rest + ("," + Second(n))), Long(n))
  {
    NoEnd(rest);
    SecondParts(n);
    OpenTarget(rest[1..], ",<" + Long(n), SECOND_REL);
    RelParam();
    assert RawLinks("") == [];
    LongTarget(n);
    AnotherTarget(TrimSpace(rest[1..] + (",<" + Long(n))), ReadParams(SECOND_REL).0, Long(n));
  }

  lemma AnotherTarget(target: string, ps: seq<Param>, other: string)
    requires ',' in target && ',' !in other
    ensures Absent([RawLink(target, ps)] + [], other)
  {
  }

  lemma StartsHere(text: string)
    requires text != "" && text[0] == '<'
    ensures RawLinks(text) == LinksAt(text)
  {
    assert TrimLeft(text, BETWEEN_LINKS) == text;
  }

  lemma {:induction false} OpenSwallows(value: string, n: nat)
    requires !Closed(value) && |value| <= n
    ensures Absent(RawLinks(value + ("," + Second(n))), Long(n))
    decreases |value|, 1
  {
    TrimLeftAppend(value, "," + Second(n), BETWEEN_LINKS);
    OpenSwallowsAt(TrimLeft(value, BETWEEN_LINKS), n);
  }

  lemma {:induction false} OpenSwallowsAt(rest: string, n: nat)
    requires rest != "" && rest[0] !in BETWEEN_LINKS && !ClosedAt(rest) && |rest| <= n
    ensures Absent(LinksAt(rest + ("," + Second(n))), Long(n))
    decreases |rest|, 0
  {
    var t := "," + Second(n);
    if rest[0] != '<' {
      JunkAppend(rest, t);
      OpenSwallows(rest[Span(rest, ",")..], n);
    } else if Span(rest, ">") == |rest| {
      TargetRunsOn(rest, n);
    } else {
      LinkUnfold(rest, t);
      ShortTarget(rest);
      ParamsSwallow(AfterTarget(rest), n);
      var end := ReadParams(AfterTarget(rest) + t).1;
      if ParamsClose(AfterTarget(rest)) {
        OpenSwallows(ReadParams(AfterTarget(rest)).1, n);
      }
      AbsentCons(RawLink(Target(rest), ReadParams(AfterTarget(rest) + t).0), RawLinks(end), Long(n));
    }
  }

  lemma AbsentCons(l: RawLink, ls: seq<RawLink>, target: string)
    requires l.target != target && Absent(ls, target)
    ensures Absent([l] + ls, target)
  {
  }

  lemma ParamsSwallow(text: string, n: nat)
    ensures ParamsClose(text) ==>
      ReadParams(text + ("," + Second(n))).1 == ReadParams(text).1 + ("," + Second(n))
    ensures !ParamsClose(text) ==> RawLinks(ReadParams(text + ("," + Second(n))).1) == []
  {
    if ParamsClose(text) {
      ParamsAppend(text, "," + Second(n));
    } else {
      LongTarget(n);
      ParamsStayOpen(text, "," + Second(n));
      assert RawLinks("") == [];
    }
  }

  lemma ShortTarget(rest: string)
    requires rest != "" && rest[0] == '<' && Span(rest, ">") < |rest|
    ensures |Target(rest)| <= |rest| && |AfterTarget(rest)| < |rest|
  {
  }

  // ---- targets ----

  lemma SelectFirst(l: Link, ls: seq<Link>, rel: string)
    ensures Select([l] + ls, rel) == (if rel in l.rel then [l.target] else []) + Select(ls, rel)
  {
    assert ([l] + ls)[1..] == ls;
  }

  lemma {:induction false} SelectedIsRead(ls: seq<RawLink>, rel: string, target: string)
    requires Absent(ls, target)
    ensures target !in Select(Interpret(ls), rel)
  {
    if ls != [] {
      SelectedIsRead(ls[1..], rel, target);
      if Kept(ls[0]) {
        SelectFirst(Link(ls[0].target, RelTypes(First(ls[0].params, "rel"))), Interpret(ls[1..]), rel);
      }
    }
  }

  lemma OpenLosesTarget(a: string) returns (b: string)
    requires !Closed(a)
    ensures Targets([a, b], "r") != Targets([a + "," + b], "r")
  {
    b := Second(|a|);
    SecondTargets(|a|);
    TargetsOne(b, "r");
    TargetsOne(a + "," + b, "r");
    assert [a, b][1..] == [b];
    assert Long(|a|) in Targets([a, b], "r");
    assert a + "," + b == a + ("," + b);
    OpenSwallows(a, |a|);
    SelectedIsRead(RawLinks(a + "," + b), "r", Long(|a|));
  }

  /** Two field lines give the same targets apart and joined by a comma, whatever the
      second one and the relation type are, exactly when the first is closed. */
  lemma CombineTargetsIff(a: string)
    ensures Closed(a) <==> forall b, rel :: Targets([a, b], rel) == Targets([a + "," + b], rel)
  {
    if Closed(a) {
      forall b, rel ensures Targets([a, b], rel) == Targets([a + "," + b], rel) {
        CombinedLines([a, b], rel);
        assert Join([a, b], ",") == a + "," + b;
      }
    } else {
      var b := OpenLosesTarget(a);
    }
  }
}
