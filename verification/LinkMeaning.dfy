/** What the links of a header mean to the caller, in terms of their text: which of them
    count, for which relation types, and with which target. */
module LinkMeaning {
  import opened Seqs
  import opened Text
  import opened LinkGrammar
  import opened LinkLaws
  import opened LinkTexts

  // ---- the meaning of a text ----

  predicate Called(p: SpelledParam, name: string) {
    ToLower(p.name) == name
  }

  /** Position i is the first parameter called rel. */
  predicate FirstRel(l: SpelledLink, i: nat) {
    && i < |l.params| && Called(l.params[i], "rel")
    && forall j :: 0 <= j < i ==> !Called(l.params[j], "rel")
  }

  /** The link describes another resource than the one requested. */
  predicate Anchored(l: SpelledLink) {
    exists i :: 0 <= i < |l.params| && Called(l.params[i], "anchor")
  }

  /** The text lists the relation type, in any letter case. */
  predicate Lists(text: string, rel: string) {
    exists f :: f in Fields(text) && ToLower(f) == rel
  }

  /** The link counts for the relation type. */
  predicate Offers(l: SpelledLink, rel: string) {
    !Anchored(l) && exists i: nat :: i < |l.params| && FirstRel(l, i) && Lists(Value(l.params[i].value), rel)
  }

  /** The trimmed targets of the links that count, in order. */
  function Offered(es: seq<Element>, rel: string): seq<string> {
    if es == [] then []
    else (if Offers(es[0].link, rel) then [TrimSpace(es[0].link.target)] else []) + Offered(es[1..], rel)
  }

  function OfferedByAll(lines: seq<seq<Element>>, rel: string): seq<string> {
    if lines == [] then [] else Offered(lines[0], rel) + OfferedByAll(lines[1..], rel)
  }

  // ---- one link ----

  lemma {:induction false} MeantAt(ps: seq<SpelledParam>, i: nat)
    requires i < |ps|
    ensures |ParamsMeant(ps)| == |ps| && ParamsMeant(ps)[i] == Param(ToLower(ps[i].name), Value(ps[i].value))
  {
    if i > 0 {
      MeantAt(ps[1..], i - 1);
    } else if |ps| > 1 {
      MeantAt(ps[1..], 0);
    }
  }

  lemma HasMeant(ps: seq<SpelledParam>, name: string)
    ensures Has(ParamsMeant(ps), name) <==> exists i :: 0 <= i < |ps| && Called(ps[i], name)
  {
    if ps != [] { MeantAt(ps, 0); }
    if Has(ParamsMeant(ps), name) {
      var i :| 0 <= i < |ParamsMeant(ps)| && ParamsMeant(ps)[i].name == name;
      MeantAt(ps, i);
      assert Called(ps[i], name);
    }
    if i :| 0 <= i < |ps| && Called(ps[i], name) {
      MeantAt(ps, i);
    }
  }

  lemma {:induction false} FirstIs(ps: seq<Param>, name: string, i: nat)
    requires i < |ps| && ps[i].name == name && forall j :: 0 <= j < i ==> ps[j].name != name
    ensures Has(ps, name) && First(ps, name) == ps[i].value
  {
    if i > 0 {
      FirstIs(ps[1..], name, i - 1);
    }
  }

  lemma FirstMeant(l: SpelledLink, i: nat)
    requires FirstRel(l, i)
    ensures Has(ParamsMeant(l.params), "rel") && First(ParamsMeant(l.params), "rel") == Value(l.params[i].value)
  {
    MeantAt(l.params, i);
    forall j | 0 <= j <= i ensures ParamsMeant(l.params)[j].name == "rel" <==> Called(l.params[j], "rel") {
      MeantAt(l.params, j);
    }
    FirstIs(ParamsMeant(l.params), "rel", i);
  }

  lemma {:induction false} SomeFirst(l: SpelledLink, i: nat)
    requires i < |l.params| && Called(l.params[i], "rel")
    ensures exists k: nat :: k <= i && FirstRel(l, k)
  {
    if j: nat :| j < i && Called(l.params[j], "rel") {
      SomeFirst(l, j);
    } else {
      assert FirstRel(l, i);
    }
  }

  lemma MeantIsKept(l: SpelledLink)
    ensures Kept(LinkMeant(l)) <==> (!Anchored(l) && exists i: nat :: i < |l.params| && FirstRel(l, i))
  {
    HasMeant(l.params, "rel");
    HasMeant(l.params, "anchor");
    if i :| 0 <= i < |l.params| && Called(l.params[i], "rel") {
      SomeFirst(l, i);
    }
  }

  lemma TextLinks(l: SpelledLink)
    requires LinkOK(l)
    ensures Links(LinkText(l)) == Interpret([LinkMeant(l)])
  {
    LinkRead(l, "");
    assert LinkText(l) + "" == LinkText(l) && RawLinks("") == [];
    assert [LinkMeant(l)] + [] == [LinkMeant(l)];
  }

  /** A link is passed over exactly when it has no rel or has an anchor; otherwise it has
      the trimmed target and the lowercased relation types of its first rel. */
  lemma LinkCounts(l: SpelledLink)
    requires LinkOK(l)
    ensures Links(LinkText(l)) == [] <==> Anchored(l) || forall i :: 0 <= i < |l.params| ==> !Called(l.params[i], "rel")
    ensures forall i: nat :: FirstRel(l, i) && !Anchored(l) ==>
      Links(LinkText(l)) == [Link(TrimSpace(l.target), LowerAll(Fields(Value(l.params[i].value))))]
  {
    TextLinks(l);
    MeantIsKept(l);
    InterpretOne(LinkMeant(l));
    if i :| 0 <= i < |l.params| && Called(l.params[i], "rel") { SomeFirst(l, i); }
    forall i: nat | FirstRel(l, i) && !Anchored(l)
      ensures Links(LinkText(l)) == [Link(TrimSpace(l.target), LowerAll(Fields(Value(l.params[i].value))))]
    {
      FirstMeant(l, i);
    }
  }

  lemma InterpretOne(l: RawLink)
    ensures Interpret([l]) == if Kept(l) then [Link(l.target, RelTypes(First(l.params, "rel")))] else []
  {
    assert [l][1..] == [];
  }

  // ---- targets ----

  lemma OfferedOne(l: SpelledLink, rel: string)
    ensures Select(Interpret([LinkMeant(l)]), rel) == if Offers(l, rel) then [TrimSpace(l.target)] else []
  {
    MeantIsKept(l);
    InterpretOne(LinkMeant(l));
    if Kept(LinkMeant(l)) {
      var i: nat :| i < |l.params| && FirstRel(l, i);
      FirstMeant(l, i);
      var text := Value(l.params[i].value);
      ListsLower(text, rel);
      forall k: nat | FirstRel(l, k) ensures k == i {}
      assert Offers(l, rel) <==> Lists(text, rel);
      assert [Link(TrimSpace(l.target), RelTypes(text))][1..] == [];
    }
  }

  lemma ListsLower(text: string, rel: string)
    ensures rel in RelTypes(text) <==> Lists(text, rel)
  {
    var fs := Fields(text);
    if rel in LowerAll(fs) {
      var i :| 0 <= i < |fs| && LowerAll(fs)[i] == rel;
      assert fs[i] in fs && ToLower(fs[i]) == rel;
    }
    if f :| f in fs && ToLower(f) == rel {
      var i :| 0 <= i < |fs| && fs[i] == f;
      assert LowerAll(fs)[i] == rel;
    }
  }

  lemma {:induction false} MeantOffers(es: seq<Element>, rel: string)
    ensures Select(Interpret(ListMeant(es)), rel) == Offered(es, rel)
  {
    if es != [] {
      MeantOffers(es[1..], rel);
      OfferedOne(es[0].link, rel);
      InterpretAppend([LinkMeant(es[0].link)], ListMeant(es[1..]));
      SelectAppend(Interpret([LinkMeant(es[0].link)]), Interpret(ListMeant(es[1..])), rel);
    }
  }

  lemma LineTargets(es: seq<Element>, rel: string)
    requires ListOK(es)
    ensures Select(Links(ListText(es)), rel) == Offered(es, rel)
  {
    ReadSpelledLinks(es, "");
    assert ListText(es) + "" == ListText(es) && RawLinks("") == [];
    assert ListMeant(es) + [] == ListMeant(es);
    MeantOffers(es, rel);
  }

  /** The targets of field lines in any spelling are those of the links that have no
      anchor and list the relation type in their first rel. */
  lemma {:induction false} TargetsAreOffered(headers: seq<string>, lines: seq<seq<Element>>, rel: string)
    requires |headers| == |lines|
    requires forall i :: 0 <= i < |lines| ==> ListOK(lines[i]) && headers[i] == ListText(lines[i])
    ensures Targets(headers, rel) == OfferedByAll(lines, rel)
  {
    if lines != [] {
      TargetsAreOffered(headers[1..], lines[1..], rel);
      LineTargets(lines[0], rel);
    }
  }
}
