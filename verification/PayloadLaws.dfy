/** What a signing payload covers. */
module PayloadLaws {
  import opened Json
  import opened JsonText
  import opened Payload

  /** Two documents have the same signing payload exactly when, without the members
      a signature cannot cover, they are equal up to member order at every depth. */
  lemma PayloadDecidesSame(a: Json, b: Json)
    requires UniqueNamed(a) && UniqueNamed(b)
    ensures SigningPayload(a) == SigningPayload(b) <==> Same(Strip(a), Strip(b))
  {
    StripUnique(a);
    StripUnique(b);
    CanonDecidesSame(Strip(a), Strip(b));
    if SigningPayload(a) == SigningPayload(b) {
      WriteIsInjective(Canon(Strip(a)), Canon(Strip(b)));
    }
  }

  /** Documents with the same payload agree on every top-level member except
      additionalSignatures, to any depth; of signature only the jws may differ. */
  lemma Covered(a: Json, b: Json, m: Member) returns (n: Member)
    requires a.Obj? && b.Obj? && UniqueNamed(a) && UniqueNamed(b)
    requires SigningPayload(a) == SigningPayload(b)
    requires m in a.members && m.name != ADDITIONAL_SIGNATURES
    ensures n in b.members && n.name == m.name && Same(StripValue(m).value, StripValue(n).value)
    ensures m.name != SIGNATURE || !m.value.Obj? ==> StripValue(m) == m
  {
    PayloadDecidesSame(a, b);
    var xs, ys := Without(a.members, ADDITIONAL_SIGNATURES), Without(b.members, ADDITIONAL_SIGNATURES);
    var i := KeptAt(a.members, m);
    assert StripValues(xs)[i] == StripValue(m);
    var j := SamePartner(StripValues(xs), StripValues(ys), i);
    n := ys[j];
    assert StripValues(ys)[j] == StripValue(n) && n in ys;
  }

  lemma KeptAt(ms: seq<Member>, m: Member) returns (i: nat)
    requires m in ms && m.name != ADDITIONAL_SIGNATURES
    ensures i < |Without(ms, ADDITIONAL_SIGNATURES)| && Without(ms, ADDITIONAL_SIGNATURES)[i] == m
  {
    assert m in Without(ms, ADDITIONAL_SIGNATURES);
    i :| 0 <= i < |Without(ms, ADDITIONAL_SIGNATURES)| && Without(ms, ADDITIONAL_SIGNATURES)[i] == m;
  }

  lemma SamePartner(ms: seq<Member>, ns: seq<Member>, i: nat) returns (j: nat)
    requires Same(Obj(ms), Obj(ns)) && i < |ms|
    ensures j < |ns| && ms[i].name == ns[j].name && Same(ms[i].value, ns[j].value)
  {
    assert HasSame(ms[i], ns);
    j :| 0 <= j < |ns| && ms[i].name == ns[j].name && Same(ms[i].value, ns[j].value);
  }

  // ---- the payload in terms of the members ----

  /** Some member of ns has the name of m and a value equal to it up to member order. */
  ghost predicate Matched(m: Member, ns: seq<Member>) {
    exists n :: n in ns && n.name == m.name && Same(m.value, n.value)
  }

  /** Every member of the signature but its jws is matched. */
  ghost predicate SignatureMatched(ms: seq<Member>, ns: seq<Member>) {
    forall m :: m in ms && m.name != "jws" ==> Matched(m, ns)
  }

  ghost predicate ValueMatched(m: Member, n: Member) {
    if m.name == "signature" && m.value.Obj?
    then n.value.Obj? && SignatureMatched(m.value.members, n.value.members)
         && SignatureMatched(n.value.members, m.value.members)
    else Same(m.value, n.value)
  }

  ghost predicate HasMatch(m: Member, ns: seq<Member>) {
    exists n :: n in ns && n.name == m.name && ValueMatched(m, n)
  }

  /** Every member but additionalSignatures is matched, in a signature all but the jws. */
  ghost predicate AllMatched(ms: seq<Member>, ns: seq<Member>) {
    forall m :: m in ms && m.name != "additionalSignatures" ==> HasMatch(m, ns)
  }

  lemma SameIff(ms: seq<Member>, ns: seq<Member>)
    ensures Same(Obj(ms), Obj(ns)) <==> (forall m :: m in ms ==> Matched(m, ns)) && Names(ms) == Names(ns)
  {
    forall i | 0 <= i < |ms| ensures HasSame(ms[i], ns) <==> Matched(ms[i], ns) {
      if HasSame(ms[i], ns) {
        var j :| 0 <= j < |ns| && ms[i].name == ns[j].name && Same(ms[i].value, ns[j].value);
        assert ns[j] in ns;
      }
      if Matched(ms[i], ns) {
        var n :| n in ns && n.name == ms[i].name && Same(ms[i].value, n.value);
        var j :| 0 <= j < |ns| && ns[j] == n;
      }
    }
    if Same(Obj(ms), Obj(ns)) {
      forall m | m in ms ensures Matched(m, ns) {
        var i :| 0 <= i < |ms| && ms[i] == m;
      }
    }
    if forall m :: m in ms ==> Matched(m, ns) {
      forall i | 0 <= i < |ms| ensures HasSame(ms[i], ns) { assert ms[i] in ms; }
    }
  }

  ghost predicate HasName(name: string, ns: seq<Member>) {
    exists n :: n in ns && n.name == name
  }

  lemma NamesMatched(ms: seq<Member>, ns: seq<Member>, omitted: string)
    requires forall m :: m in ms && m.name != omitted ==> HasName(m.name, ns)
    ensures Names(Without(ms, omitted)) <= Names(Without(ns, omitted))
  {
    forall name | name in Names(Without(ms, omitted)) ensures name in Names(Without(ns, omitted)) {
      var m :| m in Without(ms, omitted) && m.name == name;
      var n :| n in ns && n.name == m.name;
      assert n in Without(ns, omitted);
    }
  }

  lemma WithoutMatched(ms: seq<Member>, ns: seq<Member>, m: Member)
    requires m.name != "jws"
    ensures Matched(m, Without(ns, "jws")) <==> Matched(m, ns)
  {
    if Matched(m, ns) {
      var n :| n in ns && n.name == m.name && Same(m.value, n.value);
      assert n in Without(ns, "jws");
    }
  }

  /** Signatures are equal without their jws exactly when both match each other. */
  lemma SignatureIff(ms: seq<Member>, ns: seq<Member>)
    requires UniqueNamed(Obj(ms)) && UniqueNamed(Obj(ns))
    ensures Same(Obj(Without(ms, "jws")), Obj(Without(ns, "jws"))) <==>
            SignatureMatched(ms, ns) && SignatureMatched(ns, ms)
  {
    if Same(Obj(Without(ms, "jws")), Obj(Without(ns, "jws"))) {
      StripsUnique(ms);
      StripsUnique(ns);
      SameBack(Obj(Without(ms, "jws")), Obj(Without(ns, "jws")));
      SameMatches(ms, ns);
      SameMatches(ns, ms);
    }
    if SignatureMatched(ms, ns) && SignatureMatched(ns, ms) {
      MatchedIsSame(ms, ns);
    }
  }

  lemma SameMatches(ms: seq<Member>, ns: seq<Member>)
    requires Same(Obj(Without(ms, "jws")), Obj(Without(ns, "jws")))
    ensures SignatureMatched(ms, ns)
  {
    SameIff(Without(ms, "jws"), Without(ns, "jws"));
    forall m | m in ms && m.name != "jws" ensures Matched(m, ns) {
      WithoutMatched(ms, ns, m);
      assert m in Without(ms, "jws");
    }
  }

  lemma MatchedIsSame(ms: seq<Member>, ns: seq<Member>)
    requires SignatureMatched(ms, ns) && SignatureMatched(ns, ms)
    ensures Same(Obj(Without(ms, "jws")), Obj(Without(ns, "jws")))
  {
    SameIff(Without(ms, "jws"), Without(ns, "jws"));
    forall m | m in Without(ms, "jws") ensures Matched(m, Without(ns, "jws")) {
      WithoutMatched(ms, ns, m);
    }
    SignatureNames(ms, ns);
    SignatureNames(ns, ms);
  }

  lemma SignatureNames(ms: seq<Member>, ns: seq<Member>)
    requires SignatureMatched(ms, ns)
    ensures Names(Without(ms, "jws")) <= Names(Without(ns, "jws"))
  {
    forall m | m in ms && m.name != "jws" ensures HasName(m.name, ns) { assert Matched(m, ns); }
    NamesMatched(ms, ns, "jws");
  }

  lemma StripsUnique(ms: seq<Member>)
    requires UniqueNamed(Obj(ms))
    ensures UniqueNamed(Obj(Without(ms, "jws")))
  {
    StripValueUnique(Member(SIGNATURE, Obj(ms)));
  }

  lemma SameBack(a: Json, b: Json)
    requires UniqueNamed(a) && UniqueNamed(b) && Same(a, b)
    ensures Same(b, a)
  {
    CanonDecidesSame(a, b);
    CanonDecidesSame(b, a);
  }

  lemma ValueIff(m: Member, n: Member)
    requires m.name == n.name && UniqueNamed(m.value) && UniqueNamed(n.value)
    ensures Same(StripValue(m).value, StripValue(n).value) <==> ValueMatched(m, n)
  {
    if m.name == "signature" && m.value.Obj? && n.value.Obj? {
      SignatureIff(m.value.members, n.value.members);
    }
  }

  lemma KeptIff(ms: seq<Member>, ns: seq<Member>, m: Member)
    requires UniqueNamed(Obj(ms)) && UniqueNamed(Obj(ns)) && m in ms && m.name != "additionalSignatures"
    ensures Matched(StripValue(m), StripValues(Without(ns, "additionalSignatures"))) <==> HasMatch(m, ns)
  {
    if Matched(StripValue(m), StripValues(Without(ns, "additionalSignatures"))) {
      MatchedIsKept(ms, ns, m);
    }
    if HasMatch(m, ns) {
      KeptIsMatched(ms, ns, m);
    }
  }

  lemma MatchedIsKept(ms: seq<Member>, ns: seq<Member>, m: Member)
    requires UniqueNamed(Obj(ms)) && UniqueNamed(Obj(ns)) && m in ms
    requires Matched(StripValue(m), StripValues(Without(ns, "additionalSignatures")))
    ensures HasMatch(m, ns)
  {
    var kept := Without(ns, "additionalSignatures");
    var x :| x in StripValues(kept) && x.name == m.name && Same(StripValue(m).value, x.value);
    var n := Unstripped(kept, x);
    UniqueAt(ms, m);
    UniqueAt(ns, n);
    ValueIff(m, n);
  }

  lemma Unstripped(kept: seq<Member>, x: Member) returns (n: Member)
    requires x in StripValues(kept)
    ensures n in kept && x == StripValue(n)
  {
    var j :| 0 <= j < |kept| && StripValues(kept)[j] == x;
    n := kept[j];
  }

  lemma KeptIsMatched(ms: seq<Member>, ns: seq<Member>, m: Member)
    requires UniqueNamed(Obj(ms)) && UniqueNamed(Obj(ns)) && m in ms && m.name != "additionalSignatures"
    requires HasMatch(m, ns)
    ensures Matched(StripValue(m), StripValues(Without(ns, "additionalSignatures")))
  {
    var kept := Without(ns, "additionalSignatures");
    var n :| n in ns && n.name == m.name && ValueMatched(m, n);
    UniqueAt(ms, m);
    UniqueAt(ns, n);
    ValueIff(m, n);
    assert n in kept;
    var j :| 0 <= j < |kept| && kept[j] == n;
    assert StripValues(kept)[j] == StripValue(n);
  }

  lemma UniqueAt(ms: seq<Member>, m: Member)
    requires UniqueNamed(Obj(ms)) && m in ms
    ensures UniqueNamed(m.value)
  {
    var i :| 0 <= i < |ms| && ms[i] == m;
  }

  lemma NamesStripped(ms: seq<Member>)
    ensures Names(StripValues(ms)) == Names(ms)
  {
    forall name ensures name in Names(StripValues(ms)) <==> name in Names(ms) {
      if name in Names(ms) {
        var i :| 0 <= i < |ms| && ms[i].name == name;
        assert StripValues(ms)[i] in StripValues(ms);
      }
      if x :| x in StripValues(ms) && x.name == name {
        var i :| 0 <= i < |ms| && StripValues(ms)[i] == x;
        assert ms[i] in ms;
      }
    }
  }

  lemma StrippedMatch(ms: seq<Member>, ns: seq<Member>)
    requires UniqueNamed(Obj(ms)) && UniqueNamed(Obj(ns))
    ensures (forall x :: x in StripValues(Without(ms, "additionalSignatures")) ==>
               Matched(x, StripValues(Without(ns, "additionalSignatures")))) <==> AllMatched(ms, ns)
  {
    var xs, ys := Without(ms, "additionalSignatures"), Without(ns, "additionalSignatures");
    forall m | m in xs ensures Matched(StripValue(m), StripValues(ys)) <==> HasMatch(m, ns) { KeptIff(ms, ns, m); }
    if forall x :: x in StripValues(xs) ==> Matched(x, StripValues(ys)) {
      forall m | m in xs ensures HasMatch(m, ns) {
        var i :| 0 <= i < |xs| && xs[i] == m;
        assert StripValues(xs)[i] in StripValues(xs);
      }
    }
    if AllMatched(ms, ns) {
      forall x | x in StripValues(xs) ensures Matched(x, StripValues(ys)) {
        var i :| 0 <= i < |xs| && StripValues(xs)[i] == x;
        assert xs[i] in xs;
      }
    }
  }

  /** Two objects have one signing payload if and only if every member of either but
      additionalSignatures is matched in the other: of a signature object every member but
      the jws, and everything else as a whole, up to member order. */
  lemma PayloadIff(a: Json, b: Json)
    requires a.Obj? && b.Obj? && UniqueNamed(a) && UniqueNamed(b)
    ensures SigningPayload(a) == SigningPayload(b) <==>
            AllMatched(a.members, b.members) && AllMatched(b.members, a.members)
  {
    PayloadDecidesSame(a, b);
    PayloadDecidesSame(b, a);
    MatchedNames(a.members, b.members);
    StrippedMatch(a.members, b.members);
    StrippedMatch(b.members, a.members);
    SameIff(Strip(a).members, Strip(b).members);
    SameIff(Strip(b).members, Strip(a).members);
  }

  lemma MatchedNames(ms: seq<Member>, ns: seq<Member>)
    ensures AllMatched(ms, ns) && AllMatched(ns, ms) ==>
              Names(StripValues(Without(ms, ADDITIONAL_SIGNATURES))) ==
              Names(StripValues(Without(ns, ADDITIONAL_SIGNATURES)))
  {
    NamesStripped(Without(ms, ADDITIONAL_SIGNATURES));
    NamesStripped(Without(ns, ADDITIONAL_SIGNATURES));
    if AllMatched(ms, ns) && AllMatched(ns, ms) {
      forall m | m in ms && m.name != ADDITIONAL_SIGNATURES ensures HasName(m.name, ns) {
        assert HasMatch(m, ns);
      }
      forall m | m in ns && m.name != ADDITIONAL_SIGNATURES ensures HasName(m.name, ms) {
        assert HasMatch(m, ms);
      }
      NamesMatched(ms, ns, ADDITIONAL_SIGNATURES);
      NamesMatched(ns, ms, ADDITIONAL_SIGNATURES);
    }
  }

  // ---- attaching a signature ----

  function AttachValue(m: Member, text: string): Member {
    if m.name == SIGNATURE && m.value.Obj?
    then Member(m.name, Obj(Without(m.value.members, JWS) + [Member(JWS, Str(text))]))
    else m
  }

  /** The document with text as the jws of its signature object. */
  function Attach(doc: Json, text: string): Json
    requires doc.Obj?
  {
    Obj(seq(|doc.members|, i requires 0 <= i < |doc.members| => AttachValue(doc.members[i], text)))
  }

  lemma {:induction false} WithoutAppend(ms: seq<Member>, ns: seq<Member>, name: string)
    ensures Without(ms + ns, name) == Without(ms, name) + Without(ns, name)
  {
    if ms == [] {
      assert ms + ns == ns;
    } else {
      assert (ms + ns)[1..] == ms[1..] + ns;
      WithoutAppend(ms[1..], ns, name);
    }
  }

  lemma StripAttached(m: Member, text: string)
    ensures StripValue(AttachValue(m, text)) == StripValue(m)
    ensures AttachValue(m, text).name == m.name
  {
    if m.name == SIGNATURE && m.value.Obj? {
      RemoveAdded(m.value.members, Member(JWS, Str(text)));
    }
  }

  lemma RemoveAdded(ms: seq<Member>, m: Member)
    ensures Without(Without(ms, m.name) + [m], m.name) == Without(ms, m.name)
    ensures Without(ms + [m], m.name) == Without(ms, m.name)
  {
    WithoutAppend(Without(ms, m.name), [m], m.name);
    WithoutAppend(ms, [m], m.name);
    WithoutAbsent(Without(ms, m.name), m.name);
    assert Without([m], m.name) == [];
  }

  lemma {:induction false} WithoutAttached(ms: seq<Member>, text: string)
    ensures StripValues(Without(Attach(Obj(ms), text).members, ADDITIONAL_SIGNATURES)) ==
            StripValues(Without(ms, ADDITIONAL_SIGNATURES))
  {
    if ms != [] {
      var attached := Attach(Obj(ms), text).members;
      assert attached[1..] == Attach(Obj(ms[1..]), text).members;
      WithoutAttached(ms[1..], text);
      StripAttached(ms[0], text);
      StripFirst(attached);
      StripFirst(ms);
    }
  }

  lemma StripFirst(ms: seq<Member>)
    requires ms != []
    ensures StripValues(Without(ms, ADDITIONAL_SIGNATURES)) ==
            (if ms[0].name == ADDITIONAL_SIGNATURES then [] else [StripValue(ms[0])]) +
            StripValues(Without(ms[1..], ADDITIONAL_SIGNATURES))
  {
    var rest := Without(ms[1..], ADDITIONAL_SIGNATURES);
    StripValuesCons(ms[0], rest);
    assert [] + rest == rest && [] + StripValues(rest) == StripValues(rest);
  }

  lemma StripValuesCons(m: Member, ms: seq<Member>)
    ensures StripValues([m] + ms) == [StripValue(m)] + StripValues(ms)
  {
    var all := [m] + ms;
    var rest := StripValues(ms);
    forall i | 0 <= i < |all| ensures StripValues(all)[i] == ([StripValue(m)] + rest)[i] {
      StripValuesAt(all, i);
      if i > 0 {
        StripValuesAt(ms, i - 1);
        assert all[i] == ms[i - 1];
      }
    }
  }

  lemma StripValuesAt(ms: seq<Member>, i: nat)
    requires i < |ms|
    ensures StripValues(ms)[i] == StripValue(ms[i])
  {
  }

  lemma AttachedUnique(m: Member, text: string)
    requires UniqueNamed(m.value)
    ensures UniqueNamed(AttachValue(m, text).value)
  {
    if m.name == SIGNATURE && m.value.Obj? {
      StripValueUnique(Member(SIGNATURE, m.value));
      AddedUnique(Without(m.value.members, JWS), Member(JWS, Str(text)));
    }
  }

  lemma AddedUnique(ms: seq<Member>, m: Member)
    requires UniqueNamed(Obj(ms)) && UniqueNamed(m.value) && forall x :: x in ms ==> x.name != m.name
    ensures UniqueNamed(Obj(ms + [m]))
  {
    assert forall i :: 0 <= i < |ms| ==> ms[i] in ms;
  }

  /** Signing and then attaching the signature leaves the payload as it was signed, and so
      does adding further signatures where there are none; the result is still a document
      that has a payload. */
  lemma AttachKeepsPayload(doc: Json, text: string, more: Json)
    requires doc.Obj?
    ensures SigningPayload(Attach(doc, text)) == SigningPayload(doc)
    ensures SigningPayload(Obj(doc.members + [Member(ADDITIONAL_SIGNATURES, more)])) == SigningPayload(doc)
    ensures Canonicalizable(doc) ==> Canonicalizable(Attach(doc, text))
    ensures Canonicalizable(doc) && UniqueNamed(more) && ADDITIONAL_SIGNATURES !in Names(doc.members) ==>
              Canonicalizable(Obj(doc.members + [Member(ADDITIONAL_SIGNATURES, more)]))
  {
    WithoutAttached(doc.members, text);
    assert Obj(doc.members) == doc;
    RemoveAdded(doc.members, Member(ADDITIONAL_SIGNATURES, more));
    if UniqueNamed(doc) {
      StaysUnique(doc, text);
      if UniqueNamed(more) && ADDITIONAL_SIGNATURES !in Names(doc.members) {
        forall x | x in doc.members ensures x.name != ADDITIONAL_SIGNATURES {
          assert x.name in Names(doc.members);
        }
        AddedUnique(doc.members, Member(ADDITIONAL_SIGNATURES, more));
      }
    }
  }

  lemma StaysUnique(doc: Json, text: string)
    requires doc.Obj? && UniqueNamed(doc)
    ensures UniqueNamed(Attach(doc, text))
  {
    forall i | 0 <= i < |doc.members| ensures UniqueNamed(AttachValue(doc.members[i], text).value) {
      AttachedUnique(doc.members[i], text);
    }
  }

  lemma StripTwice(doc: Json)
    requires UniqueNamed(doc)
    ensures Strip(Strip(doc)) == Strip(doc)
  {
    if doc.Obj? {
      var kept := Without(doc.members, ADDITIONAL_SIGNATURES);
      WithoutAbsent(StripValues(kept), ADDITIONAL_SIGNATURES);
      forall i | 0 <= i < |kept| ensures StripValue(StripValue(kept[i])) == StripValue(kept[i]) {
        if kept[i].name == SIGNATURE && kept[i].value.Obj? {
          WithoutAbsent(Without(kept[i].value.members, JWS), JWS);
        }
      }
      assert StripValues(StripValues(kept)) == StripValues(kept);
    }
  }

  /** The payload is itself a document in canonical form, and its own payload. */
  lemma PayloadIsFixed(doc: Json)
    requires UniqueNamed(doc)
    ensures Read(SigningPayload(doc)) == Some((Canon(Strip(doc)), ""))
    ensures UniqueNamed(Canon(Strip(doc))) && SigningPayload(Canon(Strip(doc))) == SigningPayload(doc)
  {
    var stripped := Strip(doc);
    StripUnique(doc);
    CanonFacts(stripped);
    StripOfCanon(stripped);
    StripTwice(doc);
    ReadWritten(Canon(stripped), "");
    assert SigningPayload(doc) + "" == SigningPayload(doc);
  }
}
