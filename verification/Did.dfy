/** The keys a DID document gives a signer. */
module Did {
  import opened Json
  import opened Seqs

  datatype VerificationMethod = VerificationMethod(id: string, controller: string, jwk: Option<Json>)

  /** A member of assertionMethod: text, a method in place, or anything else. Null
      reads as the text "". */
  datatype Assertion = Reference(reference: string) | Embedded(declared: VerificationMethod) | Other

  datatype DidDocument = DidDocument(id: string, methods: seq<VerificationMethod>, assertions: seq<Assertion>)

  /** References that start with "#" are relative to the signer. */
  function Resolve(reference: string, signer: string): string {
    if reference != "" && reference[0] == '#' then signer + reference else reference
  }

  // ---- specification ----

  /** The methods called kid, in order. */
  function Called(methods: seq<VerificationMethod>, signer: string, kid: string): seq<VerificationMethod> {
    Filter((m: VerificationMethod) => Resolve(m.id, signer) == kid, methods)
  }

  function EmbeddedIn(assertions: seq<Assertion>): seq<VerificationMethod> {
    if assertions == [] then []
    else (if assertions[0].Embedded? then [assertions[0].declared] else []) + EmbeddedIn(assertions[1..])
  }

  predicate Authorizes(a: Assertion, signer: string, kid: string) {
    || (a.Reference? && Resolve(a.reference, signer) == kid)
    || (a.Embedded? && Resolve(a.declared.id, signer) == kid)
  }

  predicate Authorized(assertions: seq<Assertion>, signer: string, kid: string) {
    exists i :: 0 <= i < |assertions| && Authorizes(assertions[i], signer, kid)
  }

  /** The methods of both lists together. */
  function Declared(d: DidDocument): seq<VerificationMethod> {
    d.methods + EmbeddedIn(d.assertions)
  }

  predicate HasKey(m: VerificationMethod) {
    m.jwk.Some? && m.jwk.value != Null
  }

  /** The key that kid selects. */
  function KeyOf(d: DidDocument, signer: string, kid: string): Option<Json> {
    var found := Called(Declared(d), signer, kid);
    if d.id == signer && Authorized(d.assertions, signer, kid) && |found| == 1 &&
       found[0].controller == signer && HasKey(found[0])
    then found[0].jwk
    else None
  }

  // ---- the algorithm ----

  /** The methods kid selects, and whether assertionMethod authorizes kid. */
  method MethodsOf(d: DidDocument, signer: string, kid: string)
      returns (methods: seq<VerificationMethod>, authorized: bool)
    ensures methods == Called(Declared(d), signer, kid)
    ensures authorized == Authorized(d.assertions, signer, kid)
  {
    methods := [];
    for i := 0 to |d.methods|
      invariant methods == Called(d.methods[..i], signer, kid)
    {
      CalledSnoc(d.methods, i, signer, kid);
      if Resolve(d.methods[i].id, signer) == kid {
        methods := methods + [d.methods[i]];
      }
    }
    assert d.methods[..|d.methods|] == d.methods;
    authorized := false;
    for i := 0 to |d.assertions|
      invariant methods == Called(d.methods, signer, kid) + Called(EmbeddedIn(d.assertions[..i]), signer, kid)
      invariant authorized == Authorized(d.assertions[..i], signer, kid)
    {
      var a := d.assertions[i];
      EmbeddedSnoc(d.assertions, i, signer, kid);
      AuthorizedSnoc(d.assertions, i, signer, kid);
      match a {
        case Reference(reference) =>
          authorized := authorized || Resolve(reference, signer) == kid;
        case Embedded(m) =>
          if Resolve(m.id, signer) == kid {
            authorized := true;
            methods := methods + [m];
          }
        case Other =>
      }
    }
    assert d.assertions[..|d.assertions|] == d.assertions;
    CalledAppend(d.methods, EmbeddedIn(d.assertions), signer, kid);
  }

  method SelectKey(d: DidDocument, signer: string, kid: string) returns (key: Option<Json>)
    ensures key == KeyOf(d, signer, kid)
  {
    if d.id != signer {
      return None;
    }
    var methods, authorized := MethodsOf(d, signer, kid);
    if !authorized || |methods| != 1 || methods[0].controller != signer || !HasKey(methods[0]) {
      return None;
    }
    return methods[0].jwk;
  }

  // ---- lemmas for the loops ----

  lemma CalledAppend(a: seq<VerificationMethod>, b: seq<VerificationMethod>, signer: string, kid: string)
    ensures Called(a + b, signer, kid) == Called(a, signer, kid) + Called(b, signer, kid)
  {
    FilterAppend((m: VerificationMethod) => Resolve(m.id, signer) == kid, a, b);
  }

  lemma CalledLast(ms: seq<VerificationMethod>, m: VerificationMethod, signer: string, kid: string)
    ensures Called(ms + [m], signer, kid) == Called(ms, signer, kid) + if Resolve(m.id, signer) == kid then [m] else []
  {
    FilterAppend((m: VerificationMethod) => Resolve(m.id, signer) == kid, ms, [m]);
  }

  lemma CalledSnoc(ms: seq<VerificationMethod>, i: nat, signer: string, kid: string)
    requires i < |ms|
    ensures Called(ms[..i + 1], signer, kid) ==
            Called(ms[..i], signer, kid) + if Resolve(ms[i].id, signer) == kid then [ms[i]] else []
  {
    FilterSnoc((m: VerificationMethod) => Resolve(m.id, signer) == kid, ms, i);
  }

  lemma {:induction false} EmbeddedAppend(a: seq<Assertion>, b: seq<Assertion>)
    ensures EmbeddedIn(a + b) == EmbeddedIn(a) + EmbeddedIn(b)
  {
    if a == [] {
      assert a + b == b;
    } else {
      EmbeddedAppend(a[1..], b);
      EmbeddedPrepend(a[0], a[1..], b);
      assert a == [a[0]] + a[1..];
    }
  }

  lemma EmbeddedPrepend(x: Assertion, a: seq<Assertion>, b: seq<Assertion>)
    requires EmbeddedIn(a + b) == EmbeddedIn(a) + EmbeddedIn(b)
    ensures EmbeddedIn([x] + a + b) == EmbeddedIn([x] + a) + EmbeddedIn(b)
  {
    ConsAppend(x, a, b);
    EmbeddedCons(x, a + b);
    EmbeddedCons(x, a);
    Associate(if x.Embedded? then [x.declared] else [], EmbeddedIn(a), EmbeddedIn(b));
  }

  lemma EmbeddedCons(x: Assertion, rest: seq<Assertion>)
    ensures EmbeddedIn([x] + rest) == (if x.Embedded? then [x.declared] else []) + EmbeddedIn(rest)
  {
    assert ([x] + rest)[1..] == rest;
  }

  lemma EmbeddedSnoc(assertions: seq<Assertion>, i: nat, signer: string, kid: string)
    requires i < |assertions|
    ensures var a := assertions[i];
            Called(EmbeddedIn(assertions[..i + 1]), signer, kid) ==
            Called(EmbeddedIn(assertions[..i]), signer, kid) +
            if a.Embedded? && Resolve(a.declared.id, signer) == kid then [a.declared] else []
  {
    var a, before := assertions[i], EmbeddedIn(assertions[..i]);
    EmbeddedAppend(assertions[..i], [a]);
    assert assertions[..i + 1] == assertions[..i] + [a];
    if a.Embedded? {
      assert EmbeddedIn([a]) == [a.declared];
      CalledLast(before, a.declared, signer, kid);
    } else {
      assert before + EmbeddedIn([a]) == before;
    }
  }

  lemma AuthorizedSnoc(assertions: seq<Assertion>, i: nat, signer: string, kid: string)
    requires i < |assertions|
    ensures Authorized(assertions[..i + 1], signer, kid) <==>
            Authorized(assertions[..i], signer, kid) || Authorizes(assertions[i], signer, kid)
  {
    assert assertions[..i + 1] == assertions[..i] + [assertions[i]];
    if Authorizes(assertions[i], signer, kid) {
      assert Authorizes(assertions[..i + 1][i], signer, kid);
    }
    if Authorized(assertions[..i], signer, kid) {
      var j :| 0 <= j < i && Authorizes(assertions[..i][j], signer, kid);
      assert Authorizes(assertions[..i + 1][j], signer, kid);
    }
  }
}

module DidLaws {
  import opened Json
  import opened Seqs
  import opened Did

  /** Position i holds the only method of the document called kid. */
  predicate OnlyMethod(d: DidDocument, signer: string, kid: string, i: nat) {
    var all := Declared(d);
    && i < |all|
    && forall j :: 0 <= j < |all| ==> (Resolve(all[j].id, signer) == kid <==> j == i)
  }

  /** What it takes for key to be the key of kid. */
  ghost predicate Selects(d: DidDocument, signer: string, kid: string, key: Json) {
    && d.id == signer && Authorized(d.assertions, signer, kid)
    && exists i: nat :: OnlyMethod(d, signer, kid, i) && Declared(d)[i].controller == signer &&
                   HasKey(Declared(d)[i]) && Declared(d)[i].jwk == Some(key)
  }

  /** A key is selected exactly when one method over both lists is called kid and that
      method is authorized, the signer's own, and has the key. */
  lemma KeyOfIff(d: DidDocument, signer: string, kid: string, key: Json)
    ensures KeyOf(d, signer, kid) == Some(key) <==> Selects(d, signer, kid, key)
  {
    var all := Declared(d);
    if KeyOf(d, signer, kid) == Some(key) {
      var i := FilterOnce((m: VerificationMethod) => Resolve(m.id, signer) == kid, all);
      assert OnlyMethod(d, signer, kid, i);
    }
    if Selects(d, signer, kid, key) {
      var i: nat :| OnlyMethod(d, signer, kid, i) && all[i].controller == signer && HasKey(all[i])
          && all[i].jwk == Some(key);
      FilterAlone((m: VerificationMethod) => Resolve(m.id, signer) == kid, all, i);
    }
  }

  // ---- the key in terms of both lists ----

  /** The text refers to kid, in full or by its fragment alone. */
  predicate Refers(reference: string, signer: string, kid: string) {
    if "#" <= reference then kid == signer + reference else kid == reference
  }

  predicate AuthorizedBy(a: Assertion, signer: string, kid: string) {
    match a
    case Reference(reference) => Refers(reference, signer, kid)
    case Embedded(m) => Refers(m.id, signer, kid)
    case Other => false
  }

  /** Where a document declares a method: in its list, or in place in assertionMethod. */
  datatype Slot = Listed(i: nat) | InPlace(j: nat)

  function MethodAt(d: DidDocument, slot: Slot): Option<VerificationMethod> {
    match slot
    case Listed(i) => if i < |d.methods| then Some(d.methods[i]) else None
    case InPlace(j) =>
      if j < |d.assertions| && d.assertions[j].Embedded? then Some(d.assertions[j].declared) else None
  }

  predicate MethodFor(d: DidDocument, slot: Slot, signer: string, kid: string) {
    MethodAt(d, slot).Some? && Refers(MethodAt(d, slot).value.id, signer, kid)
  }

  /** Its position among all. */
  function Position(d: DidDocument, slot: Slot): nat
    requires MethodAt(d, slot).Some?
  {
    match slot case Listed(i) => i case InPlace(j) => |d.methods| + |EmbeddedIn(d.assertions[..j])|
  }

  lemma EmbeddedAt(assertions: seq<Assertion>, j: nat)
    requires j < |assertions| && assertions[j].Embedded?
    ensures var p := |EmbeddedIn(assertions[..j])|;
            p < |EmbeddedIn(assertions)| && EmbeddedIn(assertions)[p] == assertions[j].declared
    ensures |EmbeddedIn(assertions[..j + 1])| == |EmbeddedIn(assertions[..j])| + 1
  {
    EmbeddedAppend(assertions[..j], assertions[j..]);
    EmbeddedCons(assertions[j], assertions[j + 1..]);
    assert assertions == assertions[..j] + assertions[j..] && assertions[j..] == [assertions[j]] + assertions[j + 1..];
    EmbeddedAppend(assertions[..j], [assertions[j]]);
    EmbeddedCons(assertions[j], []);
    assert assertions[..j + 1] == assertions[..j] + [assertions[j]];
  }

  lemma EmbeddedGrows(assertions: seq<Assertion>, i: nat, j: nat)
    requires i <= j <= |assertions|
    ensures |EmbeddedIn(assertions[..i])| <= |EmbeddedIn(assertions[..j])|
  {
    EmbeddedAppend(assertions[..i], assertions[i..j]);
    assert assertions[..j] == assertions[..i] + assertions[i..j];
  }

  lemma {:induction false} EmbeddedFrom(assertions: seq<Assertion>, p: nat) returns (j: nat)
    requires p < |EmbeddedIn(assertions)|
    ensures j < |assertions| && assertions[j].Embedded? && |EmbeddedIn(assertions[..j])| == p
  {
    if assertions[0].Embedded? && p == 0 {
      j := 0;
    } else {
      var k := EmbeddedFrom(assertions[1..], if assertions[0].Embedded? then p - 1 else p);
      j := k + 1;
      assert assertions[..j] == [assertions[0]] + assertions[1..][..k];
      EmbeddedCons(assertions[0], assertions[1..][..k]);
    }
  }

  lemma PositionIs(d: DidDocument, slot: Slot)
    requires MethodAt(d, slot).Some?
    ensures Position(d, slot) < |Declared(d)| && Declared(d)[Position(d, slot)] == MethodAt(d, slot).value
  {
    if slot.InPlace? { EmbeddedAt(d.assertions, slot.j); }
  }

  lemma SamePosition(d: DidDocument, a: Slot, b: Slot)
    requires MethodAt(d, a).Some? && MethodAt(d, b).Some? && Position(d, a) == Position(d, b)
    ensures a == b
  {
    if a.InPlace? && b.InPlace? && a.j != b.j {
      var i, j := if a.j < b.j then a.j else b.j, if a.j < b.j then b.j else a.j;
      EmbeddedAt(d.assertions, i);
      EmbeddedGrows(d.assertions, i + 1, j);
    }
  }

  lemma SlotAt(d: DidDocument, p: nat) returns (slot: Slot)
    requires p < |Declared(d)|
    ensures MethodAt(d, slot).Some? && Position(d, slot) == p
  {
    if p < |d.methods| {
      slot := Listed(p);
    } else {
      var j := EmbeddedFrom(d.assertions, p - |d.methods|);
      slot := InPlace(j);
    }
  }

  lemma ResolveIff(reference: string, signer: string, kid: string)
    ensures Resolve(reference, signer) == kid <==> Refers(reference, signer, kid)
  {
    if reference != "" && reference[0] == '#' {
      assert "#" <= reference;
    }
  }

  lemma AuthorizedIff(d: DidDocument, signer: string, kid: string)
    ensures Authorized(d.assertions, signer, kid) <==>
            exists j :: 0 <= j < |d.assertions| && AuthorizedBy(d.assertions[j], signer, kid)
  {
    forall j | 0 <= j < |d.assertions|
      ensures Authorizes(d.assertions[j], signer, kid) <==> AuthorizedBy(d.assertions[j], signer, kid)
    {
      var a := d.assertions[j];
      if a.Reference? { ResolveIff(a.reference, signer, kid); }
      if a.Embedded? { ResolveIff(a.declared.id, signer, kid); }
    }
  }

  /** The slot holds the document's one method for kid, the signer's own, with the key. */
  predicate Holds(d: DidDocument, slot: Slot, signer: string, kid: string, key: Json) {
    && MethodFor(d, slot, signer, kid)
    && MethodAt(d, slot).value.controller == signer && MethodAt(d, slot).value.jwk == Some(key) && key != Null
  }

  ghost predicate Alone(d: DidDocument, slot: Slot, signer: string, kid: string) {
    forall other: Slot :: MethodFor(d, other, signer, kid) ==> other == slot
  }

  lemma OnlyIsAlone(d: DidDocument, slot: Slot, signer: string, kid: string)
    requires MethodAt(d, slot).Some?
    ensures OnlyMethod(d, signer, kid, Position(d, slot)) <==>
            (MethodFor(d, slot, signer, kid) && Alone(d, slot, signer, kid))
  {
    var all, p := Declared(d), Position(d, slot);
    PositionIs(d, slot);
    if OnlyMethod(d, signer, kid, p) {
      ResolveIff(all[p].id, signer, kid);
      forall other: Slot | MethodFor(d, other, signer, kid) ensures other == slot {
        PositionIs(d, other);
        ResolveIff(MethodAt(d, other).value.id, signer, kid);
        assert Position(d, other) == p;
        SamePosition(d, other, slot);
      }
    }
    if MethodFor(d, slot, signer, kid) && Alone(d, slot, signer, kid) {
      forall q | 0 <= q < |all| ensures Resolve(all[q].id, signer) == kid <==> q == p {
        var other := SlotAt(d, q);
        PositionIs(d, other);
        ResolveIff(all[q].id, signer, kid);
        if q == p {
          SamePosition(d, other, slot);
        } else {
          assert other != slot;
          assert MethodFor(d, other, signer, kid) <==> Refers(all[q].id, signer, kid);
        }
      }
    }
  }

  /** kid selects a key if and only if the document is the signer's, assertionMethod
      refers to kid or holds a method for it, and of all methods in either list, written
      out or by fragment, exactly one is for kid, controlled by the signer, with the key. */
  lemma KeySelectedIff(d: DidDocument, signer: string, kid: string, key: Json)
    ensures KeyOf(d, signer, kid) == Some(key) <==>
            && d.id == signer
            && (exists j :: 0 <= j < |d.assertions| && AuthorizedBy(d.assertions[j], signer, kid))
            && exists slot: Slot :: Holds(d, slot, signer, kid, key) && Alone(d, slot, signer, kid)
  {
    KeyOfIff(d, signer, kid, key);
    AuthorizedIff(d, signer, kid);
    if i: nat :| OnlyMethod(d, signer, kid, i) && Declared(d)[i].controller == signer &&
                 HasKey(Declared(d)[i]) && Declared(d)[i].jwk == Some(key) {
      var slot := SlotAt(d, i);
      PositionIs(d, slot);
      OnlyIsAlone(d, slot, signer, kid);
      assert Holds(d, slot, signer, kid, key);
    }
    if slot: Slot :| Holds(d, slot, signer, kid, key) && Alone(d, slot, signer, kid) {
      PositionIs(d, slot);
      OnlyIsAlone(d, slot, signer, kid);
    }
  }

  // ---- the order of the lists ----

  lemma CalledMultiset(ms: seq<VerificationMethod>, signer: string, kid: string, m: VerificationMethod)
    ensures multiset(Called(ms, signer, kid))[m] == if Resolve(m.id, signer) == kid then multiset(ms)[m] else 0
  {
    FilterMultiset((m: VerificationMethod) => Resolve(m.id, signer) == kid, ms, m);
  }

  lemma {:induction false} EmbeddedMultiset(assertions: seq<Assertion>, m: VerificationMethod)
    ensures multiset(EmbeddedIn(assertions))[m] == multiset(assertions)[Embedded(m)]
  {
    if assertions != [] {
      EmbeddedMultiset(assertions[1..], m);
      assert assertions == [assertions[0]] + assertions[1..];
    }
  }

  lemma SameCalled(a: DidDocument, b: DidDocument, signer: string, kid: string)
    requires multiset(a.methods) == multiset(b.methods) && multiset(a.assertions) == multiset(b.assertions)
    ensures multiset(Called(Declared(a), signer, kid)) == multiset(Called(Declared(b), signer, kid))
  {
    forall m: VerificationMethod
      ensures multiset(Called(Declared(a), signer, kid))[m] == multiset(Called(Declared(b), signer, kid))[m]
    {
      CalledMultiset(Declared(a), signer, kid, m);
      CalledMultiset(Declared(b), signer, kid, m);
      EmbeddedMultiset(a.assertions, m);
      EmbeddedMultiset(b.assertions, m);
    }
  }

  lemma SameAuthorized(xs: seq<Assertion>, ys: seq<Assertion>, signer: string, kid: string)
    requires multiset(xs) == multiset(ys) && Authorized(xs, signer, kid)
    ensures Authorized(ys, signer, kid)
  {
    var i :| 0 <= i < |xs| && Authorizes(xs[i], signer, kid);
    assert xs[i] in multiset(ys);
    assert xs[i] in ys;
  }

  lemma SameSingle(xs: seq<VerificationMethod>, ys: seq<VerificationMethod>)
    requires multiset(xs) == multiset(ys)
    ensures |xs| == |ys| && (|xs| == 1 ==> xs == ys)
  {
    assert |multiset(xs)| == |multiset(ys)|;
    if |xs| == 1 {
      assert xs[0] in multiset(ys);
    }
  }

  /** The order of either list does not matter. */
  lemma KeyIgnoresOrder(a: DidDocument, b: DidDocument, signer: string, kid: string)
    requires a.id == b.id
    requires multiset(a.methods) == multiset(b.methods) && multiset(a.assertions) == multiset(b.assertions)
    ensures KeyOf(a, signer, kid) == KeyOf(b, signer, kid)
  {
    SameCalled(a, b, signer, kid);
    SameSingle(Called(Declared(a), signer, kid), Called(Declared(b), signer, kid));
    if Authorized(a.assertions, signer, kid) { SameAuthorized(a.assertions, b.assertions, signer, kid); }
    if Authorized(b.assertions, signer, kid) { SameAuthorized(b.assertions, a.assertions, signer, kid); }
  }

  // ---- relative references ----

  function ResolveMethod(m: VerificationMethod, signer: string): VerificationMethod {
    m.(id := Resolve(m.id, signer))
  }

  function ResolveAssertion(a: Assertion, signer: string): Assertion {
    match a
    case Reference(r) => Reference(Resolve(r, signer))
    case Embedded(m) => Embedded(ResolveMethod(m, signer))
    case Other => Other
  }

  function ResolveMethods(ms: seq<VerificationMethod>, signer: string): seq<VerificationMethod> {
    seq(|ms|, i requires 0 <= i < |ms| => ResolveMethod(ms[i], signer))
  }

  /** The document with every reference written out in full. */
  function Resolved(d: DidDocument, signer: string): DidDocument {
    DidDocument(d.id, ResolveMethods(d.methods, signer),
                seq(|d.assertions|, i requires 0 <= i < |d.assertions| => ResolveAssertion(d.assertions[i], signer)))
  }

  lemma ResolveTwice(reference: string, signer: string)
    requires signer != "" && signer[0] != '#'
    ensures Resolve(Resolve(reference, signer), signer) == Resolve(reference, signer)
  {
    assert reference != "" && reference[0] == '#' ==> (signer + reference)[0] == signer[0];
  }

  lemma CalledResolved(ms: seq<VerificationMethod>, signer: string, kid: string)
    requires signer != "" && signer[0] != '#'
    ensures Called(ResolveMethods(ms, signer), signer, kid) == ResolveMethods(Called(ms, signer, kid), signer)
  {
    forall i | 0 <= i < |ms| ensures Resolve(ResolveMethod(ms[i], signer).id, signer) == Resolve(ms[i].id, signer) {
      ResolveTwice(ms[i].id, signer);
    }
    FilterChanged((m: VerificationMethod) => Resolve(m.id, signer) == kid,
        (m: VerificationMethod) => ResolveMethod(m, signer),
                  ms, ResolveMethods(ms, signer));
  }

  lemma {:induction false} EmbeddedResolved(assertions: seq<Assertion>, resolved: seq<Assertion>, signer: string)
    requires |resolved| == |assertions| && forall i :: 0 <= i < |assertions| ==>
             resolved[i] == ResolveAssertion(assertions[i], signer)
    ensures EmbeddedIn(resolved) == ResolveMethods(EmbeddedIn(assertions), signer)
  {
    if assertions != [] {
      EmbeddedResolved(assertions[1..], resolved[1..], signer);
      assert resolved[0] == ResolveAssertion(assertions[0], signer);
    }
  }

  lemma AuthorizedResolved(assertions: seq<Assertion>, resolved: seq<Assertion>, signer: string, kid: string)
    requires signer != "" && signer[0] != '#'
    requires |resolved| == |assertions| && forall i :: 0 <= i < |assertions| ==>
             resolved[i] == ResolveAssertion(assertions[i], signer)
    ensures Authorized(resolved, signer, kid) <==> Authorized(assertions, signer, kid)
  {
    forall i | 0 <= i < |assertions| ensures Authorizes(resolved[i], signer, kid) <==>
        Authorizes(assertions[i], signer, kid) {
      match assertions[i] {
        case Reference(r) => ResolveTwice(r, signer);
        case Embedded(m) => ResolveTwice(m.id, signer);
        case Other =>
      }
    }
  }

  lemma KeyOfResolved(d: DidDocument, signer: string, kid: string)
    requires signer != "" && signer[0] != '#'
    ensures KeyOf(Resolved(d, signer), signer, kid) == KeyOf(d, signer, kid)
  {
    var r := Resolved(d, signer);
    EmbeddedResolved(d.assertions, r.assertions, signer);
    assert Declared(r) == ResolveMethods(Declared(d), signer);
    CalledResolved(Declared(d), signer, kid);
    AuthorizedResolved(d.assertions, r.assertions, signer, kid);
  }

  /** A reference "#f" and its full form signer + "#f" are interchangeable. */
  lemma KeyIgnoresRelativeForm(a: DidDocument, b: DidDocument, signer: string, kid: string)
    requires signer != "" && signer[0] != '#' && Resolved(a, signer) == Resolved(b, signer)
    ensures KeyOf(a, signer, kid) == KeyOf(b, signer, kid)
  {
    KeyOfResolved(a, signer, kid);
    KeyOfResolved(b, signer, kid);
  }
}
