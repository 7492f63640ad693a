/** Which manifests are bound by their signing payload to what they say. */
module BindingLaws {
  import opened Json
  import opened Text
  import opened Catalog
  import opened Payload
  import opened PayloadLaws
  import opened Decoding
  import opened ReadingLaws
  import opened DecodingLaws
  import opened MergeLaws

  // ---- what is given for a field ----

  predicate GivesText(ms: seq<Member>, field: string, text: string) {
    exists i :: 0 <= i < |ms| && Meets(ms[i], field) && ms[i].value == Str(text)
  }

  predicate GivesObject(ms: seq<Member>, field: string) {
    exists i :: 0 <= i < |ms| && Meets(ms[i], field) && ms[i].value.Obj?
  }

  predicate GivesWithin(ms: seq<Member>, outer: string, inner: string, text: string) {
    exists i :: 0 <= i < |ms| && Meets(ms[i], outer) && ms[i].value.Obj? && GivesText(ms[i].value.members, inner, text)
  }

  /** The strings a and b, for the field if they are given for it, are the same. */
  predicate NotApart(a: Member, b: Member, field: string) {
    Meets(a, field) && Meets(b, field) && a.value.Str? && b.value.Str? ==> a.value == b.value
  }

  /** All strings given for the field in either object are the same. */
  predicate AgreeOn(ms: seq<Member>, ns: seq<Member>, field: string) {
    forall i, j :: 0 <= i < |ms| && 0 <= j < |ns| ==> NotApart(ms[i], ns[j], field)
  }

  predicate AgreeWithin(a: Member, b: Member, outer: string, inner: string) {
    Meets(a, outer) && Meets(b, outer) && a.value.Obj? && b.value.Obj? ==>
      AgreeOn(a.value.members, b.value.members, inner)
  }

  /** All strings given for the inner field in the objects for the outer are the same. */
  predicate OneWithin(ms: seq<Member>, outer: string, inner: string) {
    forall i, j :: 0 <= i < |ms| && 0 <= j < |ms| ==> AgreeWithin(ms[i], ms[j], outer, inner)
  }

  /** Members whose names differ in letter case alone do not contradict each other about
      the contributor and the subject. */
  predicate Unambiguous(ms: seq<Member>) {
    && AgreeOn(ms, ms, "contributor")
    && !(Nulls(ms, "subject") && GivesObject(ms, "subject"))
    && OneWithin(ms, "subject", "identifier") && OneWithin(ms, "subject", "version")
    && OneWithin(ms, "subject", "type") && OneWithin(ms, "subject", "digest")
  }

  predicate SayAlike(a: Json, b: Json)
    requires ReadStatement(a).Some? && ReadStatement(b).Some?
  {
    && ReadStatement(a).value.contributor == ReadStatement(b).value.contributor
    && ReadStatement(a).value.subject == ReadStatement(b).value.subject
  }

  /** Whatever has the signing payload of the manifest says the same of contributor and
      subject. */
  ghost predicate Bound(manifest: Json)
    requires ReadStatement(manifest).Some?
  {
    forall other: Json | UniqueNamed(other) && SigningPayload(other) == SigningPayload(manifest)
      && ReadStatement(other).Some? :: SayAlike(manifest, other)
  }

  // ---- what is read in terms of what is given ----

  lemma GivesSnoc(ms: seq<Member>, field: string, t: string)
    requires ms != []
    ensures GivesText(ms, field, t) <==>
            (GivesText(ms[..|ms| - 1], field, t) || (Meets(ms[|ms| - 1], field) && ms[|ms| - 1].value == Str(t)))
  {
    var most := ms[..|ms| - 1];
    if GivesText(most, field, t) {
      var i :| 0 <= i < |most| && Meets(most[i], field) && most[i].value == Str(t);
      assert ms[i] == most[i];
    }
    if i :| 0 <= i < |ms| && Meets(ms[i], field) && ms[i].value == Str(t) && i < |ms| - 1 {
      assert most[i] == ms[i];
    }
  }

  lemma {:induction false} TextIsGiven(ms: seq<Member>, field: string)
    ensures TextAfter(ms, field, "") == "" || GivesText(ms, field, TextAfter(ms, field, ""))
    ensures forall t :: GivesText(ms, field, t) ==> GivesText(ms, field, TextAfter(ms, field, ""))
  {
    if ms != [] {
      TextIsGiven(ms[..|ms| - 1], field);
      GivesSnoc(ms, field, TextAfter(ms, field, ""));
      forall t ensures GivesText(ms, field, t) ==> GivesText(ms, field, TextAfter(ms, field, "")) {
        GivesSnoc(ms, field, t);
      }
    }
  }

  /** Objects that give the same texts for a field, and agree on them, are read alike. */
  lemma TextAlike(ms: seq<Member>, ns: seq<Member>, field: string)
    requires AgreeOn(ms, ms, field)
    requires forall t :: GivesText(ms, field, t) <==> GivesText(ns, field, t)
    ensures TextAfter(ms, field, "") == TextAfter(ns, field, "")
  {
    TextIsGiven(ms, field);
    TextIsGiven(ns, field);
    var t, u := TextAfter(ms, field, ""), TextAfter(ns, field, "");
    if GivesText(ms, field, t) && GivesText(ms, field, u) {
      var i :| 0 <= i < |ms| && Meets(ms[i], field) && ms[i].value == Str(t);
      var j :| 0 <= j < |ms| && Meets(ms[j], field) && ms[j].value == Str(u);
      assert NotApart(ms[i], ms[j], field);
    }
  }

  lemma WithinGives(ms: seq<Member>, outer: string, inner: string, t: string)
    ensures GivesText(Within(ms, outer), inner, t) <==> GivesWithin(ms, outer, inner, t)
  {
    var ws := Within(ms, outer);
    if k :| 0 <= k < |ws| && Meets(ws[k], inner) && ws[k].value == Str(t) {
      WithinMember(ms, outer, ws[k]);
      var i :| 0 <= i < |ms| && Meets(ms[i], outer) && ms[i].value.Obj? && ws[k] in ms[i].value.members;
      var l :| 0 <= l < |ms[i].value.members| && ms[i].value.members[l] == ws[k];
      assert GivesText(ms[i].value.members, inner, t);
    }
    if i :| 0 <= i < |ms| && Meets(ms[i], outer) && ms[i].value.Obj? && GivesText(ms[i].value.members, inner, t) {
      var l :| 0 <= l < |ms[i].value.members| && Meets(ms[i].value.members[l], inner)
        && ms[i].value.members[l].value == Str(t);
      WithinMember(ms, outer, ms[i].value.members[l]);
    }
  }

  lemma WithinAgrees(ms: seq<Member>, outer: string, inner: string)
    requires OneWithin(ms, outer, inner)
    ensures AgreeOn(Within(ms, outer), Within(ms, outer), inner)
  {
    var ws := Within(ms, outer);
    forall k, l | 0 <= k < |ws| && 0 <= l < |ws| ensures NotApart(ws[k], ws[l], inner) {
      WithinMember(ms, outer, ws[k]);
      WithinMember(ms, outer, ws[l]);
      var i :| 0 <= i < |ms| && Meets(ms[i], outer) && ms[i].value.Obj? && ws[k] in ms[i].value.members;
      var j :| 0 <= j < |ms| && Meets(ms[j], outer) && ms[j].value.Obj? && ws[l] in ms[j].value.members;
      assert AgreeWithin(ms[i], ms[j], outer, inner);
    }
  }

  lemma {:induction false} NoObject<S>(step: Step<S>, zero: S, ms: seq<Member>, field: string)
    requires PointerAfter(step, zero, None, ms, field).Some? && !GivesObject(ms, field)
    ensures PointerAfter(step, zero, None, ms, field) == Some(None)
  {
    if ms != [] {
      assert forall i :: 0 <= i < |ms| - 1 ==> ms[..|ms| - 1][i] == ms[i];
      NoObject(step, zero, ms[..|ms| - 1], field);
      assert !(Meets(ms[|ms| - 1], field) && ms[|ms| - 1].value.Obj?);
    }
  }

  /** The subject of a manifest whose members give an object for it or a null, not both. */
  function SubjectGiven(ms: seq<Member>): Option<Subject> {
    var ws := Within(ms, "subject");
    if GivesObject(ms, "subject")
    then Some(Subject(TextAfter(ws, "identifier", ""), TextAfter(ws, "version", ""), TextAfter(ws, "type", ""),
                      TextAfter(ws, "digest", "")))
    else None
  }

  lemma StatementGiven(ms: seq<Member>)
    requires Members(StatementMember, UNSTATED, ms).Some? && !(Nulls(ms, "subject") && GivesObject(ms, "subject"))
    ensures Members(StatementMember, UNSTATED, ms).value.contributor == TextAfter(ms, "contributor", "")
    ensures Members(StatementMember, UNSTATED, ms).value.subject == SubjectGiven(ms)
  {
    StatementAfter(UNSTATED, ms);
    if GivesObject(ms, "subject") {
      assert Gives(ms, "subject");
      PointerMerges(SubjectMember, NO_SUBJECT, None, ms, "subject");
      SubjectAfter(NO_SUBJECT, Within(ms, "subject"));
    } else {
      NoObject(SubjectMember, NO_SUBJECT, ms, "subject");
    }
  }

  // ---- the payload covers what is given ----

  predicate CoveredField(field: string) {
    field == "contributor" || field == "subject"
  }

  lemma FieldCovered(a: Json, b: Json, m: Member, field: string) returns (n: Member)
    requires a.Obj? && b.Obj? && UniqueNamed(a) && UniqueNamed(b) && SigningPayload(a) == SigningPayload(b)
    requires m in a.members && Meets(m, field) && CoveredField(field)
    ensures n in b.members && Meets(n, field) && Same(m.value, n.value)
  {
    OtherNames(m, field);
    n := Covered(a, b, m);
    assert n.name == m.name && Same(StripValue(m).value, StripValue(n).value);
  }

  /** The omitted members meet other fields. */
  lemma OtherNames(m: Member, field: string)
    requires Meets(m, field) && CoveredField(field)
    ensures m.name != SIGNATURE && m.name != ADDITIONAL_SIGNATURES
  {
    assert |m.name| == |field|;
  }

  lemma TextCovered(a: Json, b: Json, field: string, t: string)
    requires a.Obj? && b.Obj? && UniqueNamed(a) && UniqueNamed(b) && SigningPayload(a) == SigningPayload(b)
    requires CoveredField(field) && GivesText(a.members, field, t)
    ensures GivesText(b.members, field, t)
  {
    var i :| 0 <= i < |a.members| && Meets(a.members[i], field) && a.members[i].value == Str(t);
    var n := FieldCovered(a, b, a.members[i], field);
    var j :| 0 <= j < |b.members| && b.members[j] == n;
  }

  lemma NullCovered(a: Json, b: Json, field: string)
    requires a.Obj? && b.Obj? && UniqueNamed(a) && UniqueNamed(b) && SigningPayload(a) == SigningPayload(b)
    requires CoveredField(field) && Nulls(a.members, field)
    ensures Nulls(b.members, field)
  {
    var i :| 0 <= i < |a.members| && Meets(a.members[i], field) && a.members[i].value.Null?;
    var n := FieldCovered(a, b, a.members[i], field);
    var j :| 0 <= j < |b.members| && b.members[j] == n;
  }

  lemma ObjectCovered(a: Json, b: Json, field: string)
    requires a.Obj? && b.Obj? && UniqueNamed(a) && UniqueNamed(b) && SigningPayload(a) == SigningPayload(b)
    requires CoveredField(field) && GivesObject(a.members, field)
    ensures GivesObject(b.members, field)
  {
    var i :| 0 <= i < |a.members| && Meets(a.members[i], field) && a.members[i].value.Obj?;
    var n := FieldCovered(a, b, a.members[i], field);
    var j :| 0 <= j < |b.members| && b.members[j] == n;
  }

  lemma WithinCovered(a: Json, b: Json, field: string, inner: string, t: string)
    requires a.Obj? && b.Obj? && UniqueNamed(a) && UniqueNamed(b) && SigningPayload(a) == SigningPayload(b)
    requires CoveredField(field) && GivesWithin(a.members, field, inner, t)
    ensures GivesWithin(b.members, field, inner, t)
  {
    var i :| 0 <= i < |a.members| && Meets(a.members[i], field) && a.members[i].value.Obj?
      && GivesText(a.members[i].value.members, inner, t);
    var xs := a.members[i].value.members;
    var k :| 0 <= k < |xs| && Meets(xs[k], inner) && xs[k].value == Str(t);
    var n := FieldCovered(a, b, a.members[i], field);
    var l := SamePartner(xs, n.value.members, k);
    assert GivesText(n.value.members, inner, t);
    var j :| 0 <= j < |b.members| && b.members[j] == n;
  }

  lemma WithinAlike(a: Json, b: Json, inner: string)
    requires a.Obj? && b.Obj? && UniqueNamed(a) && UniqueNamed(b) && SigningPayload(a) == SigningPayload(b)
    requires OneWithin(a.members, "subject", inner)
    ensures TextAfter(Within(a.members, "subject"), inner, "") == TextAfter(Within(b.members, "subject"), inner, "")
  {
    var xs, ys := Within(a.members, "subject"), Within(b.members, "subject");
    forall t ensures GivesText(xs, inner, t) <==> GivesText(ys, inner, t) {
      WithinGives(a.members, "subject", inner, t);
      WithinGives(b.members, "subject", inner, t);
      if GivesText(xs, inner, t) { WithinCovered(a, b, "subject", inner, t); }
      if GivesText(ys, inner, t) { WithinCovered(b, a, "subject", inner, t); }
    }
    WithinAgrees(a.members, "subject", inner);
    TextAlike(xs, ys, inner);
  }

  lemma SubjectAlike(a: Json, b: Json)
    requires a.Obj? && b.Obj? && UniqueNamed(a) && UniqueNamed(b) && SigningPayload(a) == SigningPayload(b)
    requires Unambiguous(a.members)
    ensures SubjectGiven(a.members) == SubjectGiven(b.members)
    ensures !(Nulls(b.members, "subject") && GivesObject(b.members, "subject"))
  {
    if GivesObject(a.members, "subject") { ObjectCovered(a, b, "subject"); }
    if GivesObject(b.members, "subject") { ObjectCovered(b, a, "subject"); }
    if Nulls(b.members, "subject") { NullCovered(b, a, "subject"); }
    WithinAlike(a, b, "identifier");
    WithinAlike(a, b, "version");
    WithinAlike(a, b, "type");
    WithinAlike(a, b, "digest");
  }

  /** Of two manifests with one signing payload, one unambiguous, both say the same. */
  lemma PayloadBindsStatement(a: Json, b: Json)
    requires a.Obj? && UniqueNamed(a) && UniqueNamed(b) && SigningPayload(a) == SigningPayload(b)
    requires ReadStatement(a).Some? && ReadStatement(b).Some? && Unambiguous(a.members)
    ensures SayAlike(a, b)
  {
    PayloadDecidesSame(a, b);
    SubjectAlike(a, b);
    forall t ensures GivesText(a.members, "contributor", t) <==> GivesText(b.members, "contributor", t) {
      if GivesText(a.members, "contributor", t) { TextCovered(a, b, "contributor", t); }
      if GivesText(b.members, "contributor", t) { TextCovered(b, a, "contributor", t); }
    }
    TextAlike(a.members, b.members, "contributor");
    StatementGiven(a.members);
    StatementGiven(b.members);
  }

  // ---- another order of the members ----

  /** The members with the i-th, now of value v, at the end. */
  function MoveLast(ms: seq<Member>, i: nat, v: Json): seq<Member>
    requires i < |ms|
  {
    ms[..i] + ms[i + 1..] + [Member(ms[i].name, v)]
  }

  /** Where the k-th of them stood. */
  function Home(n: nat, i: nat, k: nat): nat
    requires i < n && k < n
    ensures Home(n, i, k) < n
  {
    if k == n - 1 then i else if k < i then k else k + 1
  }

  /** Where the k-th stands now. */
  function Now(n: nat, i: nat, k: nat): nat
    requires i < n && k < n
    ensures Now(n, i, k) < n && Home(n, i, Now(n, i, k)) == k
  {
    if k == i then n - 1 else if k < i then k else k - 1
  }

  lemma MovedPlace(ms: seq<Member>, i: nat, v: Json, k: nat)
    requires i < |ms| && k < |ms|
    ensures |MoveLast(ms, i, v)| == |ms| && MoveLast(ms, i, v)[k].name == ms[Home(|ms|, i, k)].name
    ensures MoveLast(ms, i, v)[k].value == if k == |ms| - 1 then v else ms[Home(|ms|, i, k)].value
  {
  }

  lemma MovedUnique(ms: seq<Member>, i: nat, v: Json)
    requires i < |ms| && UniqueNamed(Obj(ms)) && UniqueNamed(v)
    ensures UniqueNamed(Obj(MoveLast(ms, i, v)))
  {
    var ns := MoveLast(ms, i, v);
    forall k | 0 <= k < |ns| ensures UniqueNamed(ns[k].value) {
      MovedPlace(ms, i, v, k);
    }
    forall k, l | 0 <= k < l < |ns| ensures ns[k].name != ns[l].name {
      MovedPlace(ms, i, v, k);
      MovedPlace(ms, i, v, l);
    }
  }

  lemma MovedAt(ms: seq<Member>, i: nat, v: Json, k: nat)
    requires i < |ms| && k < |ms| && Canon(v) == Canon(ms[i].value)
    ensures |MoveLast(ms, i, v)| == |ms|
    ensures CanonMembers(MoveLast(ms, i, v))[k] == CanonMembers(ms)[Home(|ms|, i, k)]
  {
    MovedPlace(ms, i, v, k);
  }

  lemma MovedMember(ms: seq<Member>, i: nat, v: Json, m: Member)
    requires i < |ms| && Canon(v) == Canon(ms[i].value)
    ensures m in CanonMembers(MoveLast(ms, i, v)) <==> m in CanonMembers(ms)
  {
    var cn, cm := CanonMembers(MoveLast(ms, i, v)), CanonMembers(ms);
    if m in cn {
      var k :| 0 <= k < |cn| && cn[k] == m;
      MovedAt(ms, i, v, k);
    }
    if m in cm {
      var k :| 0 <= k < |cm| && cm[k] == m;
      MovedAt(ms, i, v, Now(|ms|, i, k));
    }
  }

  lemma MovedCanon(ms: seq<Member>, i: nat, v: Json)
    requires i < |ms| && UniqueNamed(Obj(ms)) && UniqueNamed(v) && Canon(v) == Canon(ms[i].value)
    ensures UniqueNamed(Obj(MoveLast(ms, i, v))) && Canon(Obj(MoveLast(ms, i, v))) == Canon(Obj(ms))
  {
    MovedUnique(ms, i, v);
    forall m ensures m in CanonMembers(MoveLast(ms, i, v)) <==> m in CanonMembers(ms) {
      MovedMember(ms, i, v, m);
    }
    CanonMembersEqual(MoveLast(ms, i, v), ms);
  }

  lemma CanonDecidesPayload(a: Json, b: Json)
    requires UniqueNamed(a) && UniqueNamed(b) && Canon(a) == Canon(b)
    ensures SigningPayload(a) == SigningPayload(b)
  {
    StripOfCanon(a);
    StripOfCanon(b);
  }

  /** Whether a member can be read does not depend on what is there. */
  ghost predicate Steady<S(!new)>(step: Step<S>, zero: S) {
    forall s, m :: step(s, m).Some? <==> step(zero, m).Some?
  }

  predicate AllReadable<S>(step: Step<S>, zero: S, ms: seq<Member>) {
    forall k :: 0 <= k < |ms| ==> step(zero, ms[k]).Some?
  }

  lemma AllReadableSnoc<S>(step: Step<S>, zero: S, ms: seq<Member>)
    requires ms != []
    ensures AllReadable(step, zero, ms) <==>
            AllReadable(step, zero, ms[..|ms| - 1]) && step(zero, ms[|ms| - 1]).Some?
  {
    if AllReadable(step, zero, ms[..|ms| - 1]) && step(zero, ms[|ms| - 1]).Some? {
      forall k | 0 <= k < |ms| ensures step(zero, ms[k]).Some? {
        if k < |ms| - 1 { assert ms[..|ms| - 1][k] == ms[k]; }
      }
    }
  }

  lemma {:induction false} EachReadable<S(!new)>(step: Step<S>, zero: S, s: S, ms: seq<Member>)
    requires Steady(step, zero)
    ensures Members(step, s, ms).Some? <==> AllReadable(step, zero, ms)
  {
    if ms != [] {
      EachReadable(step, zero, s, ms[..|ms| - 1]);
      AllReadableSnoc(step, zero, ms);
    }
  }

  lemma ManifestsAreSteady()
    ensures Steady(StatementMember, UNSTATED)
  {
    forall st, m ensures StatementMember(st, m).Some? <==> StatementMember(UNSTATED, m).Some? {
      if StatementMember(st, m).Some? {
        MemberReadable(st, UNSTATED, m);
      } else if StatementMember(UNSTATED, m).Some? {
        MemberReadable(UNSTATED, st, m);
      }
    }
  }

  lemma SubjectsAreSteady()
    ensures Steady(SubjectMember, NO_SUBJECT)
  {
  }

  lemma MovedReadable(ms: seq<Member>, i: nat, v: Json)
    requires i < |ms| && Members(StatementMember, UNSTATED, ms).Some?
    requires StatementMember(UNSTATED, Member(ms[i].name, v)).Some?
    ensures Members(StatementMember, UNSTATED, MoveLast(ms, i, v)).Some?
  {
    ManifestsAreSteady();
    EachReadable(StatementMember, UNSTATED, UNSTATED, ms);
    EachReadable(StatementMember, UNSTATED, UNSTATED, MoveLast(ms, i, v));
    var ns := MoveLast(ms, i, v);
    forall k | 0 <= k < |ns| ensures StatementMember(UNSTATED, ns[k]).Some? {
      MovedPlace(ms, i, v, k);
      assert ns[k] == Member(ns[k].name, ns[k].value) && ms[Home(|ms|, i, k)] in ms;
    }
  }

  /** The manifest with its i-th member last is as readable and has the same payload. */
  lemma Moved(manifest: Json, i: nat, v: Json) returns (other: Json)
    requires manifest.Obj? && UniqueNamed(manifest) && ReadStatement(manifest).Some? && i < |manifest.members|
    requires UniqueNamed(v) && Canon(v) == Canon(manifest.members[i].value)
    requires StatementMember(UNSTATED, Member(manifest.members[i].name, v)).Some?
    ensures other == Obj(MoveLast(manifest.members, i, v)) && UniqueNamed(other)
    ensures SigningPayload(other) == SigningPayload(manifest) && ReadStatement(other).Some?
  {
    other := Obj(MoveLast(manifest.members, i, v));
    MovedCanon(manifest.members, i, v);
    CanonDecidesPayload(other, manifest);
    MovedReadable(manifest.members, i, v);
  }

  lemma LastRead(ms: seq<Member>, m: Member)
    requires Members(StatementMember, UNSTATED, ms + [m]).Some?
    ensures Members(StatementMember, UNSTATED, ms).Some?
    ensures Members(StatementMember, UNSTATED, ms + [m]) ==
            StatementMember(Members(StatementMember, UNSTATED, ms).value, m)
  {
    assert (ms + [m])[..|ms|] == ms;
  }

  // ---- an ambiguity shows in some order ----

  /** A manifest with the payload of this one whose last member is its i-th. */
  lemma LastSays(manifest: Json, i: nat, v: Json) returns (other: Json)
    requires manifest.Obj? && UniqueNamed(manifest) && ReadStatement(manifest).Some? && i < |manifest.members|
    requires UniqueNamed(v) && Canon(v) == Canon(manifest.members[i].value)
    requires StatementMember(UNSTATED, Member(manifest.members[i].name, v)).Some?
    ensures UniqueNamed(other) && SigningPayload(other) == SigningPayload(manifest) && ReadStatement(other).Some?
    ensures exists before :: ReadStatement(other) == StatementMember(before, Member(manifest.members[i].name, v))
  {
    other := Moved(manifest, i, v);
    var m := Member(manifest.members[i].name, v);
    var rest := manifest.members[..i] + manifest.members[i + 1..];
    LastRead(rest, m);
    var before := Members(StatementMember, UNSTATED, rest).value;
    assert ReadStatement(other) == StatementMember(before, m);
  }

  lemma MemberAlone(manifest: Json, i: nat)
    requires manifest.Obj? && ReadStatement(manifest).Some? && i < |manifest.members|
    ensures StatementMember(UNSTATED, manifest.members[i]).Some?
  {
    ManifestsAreSteady();
    EachReadable(StatementMember, UNSTATED, UNSTATED, manifest.members);
  }

  lemma ContributorSaid(manifest: Json, i: nat)
    requires manifest.Obj? && UniqueNamed(manifest) && ReadStatement(manifest).Some? && Bound(manifest)
    requires i < |manifest.members| && Meets(manifest.members[i], "contributor") && manifest.members[i].value.Str?
    ensures ReadStatement(manifest).value.contributor == manifest.members[i].value.text
  {
    MemberAlone(manifest, i);
    var other := LastSays(manifest, i, manifest.members[i].value);
    assert SayAlike(manifest, other);
  }

  lemma SubjectSaid(manifest: Json, i: nat, v: Json)
    requires manifest.Obj? && UniqueNamed(manifest) && ReadStatement(manifest).Some? && Bound(manifest)
    requires i < |manifest.members| && Meets(manifest.members[i], "subject")
    requires UniqueNamed(v) && Canon(v) == Canon(manifest.members[i].value)
    requires StatementMember(UNSTATED, Member(manifest.members[i].name, v)).Some?
    ensures exists prior ::
      Pointer(SubjectMember, NO_SUBJECT, prior, v) == Some(ReadStatement(manifest).value.subject)
  {
    var other := LastSays(manifest, i, v);
    assert SayAlike(manifest, other);
    var before :| ReadStatement(other) == StatementMember(before, Member(manifest.members[i].name, v));
    assert Pointer(SubjectMember, NO_SUBJECT, before.subject, v) == Some(ReadStatement(manifest).value.subject);
  }

  lemma NullSaid(manifest: Json, i: nat)
    requires manifest.Obj? && UniqueNamed(manifest) && ReadStatement(manifest).Some? && Bound(manifest)
    requires i < |manifest.members| && Meets(manifest.members[i], "subject") && manifest.members[i].value.Null?
    ensures ReadStatement(manifest).value.subject.None?
  {
    MemberAlone(manifest, i);
    SubjectSaid(manifest, i, manifest.members[i].value);
  }

  lemma ObjectSaid(manifest: Json, i: nat)
    requires manifest.Obj? && UniqueNamed(manifest) && ReadStatement(manifest).Some? && Bound(manifest)
    requires i < |manifest.members| && Meets(manifest.members[i], "subject") && manifest.members[i].value.Obj?
    ensures ReadStatement(manifest).value.subject.Some?
  {
    MemberAlone(manifest, i);
    SubjectSaid(manifest, i, manifest.members[i].value);
  }

  lemma NullOrObject(manifest: Json)
    requires manifest.Obj? && UniqueNamed(manifest) && ReadStatement(manifest).Some? && Bound(manifest)
    ensures !(Nulls(manifest.members, "subject") && GivesObject(manifest.members, "subject"))
  {
    var ms := manifest.members;
    if Nulls(ms, "subject") && GivesObject(ms, "subject") {
      var i :| 0 <= i < |ms| && Meets(ms[i], "subject") && ms[i].value.Null?;
      var j :| 0 <= j < |ms| && Meets(ms[j], "subject") && ms[j].value.Obj?;
      NullSaid(manifest, i);
      ObjectSaid(manifest, j);
    }
  }

  /** The text of a field of a subject, by the fold of the field's name. */
  function TextOf(s: Subject, field: string): string {
    match field
    case "identifier" => s.identifier
    case "version" => s.version
    case "type" => s.typ
    case _ => s.digest
  }

  predicate SubjectField(field: string) {
    field == "identifier" || field == "version" || field == "type" || field == "digest"
  }

  lemma InnerLast(s: Subject, ms: seq<Member>, k: nat, field: string)
    requires k < |ms| && SubjectField(field) && Meets(ms[k], field) && ms[k].value.Str?
    requires Members(SubjectMember, s, ms).Some?
    ensures var r := Members(SubjectMember, s, MoveLast(ms, k, ms[k].value));
            r.Some? && TextOf(r.value, field) == ms[k].value.text
  {
    var ns := MoveLast(ms, k, ms[k].value);
    SubjectsAreSteady();
    EachReadable(SubjectMember, NO_SUBJECT, s, ms);
    forall l | 0 <= l < |ns| ensures SubjectMember(NO_SUBJECT, ns[l]).Some? {
      MovedPlace(ms, k, ms[k].value, l);
      assert ns[l] == ms[Home(|ms|, k, l)];
    }
    EachReadable(SubjectMember, NO_SUBJECT, s, ns);
  }

  lemma WithinSaid(manifest: Json, i: nat, k: nat, field: string)
    requires manifest.Obj? && UniqueNamed(manifest) && ReadStatement(manifest).Some? && Bound(manifest)
    requires i < |manifest.members| && Meets(manifest.members[i], "subject") && manifest.members[i].value.Obj?
    requires k < |manifest.members[i].value.members| && SubjectField(field)
    requires Meets(manifest.members[i].value.members[k], field) && manifest.members[i].value.members[k].value.Str?
    ensures ReadStatement(manifest).value.subject.Some?
    ensures TextOf(ReadStatement(manifest).value.subject.value, field) ==
            manifest.members[i].value.members[k].value.text
  {
    var m := manifest.members[i];
    var xs := m.value.members;
    var v := Obj(MoveLast(xs, k, xs[k].value));
    MovedCanon(xs, k, xs[k].value);
    MemberAlone(manifest, i);
    InnerLast(NO_SUBJECT, xs, k, field);
    SubjectSaid(manifest, i, v);
    var prior :| Pointer(SubjectMember, NO_SUBJECT, prior, v) == Some(ReadStatement(manifest).value.subject);
    SubjectReadable(NO_SUBJECT, OrZero(prior, NO_SUBJECT), xs);
    InnerLast(OrZero(prior, NO_SUBJECT), xs, k, field);
  }

  lemma FieldAgrees(manifest: Json, field: string)
    requires manifest.Obj? && UniqueNamed(manifest) && ReadStatement(manifest).Some? && Bound(manifest)
    requires SubjectField(field)
    ensures OneWithin(manifest.members, "subject", field)
  {
    var ms := manifest.members;
    forall i, j | 0 <= i < |ms| && 0 <= j < |ms| && Meets(ms[i], "subject") && Meets(ms[j], "subject")
      && ms[i].value.Obj? && ms[j].value.Obj?
      ensures AgreeOn(ms[i].value.members, ms[j].value.members, field)
    {
      var xs, ys := ms[i].value.members, ms[j].value.members;
      forall k, l | 0 <= k < |xs| && 0 <= l < |ys| ensures NotApart(xs[k], ys[l], field) {
        if Meets(xs[k], field) && Meets(ys[l], field) && xs[k].value.Str? && ys[l].value.Str? {
          WithinSaid(manifest, i, k, field);
          WithinSaid(manifest, j, l, field);
        }
      }
    }
  }

  lemma ContributorAgrees(manifest: Json)
    requires manifest.Obj? && UniqueNamed(manifest) && ReadStatement(manifest).Some? && Bound(manifest)
    ensures AgreeOn(manifest.members, manifest.members, "contributor")
  {
    var ms := manifest.members;
    forall i, j | 0 <= i < |ms| && 0 <= j < |ms| ensures NotApart(ms[i], ms[j], "contributor") {
      if Meets(ms[i], "contributor") && Meets(ms[j], "contributor") && ms[i].value.Str? && ms[j].value.Str? {
        ContributorSaid(manifest, i);
        ContributorSaid(manifest, j);
      }
    }
  }

  /** The signing payload of a manifest determines contributor and subject exactly when
      members that differ in letter case alone do not contradict each other. */
  lemma BoundIff(manifest: Json)
    requires manifest.Obj? && UniqueNamed(manifest) && ReadStatement(manifest).Some?
    ensures Bound(manifest) <==> Unambiguous(manifest.members)
  {
    if Unambiguous(manifest.members) {
      forall other: Json | UniqueNamed(other) && SigningPayload(other) == SigningPayload(manifest)
        && ReadStatement(other).Some? ensures SayAlike(manifest, other)
      {
        PayloadBindsStatement(manifest, other);
      }
    }
    if Bound(manifest) {
      ContributorAgrees(manifest);
      NullOrObject(manifest);
      FieldAgrees(manifest, "identifier");
      FieldAgrees(manifest, "version");
      FieldAgrees(manifest, "type");
      FieldAgrees(manifest, "digest");
    }
  }

  /** No two names of one fold, no ambiguity. */
  lemma FoldedIsUnambiguous(manifest: Json)
    requires manifest.Obj? && UniqueFolded(manifest)
    ensures Unambiguous(manifest.members)
  {
    var ms := manifest.members;
    forall field ensures OneWithin(ms, "subject", field) {
      forall i, j | 0 <= i < |ms| && 0 <= j < |ms| ensures AgreeWithin(ms[i], ms[j], "subject", field) {
        if Meets(ms[i], "subject") && Meets(ms[j], "subject") && ms[i].value.Obj? {
          assert i == j;
          FoldedAgrees(ms[i].value, field);
        }
      }
    }
    FoldedAgrees(manifest, "contributor");
  }

  lemma FoldedAgrees(j: Json, field: string)
    requires j.Obj? && UniqueFolded(j)
    ensures AgreeOn(j.members, j.members, field)
  {
    var ms := j.members;
    forall i, k | 0 <= i < |ms| && 0 <= k < |ms| ensures NotApart(ms[i], ms[k], field) {
      if Meets(ms[i], field) && Meets(ms[k], field) { assert i == k; }
    }
  }

  /** Two subjects under names that differ in case alone. */
  function TwoSubjects(version: string, other: string): seq<Member> {
    [Member("Subject", VersionOnly(version)), Member("subject", VersionOnly(other))]
  }

  function VersionOnly(version: string): Json {
    Obj([Member("version", Str(version))])
  }

  lemma VersionOnlyRead(prior: Subject, version: string)
    ensures Object(SubjectMember, prior, VersionOnly(version)) == Some(prior.(version := version))
  {
    LowerFold("version");
    OneMember(SubjectMember, prior, Member("version", Str(version)));
  }

  lemma SubjectsMeet()
    ensures Fold("Subject") == Fold("subject") == "subject" && Fold("version") == "version"
  {
    assert Fold("Subject") == "subject" && Fold("subject") == "subject";
    LowerFold("version");
  }

  /** Such a manifest repeats no name, and its payload binds neither version. */
  lemma TwoSubjectsUnbound(version: string, other: string)
    requires version != other
    ensures UniqueNamed(Obj(TwoSubjects(version, other))) && ReadStatement(Obj(TwoSubjects(version, other))).Some?
    ensures !Bound(Obj(TwoSubjects(version, other)))
  {
    var ms := TwoSubjects(version, other);
    var first := Statement("", Some(Subject("", version, "", "")), None);
    SubjectsMeet();
    assert "Subject"[0] != "subject"[0];
    MemberIsUnique(Member("version", Str(version)));
    MemberIsUnique(Member("version", Str(other)));
    PairIsUnique(ms[0], ms[1]);
    VersionOnlyRead(NO_SUBJECT, version);
    VersionOnlyRead(first.subject.value, other);
    assert StatementMember(UNSTATED, ms[0]) == Some(first);
    TwoMembers(StatementMember, UNSTATED, ms[0], ms[1]);
    assert !NotApart(ms[0].value.members[0], ms[1].value.members[0], "version");
    assert !AgreeWithin(ms[0], ms[1], "subject", "version");
    BoundIff(Obj(ms));
  }
}
