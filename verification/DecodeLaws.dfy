/** What reading into what is there yields, and when it yields what reading alone does. */
module ReadingLaws {
  import opened Json
  import opened Text
  import opened Catalog
  import opened Decoding

  // ---- which members meet a field ----

  predicate Meets(m: Member, field: string) {
    Fold(m.name) == field
  }

  /** Some string is given for the field. */
  predicate SetsText(ms: seq<Member>, field: string) {
    exists i :: 0 <= i < |ms| && Meets(ms[i], field) && ms[i].value.Str?
  }

  predicate Gives(ms: seq<Member>, field: string) {
    exists i :: 0 <= i < |ms| && Meets(ms[i], field)
  }

  predicate Nulls(ms: seq<Member>, field: string) {
    exists i :: 0 <= i < |ms| && Meets(ms[i], field) && ms[i].value.Null?
  }

  /** Some object given for the outer field gives a string for the inner one. */
  predicate SetsWithin(ms: seq<Member>, outer: string, inner: string) {
    exists i :: 0 <= i < |ms| && Meets(ms[i], outer) && ms[i].value.Obj? && SetsText(ms[i].value.members, inner)
  }

  // ---- the condition ----

  /** Texts that were there are given again, or were empty. */
  predicate OverridesSubject(ms: seq<Member>, outer: string, s: Subject) {
    && (s.identifier == "" || SetsWithin(ms, outer, "identifier"))
    && (s.version == "" || SetsWithin(ms, outer, "version"))
    && (s.typ == "" || SetsWithin(ms, outer, "type"))
    && (s.digest == "" || SetsWithin(ms, outer, "digest"))
  }

  predicate OverridesSignature(ms: seq<Member>, outer: string, s: Signature) {
    && (s.signer == "" || SetsWithin(ms, outer, "signer"))
    && (s.profile == "" || SetsWithin(ms, outer, "profile"))
    && (s.issuedAt == "" || SetsWithin(ms, outer, "issuedat"))
    && (s.expiresAt == "" || SetsWithin(ms, outer, "expiresat"))
    && (s.jws == "" || SetsWithin(ms, outer, "jws"))
  }

  /** The manifest gives anew all that the prior statement has: a null resets a whole
      object, and otherwise each text in it must be given again. */
  predicate Overrides(j: Json, prior: Statement) {
    if !j.Obj? then prior == UNSTATED
    else
      && (prior.contributor == "" || SetsText(j.members, "contributor"))
      && (prior.subject.None? || Nulls(j.members, "subject") ||
          (Gives(j.members, "subject") && OverridesSubject(j.members, "subject", prior.subject.value)))
      && (prior.signature.None? || Nulls(j.members, "signature") ||
          (Gives(j.members, "signature") && OverridesSignature(j.members, "signature", prior.signature.value)))
  }

  // ---- members in order ----

  lemma {:induction false} MembersAppend<S>(step: Step<S>, prior: S, ms: seq<Member>, ns: seq<Member>)
    ensures Members(step, prior, ms + ns) ==
            match Members(step, prior, ms) case None => None case Some(s) => Members(step, s, ns)
  {
    if ns == [] {
      assert ms + ns == ms;
    } else {
      var most, last := ns[..|ns| - 1], ns[|ns| - 1];
      MembersAppend(step, prior, ms, most);
      assert (ms + ns)[..|ms + ns| - 1] == ms + most && (ms + ns)[|ms + ns| - 1] == last;
    }
  }

  // ---- slices ----

  lemma {:induction false} ItemsAre<T>(read: Reader<T>, zero: T, room: seq<T>, items: seq<Json>)
    requires Items(read, zero, room, items).Some?
    ensures forall k :: 0 <= k < |items| ==>
      read(if k < |room| then room[k] else zero, items[k]) == Some(Items(read, zero, room, items).value[k])
  {
    if items != [] {
      ItemsAre(read, zero, room, items[..|items| - 1]);
    }
  }

  /** An array is read over what stands in its places, also over what a shorter list left
      there, and leaves the places behind it as they are; an empty one and null leave none. */
  lemma SliceIs<T>(read: Reader<T>, zero: T, prior: Slice<T>, j: Json)
    requires ReadSlice(read, zero, prior, j).Some?
    ensures j.Null? || j.Arr?
    ensures var r := ReadSlice(read, zero, prior, j).value;
            var items := if j.Arr? then j.items else [];
            && |r.items| == |items|
            && (items == [] ==> r.Room() == [])
            && (forall k :: 0 <= k < |items| ==>
                  read(if k < |prior.Room()| then prior.Room()[k] else zero, items[k]) == Some(r.items[k]))
            && (items != [] ==> forall k :: |items| <= k < |prior.Room()| ==>
                  k < |r.Room()| && r.Room()[k] == prior.Room()[k])
  {
    var r := ReadSlice(read, zero, prior, j).value;
    if j.Arr? && j.items != [] {
      ItemsAre(read, zero, prior.Room(), j.items);
      RoomBehind(r.items, prior.Room(), r.spare);
      assert r.Room() == r.items + r.spare && r.items == Items(read, zero, prior.Room(), j.items).value;
    } else {
      assert r.Room() == [];
    }
  }

  lemma RoomBehind<T>(items: seq<T>, room: seq<T>, spare: seq<T>)
    requires spare == Behind(room, |items|)
    ensures forall k :: |items| <= k < |room| ==> k < |items + spare| && (items + spare)[k] == room[k]
  {
  }

  // ---- texts ----

  /** The last string given for the field, or what was there. */
  function TextAfter(ms: seq<Member>, field: string, prior: string): string {
    if ms == [] then prior
    else
      var last := ms[|ms| - 1];
      if Meets(last, field) && last.value.Str? then last.value.text else TextAfter(ms[..|ms| - 1], field, prior)
  }

  lemma {:induction false} TextGiven(ms: seq<Member>, field: string, prior: string)
    ensures SetsText(ms, field) ==> TextAfter(ms, field, prior) == TextAfter(ms, field, "")
    ensures !SetsText(ms, field) ==> TextAfter(ms, field, prior) == prior
  {
    if ms != [] {
      var most, last := ms[..|ms| - 1], ms[|ms| - 1];
      TextGiven(most, field, prior);
      TextGiven(most, field, "");
      if SetsText(most, field) {
        var i :| 0 <= i < |most| && Meets(most[i], field) && most[i].value.Str?;
        assert ms[i] == most[i];
      }
    }
  }

  lemma TextKept(ms: seq<Member>, field: string, prior: string)
    ensures TextAfter(ms, field, prior) == TextAfter(ms, field, "") <==> prior == "" || SetsText(ms, field)
  {
    TextGiven(ms, field, prior);
    TextGiven(ms, field, "");
  }

  lemma {:induction false} SubjectAfter(s: Subject, ms: seq<Member>)
    requires Members(SubjectMember, NO_SUBJECT, ms).Some?
    ensures Members(SubjectMember, s, ms) ==
            Some(Subject(TextAfter(ms, "identifier", s.identifier), TextAfter(ms, "version", s.version),
                TextAfter(ms, "type", s.typ), TextAfter(ms, "digest", s.digest)))
  {
    if ms != [] {
      SubjectAfter(s, ms[..|ms| - 1]);
    }
  }

  lemma {:induction false} SignatureAfter(s: Signature, ms: seq<Member>)
    requires Members(SignatureMember, NO_SIGNATURE, ms).Some?
    ensures Members(SignatureMember, s, ms) ==
            Some(Signature(TextAfter(ms, "signer", s.signer), TextAfter(ms, "profile", s.profile),
                TextAfter(ms, "issuedat", s.issuedAt), TextAfter(ms, "expiresat", s.expiresAt),
                TextAfter(ms, "jws", s.jws)))
  {
    if ms != [] {
      SignatureAfter(s, ms[..|ms| - 1]);
    }
  }

  lemma SubjectKept(s: Subject, ms: seq<Member>)
    requires Members(SubjectMember, NO_SUBJECT, ms).Some?
    ensures Members(SubjectMember, s, ms) == Members(SubjectMember, NO_SUBJECT, ms) <==>
            && (s.identifier == "" || SetsText(ms, "identifier")) && (s.version == "" || SetsText(ms, "version"))
            && (s.typ == "" || SetsText(ms, "type")) && (s.digest == "" || SetsText(ms, "digest"))
  {
    SubjectAfter(s, ms);
    SubjectAfter(NO_SUBJECT, ms);
    TextKept(ms, "identifier", s.identifier);
    TextKept(ms, "version", s.version);
    TextKept(ms, "type", s.typ);
    TextKept(ms, "digest", s.digest);
  }

  lemma SignatureKept(s: Signature, ms: seq<Member>)
    requires Members(SignatureMember, NO_SIGNATURE, ms).Some?
    ensures Members(SignatureMember, s, ms) == Members(SignatureMember, NO_SIGNATURE, ms) <==>
            && (s.signer == "" || SetsText(ms, "signer")) && (s.profile == "" || SetsText(ms, "profile"))
            && (s.issuedAt == "" || SetsText(ms, "issuedat")) && (s.expiresAt == "" || SetsText(ms, "expiresat"))
            && (s.jws == "" || SetsText(ms, "jws"))
  {
    SignatureAfter(s, ms);
    SignatureAfter(NO_SIGNATURE, ms);
    TextKept(ms, "signer", s.signer);
    TextKept(ms, "profile", s.profile);
    TextKept(ms, "issuedat", s.issuedAt);
    TextKept(ms, "expiresat", s.expiresAt);
    TextKept(ms, "jws", s.jws);
  }

  // ---- objects behind pointers ----

  /** What the members for one field make of a pointer. */
  function PointerAfter<S>(step: Step<S>, zero: S, prior: Option<S>, ms: seq<Member>, field: string):
      Option<Option<S>> {
    if ms == [] then Some(prior)
    else
      match PointerAfter(step, zero, prior, ms[..|ms| - 1], field)
      case None => None
      case Some(p) => if Meets(ms[|ms| - 1], field) then Pointer(step, zero, p, ms[|ms| - 1].value) else Some(p)
  }

  /** The members of all objects given for the field. */
  function Within(ms: seq<Member>, field: string): seq<Member> {
    if ms == [] then []
    else
      var last := ms[|ms| - 1];
      Within(ms[..|ms| - 1], field) + if Meets(last, field) && last.value.Obj? then last.value.members else []
  }

  lemma {:induction false} WithinMember(ms: seq<Member>, field: string, m: Member)
    ensures m in Within(ms, field) <==>
            exists i :: 0 <= i < |ms| && Meets(ms[i], field) && ms[i].value.Obj? && m in ms[i].value.members
  {
    if ms != [] {
      var most, last := ms[..|ms| - 1], ms[|ms| - 1];
      WithinMember(most, field, m);
      if m in Within(most, field) {
        var i :| 0 <= i < |most| && Meets(most[i], field) && most[i].value.Obj? && m in most[i].value.members;
        assert ms[i] == most[i];
      }
    }
  }

  lemma SetsWithinIff(ms: seq<Member>, outer: string, inner: string)
    ensures SetsWithin(ms, outer, inner) <==> SetsText(Within(ms, outer), inner)
  {
    var ws := Within(ms, outer);
    if SetsWithin(ms, outer, inner) {
      var i :| 0 <= i < |ms| && Meets(ms[i], outer) && ms[i].value.Obj? && SetsText(ms[i].value.members, inner);
      var k :| 0 <= k < |ms[i].value.members| && Meets(ms[i].value.members[k], inner)
        && ms[i].value.members[k].value.Str?;
      WithinMember(ms, outer, ms[i].value.members[k]);
    }
    if k :| 0 <= k < |ws| && Meets(ws[k], inner) && ws[k].value.Str? {
      WithinMember(ms, outer, ws[k]);
    }
  }

  /** Without a null, a pointer takes in the members of all its objects in order. */
  lemma {:induction false} PointerMerges<S>(step: Step<S>, zero: S, prior: Option<S>, ms: seq<Member>, field: string)
    requires PointerAfter(step, zero, prior, ms, field).Some? && !Nulls(ms, field)
    ensures !Gives(ms, field) ==> PointerAfter(step, zero, prior, ms, field) == Some(prior) && Within(ms, field) == []
    ensures Gives(ms, field) ==>
      var r := Members(step, OrZero(prior, zero), Within(ms, field));
      r.Some? && PointerAfter(step, zero, prior, ms, field) == Some(Some(r.value))
  {
    if ms != [] {
      var most, last := ms[..|ms| - 1], ms[|ms| - 1];
      assert forall i :: 0 <= i < |most| ==> most[i] == ms[i];
      PointerMerges(step, zero, prior, most, field);
      if Meets(last, field) {
        assert ms[|ms| - 1] == last && !last.value.Null?;
        MembersAppend(step, OrZero(prior, zero), Within(most, field), last.value.members);
      } else {
        assert Within(ms, field) == Within(most, field);
        assert Gives(ms, field) <==> Gives(most, field);
      }
    }
  }

  /** A null makes what was there before it irrelevant. */
  lemma {:induction false} PointerResets<S>(step: Step<S>, zero: S, prior: Option<S>, ms: seq<Member>, field: string)
    requires PointerAfter(step, zero, prior, ms, field).Some? && PointerAfter(step, zero, None, ms, field).Some?
    requires Nulls(ms, field)
    ensures PointerAfter(step, zero, prior, ms, field) == PointerAfter(step, zero, None, ms, field)
  {
    var most, last := ms[..|ms| - 1], ms[|ms| - 1];
    if !(Meets(last, field) && last.value.Null?) {
      var i :| 0 <= i < |ms| && Meets(ms[i], field) && ms[i].value.Null?;
      assert most[i] == ms[i];
      PointerResets(step, zero, prior, most, field);
    }
  }

  /** Reading the pointer's objects over p agrees with reading them over nothing. */
  ghost predicate Agrees<S>(step: Step<S>, zero: S, p: S, ms: seq<Member>, field: string) {
    Members(step, p, Within(ms, field)) == Members(step, zero, Within(ms, field))
  }

  lemma PointerKept<S>(step: Step<S>, zero: S, prior: Option<S>, ms: seq<Member>, field: string)
    requires PointerAfter(step, zero, prior, ms, field).Some? && PointerAfter(step, zero, None, ms, field).Some?
    ensures PointerAfter(step, zero, prior, ms, field) == PointerAfter(step, zero, None, ms, field) <==>
            prior.None? || Nulls(ms, field) ||
            (Gives(ms, field) && Agrees(step, zero, prior.value, ms, field))
  {
    if Nulls(ms, field) {
      PointerResets(step, zero, prior, ms, field);
    } else {
      PointerMerges(step, zero, prior, ms, field);
      PointerMerges(step, zero, None, ms, field);
    }
  }

  // ---- statements ----

  lemma {:induction false} SubjectReadable(s: Subject, t: Subject, ms: seq<Member>)
    requires Members(SubjectMember, s, ms).Some?
    ensures Members(SubjectMember, t, ms).Some?
  {
    if ms != [] {
      SubjectReadable(s, t, ms[..|ms| - 1]);
    }
  }

  lemma {:induction false} SignatureReadable(s: Signature, t: Signature, ms: seq<Member>)
    requires Members(SignatureMember, s, ms).Some?
    ensures Members(SignatureMember, t, ms).Some?
  {
    if ms != [] {
      SignatureReadable(s, t, ms[..|ms| - 1]);
    }
  }

  lemma MemberReadable(st: Statement, other: Statement, m: Member)
    requires StatementMember(st, m).Some?
    ensures StatementMember(other, m).Some?
  {
    if m.value.Obj? {
      if Meets(m, "subject") {
        SubjectReadable(OrZero(st.subject, NO_SUBJECT), OrZero(other.subject, NO_SUBJECT), m.value.members);
      } else if Meets(m, "signature") {
        SignatureReadable(OrZero(st.signature, NO_SIGNATURE), OrZero(other.signature, NO_SIGNATURE), m.value.members);
      }
    }
  }

  /** A statement is read field by field. */
  predicate IsAfter(prior: Statement, ms: seq<Member>, st: Statement) {
    && st.contributor == TextAfter(ms, "contributor", prior.contributor)
    && PointerAfter(SubjectMember, NO_SUBJECT, prior.subject, ms, "subject") == Some(st.subject)
    && PointerAfter(SignatureMember, NO_SIGNATURE, prior.signature, ms, "signature") == Some(st.signature)
  }

  lemma {:induction false} StatementAfter(prior: Statement, ms: seq<Member>)
    requires Members(StatementMember, prior, ms).Some?
    ensures IsAfter(prior, ms, Members(StatementMember, prior, ms).value)
  {
    if ms != [] {
      StatementAfter(prior, ms[..|ms| - 1]);
    }
  }

  lemma {:induction false} StatementReadable(st: Statement, other: Statement, ms: seq<Member>)
    requires Members(StatementMember, st, ms).Some?
    ensures Members(StatementMember, other, ms).Some?
  {
    if ms != [] {
      var most := ms[..|ms| - 1];
      StatementReadable(st, other, most);
      MemberReadable(Members(StatementMember, st, most).value, Members(StatementMember, other, most).value,
          ms[|ms| - 1]);
    }
  }

  lemma SubjectPart(prior: Option<Subject>, ms: seq<Member>)
    requires PointerAfter(SubjectMember, NO_SUBJECT, prior, ms, "subject").Some?
    requires PointerAfter(SubjectMember, NO_SUBJECT, None, ms, "subject").Some?
    ensures PointerAfter(SubjectMember, NO_SUBJECT, prior, ms, "subject") ==
            PointerAfter(SubjectMember, NO_SUBJECT, None, ms, "subject") <==>
            prior.None? || Nulls(ms, "subject") ||
            (Gives(ms, "subject") && OverridesSubject(ms, "subject", prior.value))
  {
    PointerKept(SubjectMember, NO_SUBJECT, prior, ms, "subject");
    if prior.Some? && !Nulls(ms, "subject") && Gives(ms, "subject") {
      PointerMerges(SubjectMember, NO_SUBJECT, None, ms, "subject");
      SubjectKept(prior.value, Within(ms, "subject"));
      SetsWithinIff(ms, "subject", "identifier");
      SetsWithinIff(ms, "subject", "version");
      SetsWithinIff(ms, "subject", "type");
      SetsWithinIff(ms, "subject", "digest");
    }
  }

  lemma SignaturePart(prior: Option<Signature>, ms: seq<Member>)
    requires PointerAfter(SignatureMember, NO_SIGNATURE, prior, ms, "signature").Some?
    requires PointerAfter(SignatureMember, NO_SIGNATURE, None, ms, "signature").Some?
    ensures PointerAfter(SignatureMember, NO_SIGNATURE, prior, ms, "signature") ==
            PointerAfter(SignatureMember, NO_SIGNATURE, None, ms, "signature") <==>
            prior.None? || Nulls(ms, "signature") ||
            (Gives(ms, "signature") && OverridesSignature(ms, "signature", prior.value))
  {
    PointerKept(SignatureMember, NO_SIGNATURE, prior, ms, "signature");
    if prior.Some? && !Nulls(ms, "signature") && Gives(ms, "signature") {
      PointerMerges(SignatureMember, NO_SIGNATURE, None, ms, "signature");
      SignatureKept(prior.value, Within(ms, "signature"));
      SetsWithinIff(ms, "signature", "signer");
      SetsWithinIff(ms, "signature", "profile");
      SetsWithinIff(ms, "signature", "issuedat");
      SetsWithinIff(ms, "signature", "expiresat");
      SetsWithinIff(ms, "signature", "jws");
    }
  }

  /** A manifest read over a prior statement says what it says alone exactly when it gives
      anew all that the prior statement has. */
  lemma ReadOverIff(prior: Statement, j: Json)
    requires ReadStatement(j).Some?
    ensures ReadManifest(prior, j).Some?
    ensures ReadManifest(prior, j) == ReadStatement(j) <==> Overrides(j, prior)
  {
    if j.Obj? {
      StatementReadable(UNSTATED, prior, j.members);
      StatementAfter(prior, j.members);
      StatementAfter(UNSTATED, j.members);
      TextKept(j.members, "contributor", prior.contributor);
      SubjectPart(prior.subject, j.members);
      SignaturePart(prior.signature, j.members);
    }
  }
}
