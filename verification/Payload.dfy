/** The payload a detached signature covers: the canonical text of a document
    without its own signature value. */
module Payload {
  import opened Json
  import opened JsonText

  const SIGNATURE := "signature"
  const JWS := "jws"
  const ADDITIONAL_SIGNATURES := "additionalSignatures"

  datatype Result<+T> = Ok(value: T) | Uncanonicalizable

  // ---- specification ----

  function Without(ms: seq<Member>, name: string): (r: seq<Member>)
    ensures forall m :: m in r <==> m in ms && m.name != name
  {
    if ms == [] then [] else (if ms[0].name == name then [] else [ms[0]]) + Without(ms[1..], name)
  }

  /** The value of a member called signature without its jws. */
  function StripValue(m: Member): Member {
    if m.name == SIGNATURE && m.value.Obj? then Member(m.name, Obj(Without(m.value.members, JWS))) else m
  }

  function StripValues(ms: seq<Member>): (r: seq<Member>)
    ensures |r| == |ms|
    ensures forall i :: 0 <= i < |ms| ==> r[i] == StripValue(ms[i])
  {
    seq(|ms|, i requires 0 <= i < |ms| => StripValue(ms[i]))
  }

  /** The document without its top-level additionalSignatures and without the jws of
      its top-level signature object. Nothing deeper is touched. */
  function Strip(doc: Json): Json {
    if doc.Obj? then Obj(StripValues(Without(doc.members, ADDITIONAL_SIGNATURES))) else doc
  }

  /** The text a signature over doc covers. */
  function SigningPayload(doc: Json): string {
    Write(Canon(Strip(doc)))
  }

  // ---- the algorithm ----

  /** Only objects and arrays without repeated names have a canonical form. */
  predicate Canonicalizable(doc: Json) {
    (doc.Obj? || doc.Arr?) && UniqueNamed(doc)
  }

  function Canonicalize(doc: Json): Result<string> {
    if Canonicalizable(doc) then Ok(Write(Canon(doc))) else Uncanonicalizable
  }

  /** json.Unmarshal into a map: the members of an object, None for anything else. */
  function DecodeObject(doc: Json): Option<map<string, Json>> {
    if doc.Obj? then Some(ToMap(doc.members)) else None
  }

  class RawObject {
    var members: map<string, Json>

    constructor (members: map<string, Json>)
      ensures this.members == members
    {
      this.members := members;
    }
  }

  /** json.Marshal of a map, in some member order. */
  method Marshal(m: map<string, Json>) returns (doc: Json)
    ensures doc.Obj? && Lists(doc.members, m)
  {
    var ms: seq<Member> := [];
    var left := m.Keys;
    while left != {}
      invariant left <= m.Keys && DistinctNames(ms)
      invariant forall x: Member :: x in ms <==> x.name in m.Keys - left && m[x.name] == x.value
      decreases left
    {
      var name :| name in left;
      ghost var before := ms;
      forall i | 0 <= i < |ms| ensures ms[i].name != name {
        assert ms[i] in ms;
      }
      ms := ms + [Member(name, m[name])];
      left := left - {name};
      assert forall x: Member :: x in ms <==> x in before || x == Member(name, m[name]);
    }
    doc := Obj(ms);
  }

  /** Removes the jws of the object's signature member and says whether it did. */
  method StripJWS(raw: RawObject) returns (stripped: bool)
    modifies raw
    ensures stripped <==> HasJWS(old(raw.members))
    ensures !stripped ==> raw.members == old(raw.members)
    ensures stripped ==>
              SIGNATURE in raw.members && raw.members == old(raw.members)[SIGNATURE := raw.members[SIGNATURE]] &&
              ListsStripped(raw.members[SIGNATURE], old(raw.members)[SIGNATURE])
  {
    if SIGNATURE !in raw.members {
      return false;
    }
    var decoded := DecodeObject(raw.members[SIGNATURE]);
    if decoded.None? || JWS !in decoded.value {
      return false;
    }
    var signature := new RawObject(decoded.value);
    signature.members := signature.members - {JWS};
    var s := Marshal(signature.members);
    raw.members := raw.members[SIGNATURE := s];
    return true;
  }

  /** stripped is the object signature without its jws, in some member order. */
  ghost predicate ListsStripped(stripped: Json, signature: Json) {
    signature.Obj? && stripped.Obj? && Lists(stripped.members, ToMap(signature.members) - {JWS})
  }

  predicate HasJWS(m: map<string, Json>) {
    SIGNATURE in m && m[SIGNATURE].Obj? && JWS in ToMap(m[SIGNATURE].members)
  }

  /** Works on the canonical text: decodes its object, removes what a signature
      cannot cover and canonicalizes again, unless there was nothing to remove. */
  method CanonicalizeForSignature(doc: Json) returns (r: Result<string>)
    ensures r == if Canonicalizable(doc) then Ok(SigningPayload(doc)) else Uncanonicalizable
  {
    r := Canonicalize(doc);
    if r.Uncanonicalizable? {
      return;
    }
    var canonical := r.value;
    FirstChar(Canon(doc));
    if canonical == "" || canonical[0] != '{' {
      return;
    }
    var text := Read(canonical);
    assert text == Some((Canon(doc), "")) by {
      ReadWritten(Canon(doc), "");
      assert canonical + "" == canonical;
    }
    CanonFacts(doc);
    ghost var ms := Canon(doc).members;
    ListsToMap(ms);
    var raw := new RawObject(DecodeObject(text.value.0).value);
    var hasAdditional := ADDITIONAL_SIGNATURES in raw.members;
    raw.members := raw.members - {ADDITIONAL_SIGNATURES};
    ghost var kept := raw.members;
    var stripped := StripJWS(raw);
    if !hasAdditional && !stripped {
      NothingToStrip(ms);
      StripOfCanon(doc);
      CanonFacts(doc);
      return;
    }
    var payload := Marshal(raw.members);
    ghost var s := if stripped then raw.members[SIGNATURE] else Null;
    StrippedMap(ms, kept, raw.members, s, payload.members);
    StripOfCanon(doc);
    r := Canonicalize(payload);
  }

  // ---- the algorithm computes the specification ----

  lemma {:induction false} WithoutDistinct(ms: seq<Member>, name: string)
    requires DistinctNames(ms)
    ensures DistinctNames(Without(ms, name))
  {
    if ms != [] {
      WithoutDistinct(ms[1..], name);
      forall i | 0 <= i < |Without(ms[1..], name)| ensures Without(ms[1..], name)[i].name != ms[0].name {
        assert Without(ms[1..], name)[i] in ms[1..];
      }
    }
  }

  lemma StripUnique(doc: Json)
    requires UniqueNamed(doc)
    ensures UniqueNamed(Strip(doc))
  {
    if doc.Obj? {
      var kept := Without(doc.members, ADDITIONAL_SIGNATURES);
      WithoutDistinct(doc.members, ADDITIONAL_SIGNATURES);
      forall i | 0 <= i < |kept| ensures UniqueNamed(StripValue(kept[i]).value) {
        assert kept[i] in doc.members;
        StripValueUnique(kept[i]);
      }
    }
  }

  lemma StripValueUnique(m: Member)
    requires UniqueNamed(m.value)
    ensures UniqueNamed(StripValue(m).value)
  {
    if m.name == SIGNATURE && m.value.Obj? {
      WithoutDistinct(m.value.members, JWS);
      var rest := Without(m.value.members, JWS);
      forall i | 0 <= i < |rest| ensures UniqueNamed(rest[i].value) {
        assert rest[i] in m.value.members;
      }
    }
  }

  /** Two listings of one map have the same canonical form. */
  lemma ListsCanon(ms: seq<Member>, ns: seq<Member>)
    requires DistinctNames(ms) && DistinctNames(ns) && forall x :: x in ms <==> x in ns
    ensures Canon(Obj(ms)) == Canon(Obj(ns))
  {
    forall m ensures m in CanonMembers(ms) <==> m in CanonMembers(ns) {
      if m in CanonMembers(ms) {
        var i :| 0 <= i < |ms| && CanonMembers(ms)[i] == m;
        assert ms[i] in ns;
        var j :| 0 <= j < |ns| && ns[j] == ms[i];
        assert CanonMembers(ns)[j] == m;
      }
      if m in CanonMembers(ns) {
        var i :| 0 <= i < |ns| && CanonMembers(ns)[i] == m;
        assert ns[i] in ms;
        var j :| 0 <= j < |ms| && ms[j] == ns[i];
        assert CanonMembers(ms)[j] == m;
      }
    }
    CanonMembersEqual(ms, ns);
  }

  lemma WithoutCanon(ms: seq<Member>, name: string, x: Member)
    ensures x in CanonMembers(Without(ms, name)) <==> x in CanonMembers(ms) && x.name != name
  {
    var kept := Without(ms, name);
    if x in CanonMembers(kept) {
      var i :| 0 <= i < |kept| && CanonMembers(kept)[i] == x;
      assert kept[i] in ms;
      var j :| 0 <= j < |ms| && ms[j] == kept[i];
      assert CanonMembers(ms)[j] == x;
    }
    if x in CanonMembers(ms) && x.name != name {
      var i :| 0 <= i < |ms| && CanonMembers(ms)[i] == x;
      assert ms[i] in kept;
      var j :| 0 <= j < |kept| && kept[j] == ms[i];
      assert CanonMembers(kept)[j] == x;
    }
  }

  /** Removing a member before or after putting an object in order is the same. */
  lemma CanonWithout(ms: seq<Member>, name: string)
    requires DistinctNames(ms)
    ensures Canon(Obj(Without(Canon(Obj(ms)).members, name))) == Canon(Canon(Obj(Without(ms, name))))
  {
    var cm := CanonMembers(ms);
    var kept := CanonMembers(Without(ms, name));
    SortFacts(cm);
    SortedDistinct(Sort(cm));
    WithoutDistinct(Sort(cm), name);
    WithoutDistinct(ms, name);
    SortFacts(kept);
    SortedDistinct(Sort(kept));
    forall x ensures x in Without(Sort(cm), name) <==> x in Sort(kept) {
      WithoutCanon(ms, name, x);
      SortKeepsMembers(cm, x);
      SortKeepsMembers(kept, x);
    }
    ListsCanon(Without(Sort(cm), name), Sort(kept));
  }

  lemma SortedDistinct(ms: seq<Member>)
    requires Sorted(ms)
    ensures DistinctNames(ms)
  {
    forall i, j | 0 <= i < j < |ms| ensures ms[i].name != ms[j].name {
      LessIsTotal(ms[i].name, ms[i].name);
    }
  }

  lemma CanonStripValue(m: Member)
    requires UniqueNamed(m.value)
    ensures Canon(StripValue(Member(m.name, Canon(m.value))).value) == Canon(StripValue(m).value)
  {
    CanonFacts(m.value);
    if m.name == SIGNATURE && m.value.Obj? {
      CanonWithout(m.value.members, JWS);
      StripValueUnique(m);
      CanonFacts(StripValue(m).value);
    }
  }

  /** Stripping may be done before or after canonicalizing. */
  lemma StripOfCanon(doc: Json)
    requires UniqueNamed(doc)
    ensures Canon(Strip(Canon(doc))) == Canon(Strip(doc))
  {
    if !doc.Obj? {
      CanonFacts(doc);
    } else {
      var ms := doc.members;
      var cm := CanonMembers(ms);
      var a, b := StripValues(Without(Sort(cm), ADDITIONAL_SIGNATURES)),
          StripValues(Without(ms, ADDITIONAL_SIGNATURES));
      CanonFacts(doc);
      StripUnique(Canon(doc));
      StripUnique(doc);
      forall x ensures x in CanonMembers(a) <==> x in CanonMembers(b) {
        StrippedEntry(Sort(cm), x);
        StrippedEntry(ms, x);
        EnteredSort(cm, x);
        EnteredCanon(ms, x);
      }
      CanonMembersEqual(a, b);
    }
  }

  /** The entry a kept member contributes to the canonical stripped object. */
  function Entry(m: Member): Member {
    Member(m.name, Canon(StripValue(m).value))
  }

  predicate EntryOf(m: Member, x: Member) {
    m.name != ADDITIONAL_SIGNATURES && x == Entry(m)
  }

  /** x is the entry of a member of ms that stripping keeps. */
  predicate Entered(ms: seq<Member>, x: Member) {
    exists i :: 0 <= i < |ms| && EntryOf(ms[i], x)
  }

  lemma StrippedEntry(ms: seq<Member>, x: Member)
    ensures x in CanonMembers(StripValues(Without(ms, ADDITIONAL_SIGNATURES))) <==> Entered(ms, x)
  {
    var kept := Without(ms, ADDITIONAL_SIGNATURES);
    if x in CanonMembers(StripValues(kept)) {
      var i := EntryBehind(kept, x);
      assert kept[i] in ms && EntryOf(kept[i], x);
      var j :| 0 <= j < |ms| && ms[j] == kept[i];
    }
    if Entered(ms, x) {
      var j :| 0 <= j < |ms| && EntryOf(ms[j], x);
      assert ms[j] in kept;
      EntryKept(kept, ms[j]);
    }
  }

  lemma EntryBehind(kept: seq<Member>, x: Member) returns (i: nat)
    requires x in CanonMembers(StripValues(kept))
    ensures i < |kept| && x == CanonMembers(StripValues(kept))[i]
  {
    i :| 0 <= i < |kept| && CanonMembers(StripValues(kept))[i] == x;
  }

  lemma EntryKept(kept: seq<Member>, m: Member)
    requires m in kept
    ensures Member(StripValue(m).name, Canon(StripValue(m).value)) in CanonMembers(StripValues(kept))
  {
    var i :| 0 <= i < |kept| && kept[i] == m;
    assert CanonMembers(StripValues(kept))[i] == Member(StripValue(m).name, Canon(StripValue(m).value));
  }

  lemma EntryOfCanon(m: Member, x: Member)
    requires UniqueNamed(m.value)
    ensures EntryOf(Member(m.name, Canon(m.value)), x) <==> EntryOf(m, x)
  {
    CanonStripValue(m);
  }

  /** Canonicalizing the members first contributes the same entries. */
  lemma EnteredCanon(ms: seq<Member>, x: Member)
    requires forall i :: 0 <= i < |ms| ==> UniqueNamed(ms[i].value)
    ensures Entered(CanonMembers(ms), x) <==> Entered(ms, x)
  {
    forall i | 0 <= i < |ms| ensures EntryOf(CanonMembers(ms)[i], x) <==> EntryOf(ms[i], x) {
      EntryOfCanon(ms[i], x);
    }
  }

  lemma EnteredSort(ms: seq<Member>, x: Member)
    ensures Entered(Sort(ms), x) <==> Entered(ms, x)
  {
    if Entered(Sort(ms), x) {
      var i :| 0 <= i < |Sort(ms)| && EntryOf(Sort(ms)[i], x);
      SortKeepsMembers(ms, Sort(ms)[i]);
    }
    if Entered(ms, x) {
      var i :| 0 <= i < |ms| && EntryOf(ms[i], x);
      SortKeepsMembers(ms, ms[i]);
    }
  }

  lemma {:induction false} WithoutAbsent(ms: seq<Member>, name: string)
    requires forall m :: m in ms ==> m.name != name
    ensures Without(ms, name) == ms
  {
    if ms != [] {
      WithoutAbsent(ms[1..], name);
    }
  }

  lemma NoJWS(m: Member)
    requires UniqueNamed(m.value) && m.name == SIGNATURE
    requires m.value.Obj? ==> JWS !in ToMap(m.value.members)
    ensures StripValue(m) == m
  {
    if m.value.Obj? {
      ListsToMap(m.value.members);
      WithoutAbsent(m.value.members, JWS);
    }
  }

  lemma NothingToStrip(ms: seq<Member>)
    requires UniqueNamed(Obj(ms))
    requires ADDITIONAL_SIGNATURES !in ToMap(ms) && !HasJWS(ToMap(ms) - {ADDITIONAL_SIGNATURES})
    ensures Strip(Obj(ms)) == Obj(ms)
  {
    ListsToMap(ms);
    WithoutAbsent(ms, ADDITIONAL_SIGNATURES);
    forall i | 0 <= i < |ms| ensures StripValue(ms[i]) == ms[i] {
      assert ms[i] in ms;
      if ms[i].name == SIGNATURE { NoJWS(ms[i]); }
    }
    assert StripValues(ms) == ms;
  }

  /** Re-marshalling what the deletions left gives the stripped document. */
  lemma StrippedMap(ms: seq<Member>, kept: map<string, Json>, final: map<string, Json>, s: Json, payload: seq<Member>)
    requires Deleted(ms, kept, final, s) && Lists(payload, final)
    ensures UniqueNamed(Obj(payload)) && Canon(Obj(payload)) == Canon(Strip(Obj(ms)))
  {
    var t := StripValues(Without(ms, ADDITIONAL_SIGNATURES));
    StripUnique(Obj(ms));
    forall i | 0 <= i < |payload|
      ensures UniqueNamed(payload[i].value) && CanonMembers(payload)[i] in CanonMembers(t)
    {
      PayloadInStripped(ms, kept, final, s, payload, i);
    }
    forall x | x in CanonMembers(t) ensures x in CanonMembers(payload) {
      StrippedInPayload(ms, kept, final, s, payload, x);
    }
    CanonMembersEqual(payload, t);
  }

  /** final is kept with its signature value, if that holds a jws, replaced by s. */
  ghost predicate Deleted(ms: seq<Member>, kept: map<string, Json>, final: map<string, Json>, s: Json) {
    && UniqueNamed(Obj(ms)) && kept == ToMap(ms) - {ADDITIONAL_SIGNATURES}
    && if HasJWS(kept) then final == kept[SIGNATURE := s] && ListsStripped(s, kept[SIGNATURE]) else final == kept
  }

  /** value stands for member m after the deletions. */
  ghost predicate StandsFor(kept: map<string, Json>, m: Member, value: Json) {
    m.name in kept && kept[m.name] == m.value && UniqueNamed(m.value) &&
    if m.name == SIGNATURE && HasJWS(kept) then ListsStripped(value, m.value) else value == m.value
  }

  lemma PayloadInStripped(ms: seq<Member>, kept: map<string, Json>, final: map<string, Json>, s: Json,
                          payload: seq<Member>, i: nat)
    requires Deleted(ms, kept, final, s) && Lists(payload, final) && i < |payload|
    ensures UniqueNamed(payload[i].value)
    ensures CanonMembers(payload)[i] in CanonMembers(StripValues(Without(ms, ADDITIONAL_SIGNATURES)))
  {
    ListsToMap(ms);
    assert payload[i] in payload;
    var m := Member(payload[i].name, kept[payload[i].name]);
    assert m in ms;
    MarshalledEntry(kept, m, payload[i].value);
    var j :| 0 <= j < |ms| && ms[j] == m;
    assert EntryOf(ms[j], Entry(m));
    StrippedEntry(ms, Entry(m));
  }

  lemma FinalStandsFor(ms: seq<Member>, kept: map<string, Json>, final: map<string, Json>, s: Json, j: nat)
    requires Deleted(ms, kept, final, s) && j < |ms| && ms[j].name != ADDITIONAL_SIGNATURES
    ensures ms[j].name in final && StandsFor(kept, ms[j], final[ms[j].name])
  {
    ListsToMap(ms);
    assert ms[j] in ms;
  }

  lemma StrippedInPayload(ms: seq<Member>, kept: map<string, Json>, final: map<string, Json>, s: Json,
                          payload: seq<Member>, x: Member)
    requires Deleted(ms, kept, final, s) && Lists(payload, final)
    requires x in CanonMembers(StripValues(Without(ms, ADDITIONAL_SIGNATURES)))
    ensures x in CanonMembers(payload)
  {
    StrippedEntry(ms, x);
    var j :| 0 <= j < |ms| && EntryOf(ms[j], x);
    FinalStandsFor(ms, kept, final, s, j);
    MarshalledEntry(kept, ms[j], final[ms[j].name]);
    CanonMember(payload, Member(ms[j].name, final[ms[j].name]));
  }

  lemma CanonMember(ms: seq<Member>, m: Member)
    requires m in ms
    ensures Member(m.name, Canon(m.value)) in CanonMembers(ms)
  {
    var i :| 0 <= i < |ms| && ms[i] == m;
    assert CanonMembers(ms)[i] in CanonMembers(ms);
  }

  /** The value that stands for member m after the deletions is its stripped value,
      up to member order. */
  lemma MarshalledEntry(kept: map<string, Json>, m: Member, value: Json)
    requires StandsFor(kept, m, value)
    ensures UniqueNamed(value) && Canon(value) == Canon(StripValue(m).value)
  {
    if m.name == SIGNATURE {
      if HasJWS(kept) {
        var sm := m.value.members;
        ListsToMap(sm);
        WithoutDistinct(sm, JWS);
        forall i | 0 <= i < |value.members| ensures UniqueNamed(value.members[i].value) {
          assert value.members[i] in value.members;
          assert value.members[i] in sm;
        }
        ListsCanon(value.members, Without(sm, JWS));
      } else {
        NoJWS(m);
      }
    }
  }
}
