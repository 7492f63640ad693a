/** The validator and the verifier apply one rule to did:web signatures. */
module Gates {
  import opened Json
  import opened Text
  import opened Catalog
  import opened Diagnostics
  import opened ReportLaws
  import opened Identity
  import opened Rules
  import opened Verify
  import J = Jws

  // ---- when the rules are silent ----

  predicate TimesOK(cfg: Config, s: Signature) {
    var issued, expires := cfg.instant(s.issuedAt), cfg.instant(s.expiresAt);
    && issued.Some?
    && (s.expiresAt == "" || (expires.Some? && issued.value < expires.value))
  }

  predicate FormOK(cfg: Config, jws: string, typ: string) {
    var header := J.ParseHeader(jws, cfg.decode);
    J.Detached(jws) && header.Some? &&
    !J.Forbidden(header.value.algorithm) && !header.value.Has("b64") && header.value.typ == typ
  }

  lemma RequiredSilent(s: Signature)
    ensures Silent(Error, RequiredRules(CodeSignatureMember, RequiredMembers(s), 4)) <==>
            s.signer != "" && s.profile != "" && s.issuedAt != "" && s.jws != ""
  {
    var ms := RequiredMembers(s);
    RequiredStep(CodeSignatureMember, ms, 0);
    RequiredStep(CodeSignatureMember, ms, 1);
    RequiredStep(CodeSignatureMember, ms, 2);
    RequiredStep(CodeSignatureMember, ms, 3);
  }

  lemma RequiredStep(code: Code, members: seq<(string, string)>, n: nat)
    requires n < |members|
    ensures Silent(Error, RequiredRules(code, members, n + 1)) <==>
            Silent(Error, RequiredRules(code, members, n)) && members[n].1 != ""
  {
    SilentBoth(Error, RequiredRules(code, members, n), ErrIf(members[n].1 == "", code, [Name(members[n].0)]));
  }

  lemma TimesSilent(cfg: Config, s: Signature)
    requires s.signer != "" && s.issuedAt != ""
    ensures Silent(Error, SignerAndTimes(cfg, s)) <==> IsAbsoluteURI(s.signer) && TimesOK(cfg, s)
  {
    SilentBoth(Error, ErrIf(!IsAbsoluteURI(s.signer), CodeSignatureSigner, [Name("signer")]),
        Timestamp(cfg, s.issuedAt, "issuedAt"));
  }

  lemma FormSilent(cfg: Config, jws: string, typ: string)
    requires jws != ""
    ensures Silent(Error, JWSForm(cfg, jws, typ)) <==> FormOK(cfg, jws, typ)
  {
  }

  lemma EmptyIsNotDetached()
    ensures !J.Detached("")
  {
    NoneIn("", '.');
  }

  lemma SignatureSilent(cfg: Config, s: Signature, typ: string)
    ensures Silent(Error, SignatureRules(cfg, s, typ)) <==>
            && s.signer != "" && s.profile != "" && s.issuedAt != "" && s.jws != ""
            && IsAbsoluteURI(s.signer) && TimesOK(cfg, s) && FormOK(cfg, s.jws, typ)
  {
    var required := RequiredRules(CodeSignatureMember, RequiredMembers(s), 4);
    SilentFour(Error, required, SignerAndTimes(cfg, s), JWSForm(cfg, s.jws, typ), Nothing);
    RequiredSilent(s);
    if s.signer != "" && s.issuedAt != "" && s.jws != "" {
      TimesSilent(cfg, s);
      FormSilent(cfg, s.jws, typ);
    }
  }

  lemma {:induction false} KeySourcesSilent(header: J.Header, n: nat)
    requires n <= |KEY_SOURCES|
    ensures Silent(Warning, KeySources(header, n)) <==> forall i :: 0 <= i < n ==> !header.Has(KEY_SOURCES[i])
  {
    if n > 0 {
      KeySourcesSilent(header, n - 1);
    }
  }

  predicate IdentityOK(s: Signature, header: J.Header) {
    RootDIDWeb(s.signer) && (header.algorithm == J.ES256 || J.Forbidden(header.algorithm))
        && KeyOfSigner(header.keyID, s.signer)
  }

  predicate CurrentOK(cfg: Config, s: Signature) {
    var issued, expires := cfg.instant(s.issuedAt), cfg.instant(s.expiresAt);
    (issued.Some? ==> issued.value <= cfg.now) && (expires.Some? ==> cfg.now < expires.value)
  }

  lemma IdentitySilent(s: Signature, header: J.Header)
    ensures Silent(Warning, ProfileIdentity(s, header)) <==> IdentityOK(s, header)
  {
    SilentFour(Warning, WarnIf(!RootDIDWeb(s.signer), CodeProfileSigner, [Name("signer")]),
               WarnIf(header.algorithm != J.ES256 && !J.Forbidden(header.algorithm), CodeProfileAlgorithm,
                      [Name("jws")]),
               WarnIf(!KeyOfSigner(header.keyID, s.signer), CodeProfileKeyID, [Name("jws")]), Nothing);
  }

  lemma CurrentSilent(cfg: Config, s: Signature)
    ensures Silent(Warning, Current(cfg, s)) <==> CurrentOK(cfg, s)
  {
  }

  lemma ProfileSilent(cfg: Config, s: Signature, header: J.Header)
    requires s.profile == DID_WEB_PROFILE && J.Detached(s.jws) && J.ParseHeader(s.jws, cfg.decode) == Some(header)
    ensures Silent(Warning, ProfileRules(cfg, s)) <==> IdentityOK(s, header) && !NamesKey(header) && CurrentOK(cfg, s)
  {
    IdentitySilent(s, header);
    KeySourcesSilent(header, |KEY_SOURCES|);
    CurrentSilent(cfg, s);
    SilentBoth(Warning, ProfileIdentity(s, header), KeySources(header, |KEY_SOURCES|));
    SilentBoth(Warning, SignerProfile(s, header), Current(cfg, s));
  }

  // ---- the two gates ----

  lemma ES256IsAllowed()
    ensures !J.Forbidden(J.ES256)
  {
    assert ToLower(J.ES256)[0] == 'e';
  }

  /** The verifier's gate, for a header without b64. */
  predicate VerifierAccepts(cfg: Config, s: Signature, typ: string) {
    var header := CheckHeader(cfg, s, typ);
    header.Some? && !header.value.Has("b64") && CheckTime(cfg, s)
  }

  /** The validator's gate: no error in the form, no warning about the profile. */
  predicate ValidatorAccepts(cfg: Config, s: Signature, typ: string) {
    Findings(Error, SignatureRules(cfg, s, typ)) == [] && Findings(Warning, ProfileRules(cfg, s)) == []
  }

  /** A signature in its window expires after it was issued. */
  lemma WindowIff(cfg: Config, s: Signature)
    requires cfg.instant("").None?
    ensures s.issuedAt != "" && TimesOK(cfg, s) && CurrentOK(cfg, s) <==> CheckTime(cfg, s)
  {
  }

  lemma HeaderIff(cfg: Config, s: Signature, typ: string, header: J.Header)
    requires J.Detached(s.jws) && J.ParseHeader(s.jws, cfg.decode) == Some(header)
    ensures FormOK(cfg, s.jws, typ) && IdentityOK(s, header) && !NamesKey(header) <==>
            CheckHeader(cfg, s, typ).Some? && !header.Has("b64")
    ensures CheckHeader(cfg, s, typ).Some? ==> CheckHeader(cfg, s, typ).value == header && RootDIDWeb(s.signer)
  {
    ES256IsAllowed();
  }

  /** Both gates accept the same signatures of the profile, at any one time. */
  lemma TwoGates(cfg: Config, s: Signature, typ: string)
    requires s.profile == DID_WEB_PROFILE && cfg.instant("").None?
    ensures ValidatorAccepts(cfg, s, typ) <==> VerifierAccepts(cfg, s, typ)
  {
    SilentIff(Error, SignatureRules(cfg, s, typ));
    SilentIff(Warning, ProfileRules(cfg, s));
    SignatureSilent(cfg, s, typ);
    var header := J.ParseHeader(s.jws, cfg.decode);
    if J.Detached(s.jws) && header.Some? {
      EmptyIsNotDetached();
      ProfileSilent(cfg, s, header.value);
      HeaderIff(cfg, s, typ, header.value);
      WindowIff(cfg, s);
      if RootDIDWeb(s.signer) { RootIsAbsolute(s.signer); }
    }
  }
}

/** What the verdicts mean. */
module VerifyLaws {
  import opened Json
  import opened Utf8
  import opened Base64Url
  import opened Catalog
  import opened Digest
  import opened Diagnostics
  import opened ReportLaws
  import opened Identity
  import opened Rules
  import opened Payload
  import opened Decoding
  import opened DecodingLaws
  import opened BindingLaws
  import opened Did
  import opened DidLaws
  import opened Jwk
  import opened Validation
  import opened Verify
  import Gates
  import J = Jws
  import JwsLaws

  // ---- soundness ----

  /** The document at the publisher's well-known address gives exactly this key for kid:
      by one method called kid, authorized, controlled by the publisher's DID. */
  ghost predicate PublishedKey(env: Env, publisher: string, kid: string, key: J.Key) {
    var body := env.fetch("https://" + publisher + "/.well-known/did.json");
    body.Some? && env.parseDid(body.value).Some? &&
    exists jwk :: Selects(env.parseDid(body.value).value, DID(publisher), kid, jwk)
        && KeyFrom(jwk, env.onCurve) == Some(key)
  }

  /** signature is text..sig, where text is the header and sig a raw ES256 signature
      that the key verifies over that header and the document's signing payload. */
  predicate SignedAs(env: Env, signature: string, document: Json, key: J.Key, text: string, sig: string) {
    && signature == text + (".." + sig) && '.' !in text && '.' !in sig
    && Canonicalizable(document)
    && DecodeText(sig).Some? && |DecodeText(sig).value| == 64
    && env.check(key, J.SigningInput(text, Encode(SigningPayload(document))), DecodeText(sig).value)
  }

  /** The header is plain ES256 of the given type, and names the signer's key and no other. */
  predicate PlainHeader(header: Option<J.Header>, signer: string, typ: string) {
    && header.Some? && header.value.algorithm == J.ES256 && header.value.typ == typ
    && !header.value.Has("b64") && !header.value.Has("crit") && !NamesKey(header.value)
    && KeyOfSigner(header.value.keyID, signer)
  }

  lemma RootPublisher(signer: string) returns (publisher: string)
    requires RootDIDWeb(signer)
    ensures signer == DID(publisher) && ValidPublisher(publisher)
    ensures DidDocumentURL(signer) == Some("https://" + publisher + "/.well-known/did.json")
  {
    publisher := signer[|DID_WEB|..];
    assert signer == DID_WEB + publisher;
  }

  /** A verified signature is the root did:web signer's own: made in its window, with its
      published key, over the document as served. */
  lemma VerifiedSignature(env: Env, s: Signature, typ: string, document: Option<Json>)
    returns (publisher: string, key: J.Key, text: string, sig: string)
    requires SignatureStatus(env, s, typ, document) == Verified
    ensures s.profile == DID_WEB_PROFILE && s.signer == DID(publisher) && ValidPublisher(publisher)
    ensures CheckTime(env.cfg, s)
    ensures PlainHeader(J.ParseHeader(text, env.cfg.decode), s.signer, typ)
    ensures PublishedKey(env, publisher, J.ParseHeader(text, env.cfg.decode).value.keyID, key)
    ensures document.Some? && SignedAs(env, s.jws, document.value, key, text, sig)
    ensures Gates.VerifierAccepts(env.cfg, s, typ)
  {
    var header := CheckHeader(env.cfg, s, typ).value;
    publisher := RootPublisher(s.signer);
    var body := env.fetch(DidDocumentURL(s.signer).value).value;
    var d := env.parseDid(body).value;
    var jwk := KeyOf(d, s.signer, header.keyID).value;
    KeyOfIff(d, s.signer, header.keyID, jwk);
    key := SignerKey(env, body, s.signer, header.keyID).value;
    text, sig := AcceptedJWS(env, s.jws, document.value, key);
  }

  lemma AcceptedJWS(env: Env, signature: string, document: Json, key: J.Key) returns (text: string, sig: string)
    requires Canonicalizable(document)
    requires J.VerifyES256(signature, Encode(SigningPayload(document)), key, env.cfg.decode, env.check) == J.Verified
    ensures SignedAs(env, signature, document, key, text, sig)
    ensures var h := J.ParseHeader(text, env.cfg.decode);
            h == J.ParseHeader(signature, env.cfg.decode) && h.Some? && !h.value.Has("b64") && !h.value.Has("crit")
  {
    text, sig := JwsLaws.AcceptedSignature(signature, Encode(SigningPayload(document)), key, env.cfg.decode, env.check);
  }

  /** The subject restates the entry. */
  predicate Restates(e: Entry, subject: Subject) {
    && subject.identifier == e.identifier && subject.version == e.version && subject.digest == e.digest
    && (e.typ != "" ==> subject.typ == e.typ)
  }

  lemma ReleaseIff(e: Entry, m: TrustManifest, s: Signature)
    ensures Release(e, m, s) == Verified <==>
            && s.signer == m.contributor && e.digest != "" && m.subject.Some? && Restates(e, m.subject.value)
            && m.subject.value.identifier != "" && m.subject.value.typ != ""
  {
  }

  /** The artifact, inline or fetched over https, hashes to the entry's digest. */
  predicate ArtifactHashes(env: Env, e: Entry) {
    var content, digest := ArtifactContent(env, e), ParseDigest(e.digest);
    content.Bytes? && digest.Some? && env.hash(digest.value.algorithm, content.bytes) == digest.value.hex
  }

  /** The manifest was signed for its publisher over document as served, in its window,
      with the key that only the publisher's own DID document gives. */
  ghost predicate SignedByPublisher(env: Env, m: TrustManifest, document: Json, publisher: string, key: J.Key,
      text: string, sig: string) {
    && m.contributor == DID(publisher) && m.signature.Some?
    && m.signature.value.signer == DID(publisher) && CheckTime(env.cfg, m.signature.value)
    && PlainHeader(J.ParseHeader(text, env.cfg.decode), DID(publisher), MANIFEST_JWS_TYPE)
    && PublishedKey(env, publisher, J.ParseHeader(text, env.cfg.decode).value.keyID, key)
    && SignedAs(env, m.signature.value.jws, document, key, text, sig)
  }

  /** The manifest counts as the publisher's own accepted statement about the entry. */
  predicate PublisherAccepts(env: Env, e: Entry, m: TrustManifest, payload: Option<Json>) {
    && m.signature.Some? && IsPublisher(e.identifier, m.signature.value.signer)
    && SignatureStatus(env, m.signature.value, MANIFEST_JWS_TYPE, payload) == Verified
    && Release(e, m, m.signature.value) == Verified
  }

  predicate PublisherFails(env: Env, e: Entry, m: TrustManifest, payload: Option<Json>) {
    && m.signature.Some? && IsPublisher(e.identifier, m.signature.value.signer)
    && (SignatureStatus(env, m.signature.value, MANIFEST_JWS_TYPE, payload) == Failed
        || Release(e, m, m.signature.value) == Failed)
  }

  lemma TrustIff(env: Env, e: Entry, m: TrustManifest, i: nat, payload: Option<Json>)
    ensures var t := TrustOfManifest(env, e, m, i, payload);
            && (t.publisher && t.Accepted() <==> PublisherAccepts(env, e, m, payload))
            && (t.publisher && t.Failing() <==> PublisherFails(env, e, m, payload))
  {
    if m.signature.Some? {
      var s := m.signature.value;
      StatusesDecide(i, m.contributor, s.signer, SignatureStatus(env, s, MANIFEST_JWS_TYPE, payload),
          Release(e, m, s), IsPublisher(e.identifier, s.signer));
    }
  }

  lemma StatusesDecide(i: nat, contributor: string, signer: string, signature: Status, release: Status, publisher: bool)
    ensures var t := ManifestTrust(i, contributor, signer, Some(signature), Some(release), publisher);
            && (t.publisher && t.Accepted() <==> publisher && signature == Verified && release == Verified)
            && (t.publisher && t.Failing() <==> publisher && (signature == Failed || release == Failed))
  {
  }

  lemma AcceptedAt(env: Env, e: Entry, raw: seq<Json>) returns (k: nat)
    requires PublisherAccepted(TrustOfManifests(env, e, raw))
    ensures k < |e.manifests| && PublisherAccepts(env, e, e.manifests[k], PayloadAt(raw, k))
  {
    var ts := TrustOfManifests(env, e, raw);
    k := PublisherAcceptedAt(ts);
    TrustIff(env, e, e.manifests[k], k, PayloadAt(raw, k));
  }

  lemma PublisherAcceptedAt(ts: seq<ManifestTrust>) returns (k: nat)
    requires PublisherAccepted(ts)
    ensures k < |ts| && ts[k].publisher && ts[k].Accepted()
  {
    k :| 0 <= k < |ts| && ts[k].publisher && ts[k].Accepted();
  }

  lemma AcceptedIsSound(env: Env, e: Entry, m: TrustManifest, payload: Option<Json>)
    returns (publisher: string, key: J.Key, text: string, sig: string)
    requires PublisherAccepts(env, e, m, payload)
    ensures Publisher(e.identifier) == Some(publisher) && ValidPublisher(publisher)
    ensures payload.Some? && SignedByPublisher(env, m, payload.value, publisher, key, text, sig)
    ensures m.subject.Some? && Restates(e, m.subject.value)
  {
    var s := m.signature.value;
    ReleaseIff(e, m, s);
    publisher, key, text, sig := VerifiedSignature(env, s, MANIFEST_JWS_TYPE, payload);
    SamePublisher(e.identifier, publisher);
  }

  /** An endorsement by the publisher rests on one manifest that the publisher named in
      the entry's identifier signed, that restates this entry, and whose digest is the
      artifact's. */
  lemma EndorsementIsSound(env: Env, i: nat, e: Entry, raw: seq<Json>)
    returns (k: nat, publisher: string, key: J.Key, text: string, sig: string)
    requires TrustOfEntry(env, i, e, raw).publisherEndorsed
    ensures k < |e.manifests| && k < |raw|
    ensures Publisher(e.identifier) == Some(publisher) && ValidPublisher(publisher)
    ensures SignedByPublisher(env, e.manifests[k], raw[k], publisher, key, text, sig)
    ensures e.manifests[k].subject.Some? && Restates(e, e.manifests[k].subject.value)
    ensures ArtifactHashes(env, e)
    ensures PublisherAccepts(env, e, e.manifests[k], Some(raw[k]))
  {
    k := AcceptedAt(env, e, raw);
    publisher, key, text, sig := AcceptedIsSound(env, e, e.manifests[k], PayloadAt(raw, k));
    VerifiedArtifact(env, e);
  }

  // ---- what the endorsed document itself says ----

  lemma StatementAt(d: Served, i: nat, k: nat)
    requires d.Decoded() && Settled(d.document) && i < |d.c.entries| && k < |d.c.entries[i].manifests|
    ensures k < |d.manifests[i]| && ReadStatement(d.manifests[i][k]) == Some(StatementOf(d.c.entries[i].manifests[k]))
  {
    StatementsAreServedIff(d.document);
    var v := ReadEntries(d.document).value[i];
    assert OwnStatements(v) && States(d.c.entries[i], v);
  }

  /** In a document whose last lists say all over again, an endorsement rests on one
      served manifest whose own text names the publisher as contributor and restates the
      entry, and which the publisher signed. Whatever has its signing payload says the
      same exactly when no names that differ in case alone contradict each other. */
  lemma EndorsedStatement(env: Env, d: Served, i: nat)
    returns (k: nat, publisher: string, key: J.Key, text: string, sig: string, subject: Subject)
    requires d.Decoded() && Settled(d.document) && i < |d.c.entries|
    requires TrustOfEntry(env, i, d.c.entries[i], d.manifests[i]).publisherEndorsed
    ensures Publisher(d.c.entries[i].identifier) == Some(publisher) && ValidPublisher(publisher)
    ensures k < |d.manifests[i]| && ReadStatement(d.manifests[i][k]).Some?
    ensures var st := ReadStatement(d.manifests[i][k]).value;
            && st.contributor == DID(publisher) && st.subject == Some(subject) && st.signature.Some?
            && st.signature.value.signer == DID(publisher) && CheckTime(env.cfg, st.signature.value)
            && SignedAs(env, st.signature.value.jws, d.manifests[i][k], key, text, sig)
    ensures PlainHeader(J.ParseHeader(text, env.cfg.decode), DID(publisher), MANIFEST_JWS_TYPE)
    ensures PublishedKey(env, publisher, J.ParseHeader(text, env.cfg.decode).value.keyID, key)
    ensures Restates(d.c.entries[i], subject) && ArtifactHashes(env, d.c.entries[i])
    ensures d.manifests[i][k].Obj? && (Bound(d.manifests[i][k]) <==> Unambiguous(d.manifests[i][k].members))
  {
    var e := d.c.entries[i];
    k, publisher, key, text, sig := EndorsementIsSound(env, i, e, d.manifests[i]);
    StatementAt(d, i, k);
    subject := e.manifests[k].subject.value;
    SubjectIsObject(d.manifests[i][k]);
    BoundIff(d.manifests[i][k]);
  }

  /** In a document where no object has two names that differ in case alone, both hold. */
  lemma FoldedDocument(d: Served)
    requires d.Decoded() && UniqueFolded(d.document)
    ensures Settled(d.document)
    ensures forall i, k :: 0 <= i < |d.manifests| && 0 <= k < |d.manifests[i]| && d.manifests[i][k].Obj? ==>
      Unambiguous(d.manifests[i][k].members)
  {
    UniqueListsOnce(d.document);
    StatementsAreServed(d.document);
    RawIsFolded(d.document);
    forall i, k | 0 <= i < |d.manifests| && 0 <= k < |d.manifests[i]| && d.manifests[i][k].Obj?
      ensures Unambiguous(d.manifests[i][k].members)
    {
      assert FoldedRaw(ReadEntries(d.document).value[i]);
      FoldedIsUnambiguous(d.manifests[i][k]);
    }
  }

  lemma SubjectIsObject(j: Json)
    requires ReadStatement(j).Some? && ReadStatement(j).value.subject.Some?
    ensures j.Obj?
  {
  }

  lemma VerifiedArtifact(env: Env, e: Entry)
    ensures ArtifactStatus(env, e) == Verified <==> ArtifactHashes(env, e)
  {
  }

  // ---- what the validator says about an endorsed manifest ----

  lemma AcceptedFormIsClean(env: Env, e: Entry, m: TrustManifest, payload: Option<Json>)
    requires env.cfg.instant("").None? && PublisherAccepts(env, e, m, payload)
    ensures Silent(Error, SignatureRules(env.cfg, m.signature.value, MANIFEST_JWS_TYPE))
    ensures Silent(Warning, ProfileRules(env.cfg, m.signature.value))
    ensures IsAbsoluteURI(m.contributor)
  {
    var s := m.signature.value;
    var publisher, key, text, sig := VerifiedSignature(env, s, MANIFEST_JWS_TYPE, payload);
    ReleaseIff(e, m, s);
    Gates.TwoGates(env.cfg, s, MANIFEST_JWS_TYPE);
    SilentIff(Error, SignatureRules(env.cfg, s, MANIFEST_JWS_TYPE));
    SilentIff(Warning, ProfileRules(env.cfg, s));
    RootOfPublisher(publisher);
    RootIsAbsolute(s.signer);
  }

  lemma AcceptedSubjectIsClean(env: Env, e: Entry, m: TrustManifest, payload: Option<Json>)
    requires PublisherAccepts(env, e, m, payload) && ArtifactHashes(env, e)
    ensures Silent(Error, SubjectRules(m.subject)) && Silent(Error, SubjectBinding(e, m))
  {
    ReleaseIff(e, m, m.signature.value);
    SubjectSilent(m.subject.value);
  }

  lemma SubjectSilent(s: Subject)
    requires s.identifier != "" && s.typ != "" && s.digest != "" && ParseDigest(s.digest).Some?
    ensures Silent(Error, SubjectRules(Some(s)))
  {
    var ms := SubjectMembers(s);
    Gates.RequiredStep(CodeSubjectMember, ms, 0);
    Gates.RequiredStep(CodeSubjectMember, ms, 1);
    Gates.RequiredStep(CodeSubjectMember, ms, 2);
    SilentBoth(Error, RequiredRules(CodeSubjectMember, ms, 3), At([Name("digest")], DigestRules(s.digest)));
  }

  /** The validator, with the same clock, reports no error about the contributor, the
      signature, the subject or the binding of the manifest an endorsement rests on,
      and no warning about its profile. */
  lemma EndorsedManifestIsClean(env: Env, i: nat, e: Entry, raw: seq<Json>) returns (k: nat)
    requires env.cfg.instant("").None? && TrustOfEntry(env, i, e, raw).publisherEndorsed
    ensures k < |e.manifests| && PublisherAccepts(env, e, e.manifests[k], PayloadAt(raw, k))
    ensures var m := e.manifests[k];
            && Findings(Error, Contributor(m.contributor)) == [] && Findings(Error, SignedManifest(env.cfg, m)) == []
            && Findings(Error, SubjectRules(m.subject)) == [] && Findings(Error, SubjectBinding(e, m)) == []
            && Findings(Warning, ManifestProfile(env.cfg, m)) == []
  {
    k := AcceptedAt(env, e, raw);
    var m := e.manifests[k];
    VerifiedArtifact(env, e);
    AcceptedFormIsClean(env, e, m, PayloadAt(raw, k));
    AcceptedSubjectIsClean(env, e, m, PayloadAt(raw, k));
    ReleaseIff(e, m, m.signature.value);
    CleanSigned(env.cfg, m);
    CleanProfile(env.cfg, m);
    SilentIff(Error, SignedManifest(env.cfg, m));
    SilentIff(Error, SubjectRules(m.subject));
    SilentIff(Error, SubjectBinding(e, m));
    SilentIff(Warning, ManifestProfile(env.cfg, m));
    RequiredContributor(m.contributor);
  }

  lemma CleanSigned(cfg: Config, m: TrustManifest)
    requires m.signature.Some? && m.subject.Some? && m.signature.value.signer == m.contributor
    requires Silent(Error, SignatureRules(cfg, m.signature.value, MANIFEST_JWS_TYPE))
    ensures Silent(Error, SignedManifest(cfg, m))
  {
    var s := m.signature.value;
    SilentAt(Error, [Name("signature")], SignatureRules(cfg, s, MANIFEST_JWS_TYPE));
    SilentFour(Error, ErrIf(m.subject.None?, CodeManifestSignedMember, [Name("subject")]),
               At([Name("signature")], SignatureRules(cfg, s, MANIFEST_JWS_TYPE)),
               ErrIf(s.signer != "" && s.signer != m.contributor, CodeManifestSigner,
                     [Name("signature"), Name("signer")]), Nothing);
  }

  lemma CleanProfile(cfg: Config, m: TrustManifest)
    requires m.signature.Some? && Silent(Warning, ProfileRules(cfg, m.signature.value))
    ensures Silent(Warning, ManifestProfile(cfg, m))
  {
    SilentAt(Warning, [Name("signature")], ProfileRules(cfg, m.signature.value));
  }

  lemma RequiredContributor(contributor: string)
    requires IsAbsoluteURI(contributor)
    ensures Findings(Error, Contributor(contributor)) == []
  {
  }

  lemma SamePublisher(identifier: string, publisher: string)
    requires IsPublisher(identifier, DID(publisher))
    ensures Publisher(identifier) == Some(publisher)
  {
    var named := Publisher(identifier).value;
    assert DID(named)[|DID_WEB|..] == named && DID(publisher)[|DID_WEB|..] == publisher;
  }
}
