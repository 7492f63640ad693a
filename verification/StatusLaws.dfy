/** What each verdict of a verification says, in both directions and in terms of the
    document, the clock and what the addresses answer. */
module StatusLaws {
  import opened Json
  import opened JsonText
  import opened Utf8
  import opened Base64Url
  import opened Catalog
  import opened Digest
  import opened Identity
  import opened Rules
  import opened Payload
  import opened Decoding
  import opened Did
  import opened DidLaws
  import opened Jwk
  import opened Verify
  import opened VerifyLaws
  import opened TrustLaws
  import opened Validation
  import opened ValidCatalogs
  import ValidLaws
  import J = Jws
  import JwsLaws

  // ---- signatures ----

  /** Issued by now, and not expired. */
  predicate InWindow(cfg: Config, s: Signature) {
    && cfg.instant(s.issuedAt).Some? && cfg.instant(s.issuedAt).value <= cfg.now
    && (s.expiresAt != "" ==> cfg.instant(s.expiresAt).Some? && cfg.now < cfg.instant(s.expiresAt).value)
  }

  /** ES256 of the given type, with a key of the signer, and no key of its own. */
  ghost predicate ProfileHeader(h: J.Header, signer: string, typ: string) {
    && h.algorithm == "ES256" && h.typ == typ
    && "jku" !in h.members && "jwk" !in h.members && "x5u" !in h.members && "x5c" !in h.members
    && exists f :: h.keyID == signer + "#" + f && f != "" && '/' !in f && '?' !in f && '#' !in f
  }

  /** The signature is in the profile, by a root DID, in its window, and jws is text..sig
      with such a header. */
  ghost predicate InProfile(cfg: Config, s: Signature, typ: string, publisher: string, text: string, sig: string) {
    && s.profile == "did-web-v1" && s.signer == "did:web:" + publisher && ValidPublisher(publisher)
    && InWindow(cfg, s) && JwsLaws.TwoParts(s.jws, text, sig) && text != "" && sig != ""
    && J.ParseHeader(text, cfg.decode).Some? && ProfileHeader(J.ParseHeader(text, cfg.decode).value, s.signer, typ)
  }

  function DidAddress(publisher: string): string {
    "https://" + publisher + "/.well-known/did.json"
  }

  lemma NamesKeyIff(h: J.Header)
    ensures NamesKey(h) <==> "jku" in h.members || "jwk" in h.members || "x5u" in h.members || "x5c" in h.members
  {
    assert KEY_SOURCES[0] == "jku" && KEY_SOURCES[1] == "jwk" && KEY_SOURCES[2] == "x5u" && KEY_SOURCES[3] == "x5c";
  }

  lemma TimeIff(cfg: Config, s: Signature)
    ensures CheckTime(cfg, s) <==> InWindow(cfg, s)
  {
  }

  lemma JwsHeader(jws: string, text: string, sig: string, decode: J.JsonDecoder)
    requires JwsLaws.TwoParts(jws, text, sig)
    ensures J.ParseHeader(jws, decode) == J.ParseHeader(text, decode)
    ensures J.Detached(jws) <==> text != "" && sig != ""
  {
    JwsLaws.SameHeader(text, ".." + sig, decode);
    JwsLaws.PartsIff(jws, text, sig);
  }

  lemma HeaderIff(cfg: Config, s: Signature, typ: string, h: J.Header)
    requires J.Detached(s.jws) && J.ParseHeader(s.jws, cfg.decode) == Some(h)
    ensures CheckHeader(cfg, s, typ).Some? <==> ProfileHeader(h, s.signer, typ) && RootDIDWeb(s.signer)
    ensures CheckHeader(cfg, s, typ).Some? ==> CheckHeader(cfg, s, typ).value == h
  {
    NamesKeyIff(h);
    KeyOfSignerIff(h.keyID, s.signer);
  }

  /** Everything before the first fetch passes. */
  lemma ReadyIff(cfg: Config, s: Signature, typ: string)
    ensures ReadyToFetch(cfg, s, typ) <==> exists publisher, text, sig :: InProfile(cfg, s, typ, publisher, text, sig)
  {
    if ReadyToFetch(cfg, s, typ) {
      var publisher, text, sig := ReadyParts(cfg, s, typ);
      assert InProfile(cfg, s, typ, publisher, text, sig);
    }
    if publisher, text, sig :| InProfile(cfg, s, typ, publisher, text, sig) {
      PartsReady(cfg, s, typ, publisher, text, sig);
    }
  }

  lemma ReadyParts(cfg: Config, s: Signature, typ: string) returns (publisher: string, text: string, sig: string)
    requires ReadyToFetch(cfg, s, typ)
    ensures InProfile(cfg, s, typ, publisher, text, sig)
  {
    JwsLaws.DetachedIff(s.jws);
    text, sig :| JwsLaws.TwoParts(s.jws, text, sig) && text != "" && sig != "";
    JwsHeader(s.jws, text, sig, cfg.decode);
    HeaderIff(cfg, s, typ, CheckHeader(cfg, s, typ).value);
    TimeIff(cfg, s);
    publisher := RootPublisher(s.signer);
  }

  lemma PartsReady(cfg: Config, s: Signature, typ: string, publisher: string, text: string, sig: string)
    requires InProfile(cfg, s, typ, publisher, text, sig)
    ensures ReadyToFetch(cfg, s, typ) && CheckHeader(cfg, s, typ) == J.ParseHeader(text, cfg.decode)
    ensures DidDocumentURL(s.signer) == Some(DidAddress(publisher))
  {
    RootOfPublisher(publisher);
    assert s.signer == DID(publisher);
    JwsHeader(s.jws, text, sig, cfg.decode);
    HeaderIff(cfg, s, typ, J.ParseHeader(text, cfg.decode).value);
    TimeIff(cfg, s);
  }

  /** The signature is the publisher's own, over the document, with a published key. */
  ghost predicate SignedBy(env: Env, s: Signature, typ: string, document: Json, publisher: string, key: J.Key,
      text: string, sig: string) {
    && InProfile(env.cfg, s, typ, publisher, text, sig)
    && PublishedKey(env, publisher, J.ParseHeader(text, env.cfg.decode).value.keyID, key)
    && (document.Obj? || document.Arr?) && UniqueNamed(document)
    && JwsLaws.Verifies(text, sig, Encode(SigningPayload(document)), key, env.cfg.decode, env.check)
  }

  /** A signature is verified if and only if it is a root DID's own over the document. */
  lemma VerifiedIff(env: Env, s: Signature, typ: string, document: Option<Json>)
    ensures SignatureStatus(env, s, typ, document) == Verified <==>
            (document.Some? && exists publisher, key, text, sig ::
               SignedBy(env, s, typ, document.value, publisher, key, text, sig))
  {
    if SignatureStatus(env, s, typ, document) == Verified {
      var publisher, key, text, sig := VerifiedParts(env, s, typ, document);
      assert SignedBy(env, s, typ, document.value, publisher, key, text, sig);
    }
    if document.Some? {
      if publisher, key, text, sig :| SignedBy(env, s, typ, document.value, publisher, key, text, sig) {
        PartsVerified(env, s, typ, document.value, publisher, key, text, sig);
      }
    }
  }

  lemma VerifiedParts(env: Env, s: Signature, typ: string, document: Option<Json>)
    returns (publisher: string, key: J.Key, text: string, sig: string)
    requires SignatureStatus(env, s, typ, document) == Verified
    ensures document.Some? && SignedBy(env, s, typ, document.value, publisher, key, text, sig)
  {
    publisher, key, text, sig := VerifiedSignature(env, s, typ, document);
    assert J.ParseHeader(text, env.cfg.decode).Some?;
    JwsHeader(s.jws, text, sig, env.cfg.decode);
    HeaderIff(env.cfg, s, typ, J.ParseHeader(text, env.cfg.decode).value);
    TimeIff(env.cfg, s);
    JwsLaws.WholeHeader(text, env.cfg.decode);
  }

  lemma PublishedIsFound(env: Env, publisher: string, kid: string, key: J.Key, body: seq<Byte>)
    requires env.fetch(DidAddress(publisher)) == Some(body)
    ensures PublishedKey(env, publisher, kid, key) <==> SignerKey(env, body, DID(publisher), kid) == Some(key)
  {
    if env.parseDid(body).Some? {
      var d := env.parseDid(body).value;
      if jwk :| Selects(d, DID(publisher), kid, jwk) && KeyFrom(jwk, env.onCurve) == Some(key) {
        KeyOfIff(d, DID(publisher), kid, jwk);
      }
      if KeyOf(d, DID(publisher), kid).Some? {
        KeyOfIff(d, DID(publisher), kid, KeyOf(d, DID(publisher), kid).value);
      }
    }
  }

  lemma PartsVerified(env: Env, s: Signature, typ: string, document: Json, publisher: string, key: J.Key,
      text: string, sig: string)
    requires SignedBy(env, s, typ, document, publisher, key, text, sig)
    ensures SignatureStatus(env, s, typ, Some(document)) == Verified
  {
    PartsReady(env.cfg, s, typ, publisher, text, sig);
    var kid := J.ParseHeader(text, env.cfg.decode).value.keyID;
    var body := env.fetch(DidAddress(publisher)).value;
    PublishedIsFound(env, publisher, kid, key, body);
    PartsMatch(env, s, document, key, text, sig);
    StatusAtFetch(env, s, typ, Some(document), Some(body));
    assert StatusFromBody(env, s, Some(document), kid, body) == Verified;
  }

  lemma PartsMatch(env: Env, s: Signature, document: Json, key: J.Key, text: string, sig: string)
    requires JwsLaws.TwoParts(s.jws, text, sig) && (document.Obj? || document.Arr?) && UniqueNamed(document)
    requires JwsLaws.Verifies(text, sig, Encode(SigningPayload(document)), key, env.cfg.decode, env.check)
    ensures SignatureMatches(env, s, Some(document), key)
  {
    JwsLaws.VerifiedIff(s.jws, Encode(SigningPayload(document)), key, env.cfg.decode, env.check);
  }

  /** It is unverifiable if and only if it is in another profile, or all is well but the
      address of the signer's DID document does not answer. */
  lemma UnverifiableIff(env: Env, s: Signature, typ: string, document: Option<Json>)
    ensures SignatureStatus(env, s, typ, document) == Unverifiable <==>
            (s.profile != "did-web-v1" || exists publisher, text, sig ::
               InProfile(env.cfg, s, typ, publisher, text, sig) && env.fetch(DidAddress(publisher)).None?)
  {
    if s.profile == "did-web-v1" && SignatureStatus(env, s, typ, document) == Unverifiable {
      var publisher, text, sig := ReadyParts(env.cfg, s, typ);
      PartsReady(env.cfg, s, typ, publisher, text, sig);
    }
    if publisher, text, sig :| InProfile(env.cfg, s, typ, publisher, text, sig) &&
                               env.fetch(DidAddress(publisher)).None? {
      PartsReady(env.cfg, s, typ, publisher, text, sig);
      StatusAtFetch(env, s, typ, document, None);
    }
  }

  // ---- artifacts ----

  /** The bytes of the artifact: the canonical text of inline data, or what its https
      address answers. */
  predicate ContentIs(env: Env, e: Entry, bytes: seq<Byte>) {
    if e.data.Inline?
    then (e.data.raw.Obj? || e.data.raw.Arr?) && UniqueNamed(e.data.raw) && bytes == Encode(Write(Canon(e.data.raw)))
    else
      var location := env.resolve(e.url);
      location.Some? && location.value.scheme == "https" && env.fetch(location.value.text) == Some(bytes)
  }

  /** An artifact is verified if and only if its bytes hash to the entry's digest. */
  lemma ArtifactVerifiedIff(env: Env, e: Entry)
    ensures ArtifactStatus(env, e) == Verified <==>
            exists bytes, algorithm, hex :: ContentIs(env, e, bytes) && env.hash(algorithm, bytes) == hex
              && ParseDigest(e.digest) == Some(ParsedDigest(algorithm, hex))
  {
    ContentIff(env, e);
    if ArtifactStatus(env, e) == Verified {
      var bytes, digest := ArtifactContent(env, e).bytes, ParseDigest(e.digest).value;
      assert ParsedDigest(digest.algorithm, digest.hex) == digest && ContentIs(env, e, bytes);
    }
  }

  lemma ContentIff(env: Env, e: Entry)
    ensures forall bytes :: ContentIs(env, e, bytes) <==> ArtifactContent(env, e) == Bytes(bytes)
  {
  }

  /** It is unverifiable if and only if it is not inline and its address is not https or
      does not answer. */
  lemma ArtifactUnverifiableIff(env: Env, e: Entry)
    ensures ArtifactStatus(env, e) == Unverifiable <==>
            (e.data.NoData? && env.resolve(e.url).Some? &&
             (env.resolve(e.url).value.scheme != "https" || env.fetch(env.resolve(e.url).value.text).None?))
  {
  }

  // ---- the catalog's own signature ----

  /** A catalog is authorized if and only if its signature is by one of the operators, and
      is that root DID's own, of the type for catalogs, over the document as served. */
  lemma CatalogAuthorizedIff(env: Env, d: Served, maxDepth: int, operators: seq<string>)
    requires d.Aligned()
    ensures VerificationOf(env, d, maxDepth, operators).catalogAuthorized <==>
            (d.c.signature.Some? && d.c.signature.value.signer in operators && exists publisher, key, text, sig ::
               SignedBy(env, d.c.signature.value, "ai-catalog+jws", d.document, publisher, key, text, sig))
  {
    if d.c.signature.Some? {
      VerifiedIff(env, d.c.signature.value, "ai-catalog+jws", Some(d.document));
    }
  }

  // ---- endorsements ----

  /** The signature is that of the publisher whom the identifier names. */
  ghost predicate SignedFor(env: Env, identifier: string, s: Signature, document: Json) {
    exists publisher, key, text, sig :: NamesPublisher(identifier, publisher) &&
      SignedBy(env, s, "ai-catalog-trust-manifest+jws", document, publisher, key, text, sig)
  }

  lemma SignedForIff(env: Env, identifier: string, s: Signature, document: Option<Json>)
    ensures IsPublisher(identifier, s.signer) && SignatureStatus(env, s, MANIFEST_JWS_TYPE, document) == Verified <==>
            document.Some? && SignedFor(env, identifier, s, document.value)
  {
    IsPublisherIff(identifier, s.signer);
    if IsPublisher(identifier, s.signer) && SignatureStatus(env, s, MANIFEST_JWS_TYPE, document) == Verified {
      var publisher, key, text, sig := VerifiedParts(env, s, MANIFEST_JWS_TYPE, document);
      var p :| ValidPublisher(p) && s.signer == "did:web:" + p && NamesPublisher(identifier, p);
      assert s.signer[|"did:web:"|..] == p == publisher;
      assert SignedFor(env, identifier, s, document.value);
    }
    if document.Some? && SignedFor(env, identifier, s, document.value) {
      var publisher, key, text, sig :| NamesPublisher(identifier, publisher) &&
        SignedBy(env, s, "ai-catalog-trust-manifest+jws", document.value, publisher, key, text, sig);
      PartsVerified(env, s, MANIFEST_JWS_TYPE, document.value, publisher, key, text, sig);
    }
  }

  /** The manifest is the signer's, and a complete subject restates the entry. */
  predicate Covers(e: Entry, m: TrustManifest, s: Signature) {
    && s.signer == m.contributor && m.subject.Some?
    && m.subject.value.identifier == e.identifier != "" && m.subject.value.version == e.version
    && m.subject.value.digest == e.digest != "" && m.subject.value.typ != ""
    && (e.typ != "" ==> m.subject.value.typ == e.typ)
  }

  /** Manifest k is signed by the publisher, over its raw value, and restates the entry. */
  ghost predicate Endorsing(env: Env, e: Entry, raw: seq<Json>, k: nat) {
    && k < |e.manifests| && k < |raw| && e.manifests[k].signature.Some?
    && SignedFor(env, e.identifier, e.manifests[k].signature.value, raw[k])
    && Covers(e, e.manifests[k], e.manifests[k].signature.value)
  }

  lemma AcceptsIff(env: Env, e: Entry, raw: seq<Json>, k: nat)
    ensures PublisherAcceptsAt(env, e, raw, k) <==> Endorsing(env, e, raw, k)
  {
    if k < |e.manifests| && e.manifests[k].signature.Some? {
      var m := e.manifests[k];
      ReleaseIff(e, m, m.signature.value);
      SignedForIff(env, e.identifier, m.signature.value, PayloadAt(raw, k));
    }
  }

  /** An entry is endorsed if and only if a manifest of its publisher, named in its
      identifier, is that publisher's own and restates the entry, and the bytes of the
      artifact hash to the digest. */
  lemma EndorsedIff(env: Env, i: nat, e: Entry, raw: seq<Json>)
    ensures TrustOfEntry(env, i, e, raw).publisherEndorsed <==>
            ((exists k: nat :: Endorsing(env, e, raw, k)) && ArtifactStatus(env, e) == Verified)
  {
    EntryFlags(env, i, e, raw);
    if HasAccepting(env, e, raw) {
      var k: nat :| PublisherAcceptsAt(env, e, raw, k);
      AcceptsIff(env, e, raw, k);
    }
    if k: nat :| Endorsing(env, e, raw, k) {
      AcceptsIff(env, e, raw, k);
    }
  }

  // ---- failures and the level ----

  ghost predicate BySigner(identifier: string, s: Signature) {
    exists p :: ValidPublisher(p) && s.signer == "did:web:" + p && NamesPublisher(identifier, p)
  }

  /** Manifest k claims to be the publisher's, but its signature fails or it does not
      cover the entry. */
  ghost predicate Failing(env: Env, e: Entry, raw: seq<Json>, k: nat) {
    && k < |e.manifests| && e.manifests[k].signature.Some? && BySigner(e.identifier, e.manifests[k].signature.value)
    && (!Covers(e, e.manifests[k], e.manifests[k].signature.value) ||
        SignatureStatus(env, e.manifests[k].signature.value, "ai-catalog-trust-manifest+jws", PayloadAt(raw, k)) ==
          Failed)
  }

  lemma FailsAtIff(env: Env, e: Entry, raw: seq<Json>, k: nat)
    ensures PublisherFailsAt(env, e, raw, k) <==> Failing(env, e, raw, k)
  {
    if k < |e.manifests| && e.manifests[k].signature.Some? {
      var m := e.manifests[k];
      ReleaseIff(e, m, m.signature.value);
      IsPublisherIff(e.identifier, m.signature.value.signer);
      ReleaseIsDecided(e, m, m.signature.value);
    }
  }

  lemma ReleaseIsDecided(e: Entry, m: TrustManifest, s: Signature)
    ensures Release(e, m, s) == Verified || Release(e, m, s) == Failed
  {
  }

  /** An entry fails if and only if a manifest that claims to be its publisher's does, or
      one endorses it and the bytes of the artifact do not fit the digest. */
  lemma FailedIff(env: Env, i: nat, e: Entry, raw: seq<Json>)
    ensures TrustOfEntry(env, i, e, raw).publisherFailed <==>
            || (exists k: nat :: Failing(env, e, raw, k))
            || ((exists k: nat :: Endorsing(env, e, raw, k)) && ArtifactStatus(env, e) == Failed)
  {
    EntryFlags(env, i, e, raw);
    forall k: nat ensures PublisherFailsAt(env, e, raw, k) <==> Failing(env, e, raw, k) { FailsAtIff(env, e, raw, k); }
    forall k: nat ensures PublisherAcceptsAt(env, e, raw, k) <==> Endorsing(env, e, raw, k) {
      AcceptsIff(env, e, raw, k);
    }
  }

  /** What is reported of a manifest: its place, its parties, and both statuses if it is
      signed. */
  lemma ManifestReport(env: Env, i: nat, e: Entry, raw: seq<Json>, k: nat)
    requires k < |e.manifests|
    ensures var t, m := TrustOfEntry(env, i, e, raw).manifests[k], e.manifests[k];
            && t.index == k && t.contributor == m.contributor
            && (m.signature.None? ==> t.signer == "" && t.signature.None? && t.release.None? && !t.publisher)
            && (m.signature.Some? ==>
                  && t.signer == m.signature.value.signer
                  && t.signature == Some(SignatureStatus(env, m.signature.value, "ai-catalog-trust-manifest+jws",
                                                         if k < |raw| then Some(raw[k]) else None))
                  && t.release == Some(if Covers(e, m, m.signature.value) then Verified else Failed)
                  && (t.publisher <==> BySigner(e.identifier, m.signature.value)))
  {
    if e.manifests[k].signature.Some? {
      var s := e.manifests[k].signature.value;
      ReleaseIff(e, e.manifests[k], s);
      ReleaseIsDecided(e, e.manifests[k], s);
      IsPublisherIff(e.identifier, s.signer);
    }
  }

  /** Entry i is endorsed, or fails. */
  ghost predicate Endorsed(env: Env, d: Served, i: nat)
    requires d.Aligned()
  {
    i < |d.c.entries| && (exists k: nat :: Endorsing(env, d.c.entries[i], d.manifests[i], k))
        && ArtifactStatus(env, d.c.entries[i]) == Verified
  }

  ghost predicate Fails(env: Env, d: Served, i: nat)
    requires d.Aligned()
  {
    && i < |d.c.entries|
    && ((exists k: nat :: Failing(env, d.c.entries[i], d.manifests[i], k)) ||
        ((exists k: nat :: Endorsing(env, d.c.entries[i], d.manifests[i], k))
         && ArtifactStatus(env, d.c.entries[i]) == Failed))
  }

  lemma EntryIff(env: Env, d: Served, i: nat)
    requires d.Aligned()
    ensures EndorsedAt(env, d, i) <==> Endorsed(env, d, i)
    ensures FailedAt(env, d, i) <==> Fails(env, d, i)
  {
    if i < |d.c.entries| {
      FlagsAt(env, d, i);
      EndorsedIff(env, i, d.c.entries[i], d.manifests[i]);
      FailedIff(env, i, d.c.entries[i], d.manifests[i]);
    }
  }

  lemma EntriesIff(env: Env, d: Served)
    requires d.Aligned()
    ensures (exists i: nat :: EndorsedAt(env, d, i)) <==> SomeEndorsed(env, d)
    ensures (forall i: nat :: !FailedAt(env, d, i)) <==> NoneFails(env, d)
  {
    forall i: nat ensures EndorsedAt(env, d, i) <==> Endorsed(env, d, i) { EntryIff(env, d, i); }
    forall i: nat ensures FailedAt(env, d, i) <==> Fails(env, d, i) { EntryIff(env, d, i); }
  }

  ghost predicate SomeEndorsed(env: Env, d: Served)
    requires d.Aligned()
  {
    exists i: nat :: Endorsed(env, d, i)
  }

  ghost predicate NoneFails(env: Env, d: Served)
    requires d.Aligned()
  {
    forall i: nat :: !Fails(env, d, i)
  }

  /** A document is Trusted if and only if its catalog is valid and names a host, an entry
      is endorsed and none fails; otherwise it is Discoverable if the catalog is valid and
      names a host, and Minimal if not. */
  lemma LevelIff(env: Env, d: Served, maxDepth: int, operators: seq<string>)
    requires d.Aligned()
    ensures var level := VerificationOf(env, d, maxDepth, operators).level;
            var discoverable := CatalogValid(env.cfg, d.c, maxDepth) && d.c.host.Some?;
            var trusted := discoverable && SomeEndorsed(env, d) && NoneFails(env, d);
            && (level == Trusted <==> trusted)
            && (level == Discoverable <==> discoverable && !trusted)
            && (level == Minimal <==> !discoverable)
  {
    TrustedIff(env, d, maxDepth, operators);
    ValidLaws.ValidIff(d.c, env.cfg, maxDepth);
    EntriesIff(env, d);
    LevelIsOneOf(env, d, maxDepth, operators);
  }

  lemma LevelIsOneOf(env: Env, d: Served, maxDepth: int, operators: seq<string>)
    requires d.Aligned()
    ensures var v := VerificationOf(env, d, maxDepth, operators); v.level == Trusted || v.level == v.validation.level
    ensures VerificationOf(env, d, maxDepth, operators).validation.level != Trusted
  {
  }
}
