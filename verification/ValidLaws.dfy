/** What a valid catalog is, in terms of its members. */
module ValidCatalogs {
  import opened Json
  import opened Catalog
  import opened Digest
  import opened Identity
  import opened Rules
  import J = Jws
  import JwsLaws

  const CATALOG_TYPE := "application/ai-catalog+json"
  const POLICY_KEY := "https://ai-catalog.org/extensions/policy-urls"

  /** The header and the signature of the form, which claim the type and no b64. */
  ghost predicate JwsValid(cfg: Config, jws: string, typ: string, text: string, sig: string) {
    var h := J.ParseHeader(text, cfg.decode);
    && JwsLaws.TwoParts(jws, text, sig) && text != "" && sig != ""
    && h.Some? && !J.Forbidden(h.value.algorithm) && "b64" !in h.value.members && h.value.typ == typ
  }

  ghost predicate SignatureValid(cfg: Config, s: Signature, typ: string) {
    && s.signer != "" && s.profile != "" && s.issuedAt != "" && s.jws != "" && IsAbsoluteURI(s.signer)
    && cfg.instant(s.issuedAt).Some?
    && (s.expiresAt != "" ==>
          cfg.instant(s.expiresAt).Some? && cfg.instant(s.issuedAt).value < cfg.instant(s.expiresAt).value)
    && exists text, sig :: JwsValid(cfg, s.jws, typ, text, sig)
  }

  predicate KeysValid(cfg: Config, extensions: seq<Member>) {
    forall i :: 0 <= i < |extensions| ==> cfg.extensionKeyOK(extensions[i].name)
  }

  predicate TimeValid(cfg: Config, value: string) {
    value != "" ==> cfg.instant(value).Some?
  }

  /** Absent, or one of the accepted algorithms with that many hex digits. */
  ghost predicate DigestValid(value: string) {
    value == "" || exists algorithm, hex :: Spells(value, algorithm, hex)
  }

  /** A complete subject that agrees with the entry. */
  ghost predicate SubjectValid(e: Entry, s: Subject) {
    && s.identifier != "" && s.typ != "" && s.digest != "" && DigestValid(s.digest)
    && s.identifier == e.identifier && s.version == e.version
    && (e.typ != "" ==> s.typ == e.typ) && (e.digest != "" ==> s.digest == e.digest)
  }

  ghost predicate AttestationValid(a: Attestation) {
    a.typ != "" && a.uri != "" && DigestValid(a.digest)
  }

  ghost predicate ProvenanceValid(l: ProvenanceLink) {
    l.relation != "" && l.sourceID != "" && DigestValid(l.sourceDigest)
  }

  /** A signed manifest has a well-formed signature by its contributor, and a subject. */
  ghost predicate SignedValid(cfg: Config, m: TrustManifest) {
    m.signature.Some? ==>
      && m.subject.Some? && m.signature.value.signer == m.contributor
      && SignatureValid(cfg, m.signature.value, "ai-catalog-trust-manifest+jws")
  }

  ghost predicate EvidenceValid(m: TrustManifest) {
    && (m.trustSchema.Some? ==> m.trustSchema.value.identifier != "" && m.trustSchema.value.version != "")
    && (forall i :: 0 <= i < |m.attestations| ==> AttestationValid(m.attestations[i]))
    && (forall i :: 0 <= i < |m.provenance| ==> ProvenanceValid(m.provenance[i]))
  }

  ghost predicate ManifestValid(cfg: Config, e: Entry, m: TrustManifest) {
    && m.contributor != "" && IsAbsoluteURI(m.contributor) && KeysValid(cfg, m.extensions)
    && (m.signature.Some? || m.trustSchema.Some? || m.attestations != [] || m.provenance != [] || m.extensions != [])
    && SignedValid(cfg, m) && (m.subject.Some? ==> SubjectValid(e, m.subject.value)) && EvidenceValid(m)
  }

  /** Position i holds the last member called name. */
  predicate LastNamed(ms: seq<Member>, name: string, i: nat) {
    i < |ms| && ms[i].name == name && forall j :: i < j < |ms| ==> ms[j].name != name
  }

  predicate TextIfNamed(ms: seq<Member>, name: string) {
    forall i: nat :: i < |ms| && LastNamed(ms, name, i) ==> ms[i].value.Str?
  }

  /** The policy URLs extension is an object whose two members are strings. */
  predicate PolicyValid(extensions: seq<Member>) {
    forall i: nat :: i < |extensions| && LastNamed(extensions, POLICY_KEY, i) ==>
      && extensions[i].value.Obj? && TextIfNamed(extensions[i].value.members, "privacyPolicyUrl")
      && TextIfNamed(extensions[i].value.members, "termsOfServiceUrl")
  }

  /** The entry's own members, apart from its trust and from a catalog in it. */
  predicate FieldsValid(cfg: Config, e: Entry) {
    && e.identifier != "" && e.typ != "" && (e.url != "" <==> e.data.NoData?) && TimeValid(cfg, e.updatedAt)
    && KeysValid(cfg, e.extensions) && PolicyValid(e.extensions)
    && (e.publisher.Some? ==> e.publisher.value.identifier != "" && e.publisher.value.displayName != "")
  }

  /** A digest is well formed, all manifests are valid, and a signed one needs a digest. */
  ghost predicate TrustValid(cfg: Config, e: Entry) {
    && DigestValid(e.digest)
    && (forall k :: 0 <= k < |e.manifests| ==> ManifestValid(cfg, e, e.manifests[k]))
    && ((exists k :: 0 <= k < |e.manifests| && e.manifests[k].signature.Some?) ==> e.digest != "")
  }

  /** room is how many more levels of catalogs may nest. */
  ghost predicate EntryValid(cfg: Config, e: Entry, room: int)
    decreases e
  {
    && FieldsValid(cfg, e) && TrustValid(cfg, e)
    && (e.typ == CATALOG_TYPE ==>
          room > 0 && (e.data.Inline? ==> e.data.decoded.Some? && CatalogValid(cfg, e.data.decoded.value, room - 1)))
  }

  /** Different identifiers, or versions that tell them apart. */
  predicate Distinct(e: Entry, f: Entry) {
    e.identifier == f.identifier ==> e.version != "" && f.version != "" && e.version != f.version
  }

  ghost predicate HeadValid(cfg: Config, c: AICatalog) {
    && cfg.specVersionOK(c.specVersion) && (c.host.Some? ==> c.host.value.displayName != "")
    && (c.signature.Some? ==> SignatureValid(cfg, c.signature.value, "ai-catalog+jws"))
    && KeysValid(cfg, c.extensions)
  }

  ghost predicate CatalogValid(cfg: Config, c: AICatalog, room: int)
    decreases c
  {
    && HeadValid(cfg, c)
    && (forall i, j :: 0 <= i < j < |c.entries| ==> Distinct(c.entries[i], c.entries[j]))
    && forall i :: 0 <= i < |c.entries| ==> EntryValid(cfg, c.entries[i], room)
  }
}

/** The validator accepts exactly the valid catalogs. */
module ValidLaws {
  import opened Json
  import opened Text
  import opened Catalog
  import opened Diagnostics
  import opened Digest
  import opened Identity
  import opened Rules
  import opened CatalogRules
  import opened ReportLaws
  import opened PartLaws
  import opened Validation
  import opened ValidatorLaws
  import opened ValidCatalogs
  import Gates
  import J = Jws
  import JwsLaws

  lemma FormIff(cfg: Config, jws: string, typ: string)
    ensures Gates.FormOK(cfg, jws, typ) <==> exists text, sig :: JwsValid(cfg, jws, typ, text, sig)
  {
    JwsLaws.DetachedIff(jws);
    if Gates.FormOK(cfg, jws, typ) {
      var text, sig :| JwsLaws.TwoParts(jws, text, sig) && text != "" && sig != "";
      JwsLaws.SameHeader(text, ".." + sig, cfg.decode);
      assert JwsValid(cfg, jws, typ, text, sig);
    }
    if text, sig :| JwsValid(cfg, jws, typ, text, sig) {
      JwsLaws.SameHeader(text, ".." + sig, cfg.decode);
    }
  }

  lemma SignatureIff(cfg: Config, s: Signature, typ: string)
    ensures Silent(Error, SignatureRules(cfg, s, typ)) <==> SignatureValid(cfg, s, typ)
  {
    Gates.SignatureSilent(cfg, s, typ);
    FormIff(cfg, s.jws, typ);
  }

  lemma {:induction false} KeysIff(cfg: Config, extensions: seq<Member>)
    ensures Silent(Error, ExtensionKeys(cfg, extensions)) <==> KeysValid(cfg, extensions)
  {
    if extensions != [] {
      KeysIff(cfg, extensions[1..]);
      SilentBoth(Error, ErrIf(!cfg.extensionKeyOK(extensions[0].name), CodeExtensionKey, []),
          ExtensionKeys(cfg, extensions[1..]));
      assert extensions == [extensions[0]] + extensions[1..];
    }
  }

  lemma DigestRulesIff(value: string)
    ensures Silent(Error, DigestRules(value)) <==> DigestValid(value)
  {
    if ParseDigest(value).Some? {
      DigestIff(value, ParseDigest(value).value);
    }
    if algorithm, hex :| Spells(value, algorithm, hex) {
      DigestIff(value, ParsedDigest(ToLower(algorithm), ToLower(hex)));
    }
  }

  lemma SubjectRulesIff(s: Subject)
    ensures Silent(Error, SubjectRules(Some(s))) <==>
            s.identifier != "" && s.typ != "" && s.digest != "" && DigestValid(s.digest)
  {
    var ms := SubjectMembers(s);
    Gates.RequiredStep(CodeSubjectMember, ms, 0);
    Gates.RequiredStep(CodeSubjectMember, ms, 1);
    Gates.RequiredStep(CodeSubjectMember, ms, 2);
    SilentBoth(Error, RequiredRules(CodeSubjectMember, ms, 3), At([Name("digest")], DigestRules(s.digest)));
    SilentAt(Error, [Name("digest")], DigestRules(s.digest));
    DigestRulesIff(s.digest);
  }

  lemma {:induction false} MismatchesIff(members: seq<string>, n: nat)
    requires n <= |members|
    ensures Silent(Error, Mismatches(members, n)) <==> n == 0
  {
    if n > 0 {
      SilentBoth(Error, Mismatches(members, n - 1), Err(CodeSubjectMismatch, [Name("subject"), Name(members[n - 1])]));
    }
  }

  lemma MismatchIff(e: Entry, s: Subject)
    requires s.identifier != "" && s.typ != "" && s.digest != ""
    ensures SubjectMismatches(e, s) == [] <==>
            && s.identifier == e.identifier && s.version == e.version
            && (e.typ != "" ==> s.typ == e.typ) && (e.digest != "" ==> s.digest == e.digest)
  {
  }

  /** Both rules for the subject of a manifest. */
  lemma SubjectIff(e: Entry, m: TrustManifest)
    ensures Silent(Error, SubjectRules(m.subject)) && Silent(Error, SubjectBinding(e, m)) <==>
            (m.subject.Some? ==> SubjectValid(e, m.subject.value))
  {
    if m.subject.Some? {
      var s := m.subject.value;
      var members := SubjectMismatches(e, s);
      SubjectRulesIff(s);
      MismatchesIff(members, |members|);
      if s.identifier != "" && s.typ != "" && s.digest != "" { MismatchIff(e, s); }
    }
  }

  lemma SignedIff(cfg: Config, m: TrustManifest)
    ensures Silent(Error, SignedManifest(cfg, m)) <==> SignedValid(cfg, m)
  {
    if m.signature.Some? {
      var s := m.signature.value;
      SignatureIff(cfg, s, MANIFEST_JWS_TYPE);
      SilentAt(Error, [Name("signature")], SignatureRules(cfg, s, MANIFEST_JWS_TYPE));
      SilentFour(Error, ErrIf(m.subject.None?, CodeManifestSignedMember, [Name("subject")]),
                 At([Name("signature")], SignatureRules(cfg, s, MANIFEST_JWS_TYPE)),
                 ErrIf(s.signer != "" && s.signer != m.contributor, CodeManifestSigner,
                       [Name("signature"), Name("signer")]), Nothing);
    }
  }

  lemma HeadOfManifest(cfg: Config, m: TrustManifest)
    ensures Silent(Error, ManifestHead(cfg, m)) <==>
            && KeysValid(cfg, m.extensions) && m.contributor != "" && IsAbsoluteURI(m.contributor) && Substantive(m)
  {
    KeysIff(cfg, m.extensions);
    SilentAt(Error, [Name("extensions")], ExtensionKeys(cfg, m.extensions));
    SilentAt(Error, [Name("contributor")], Contributor(m.contributor));
    SilentFour(Error, At([Name("extensions")], ExtensionKeys(cfg, m.extensions)),
               At([Name("contributor")], Contributor(m.contributor)), ErrIf(!Substantive(m), CodeManifestEmpty, []),
               Nothing);
  }

  lemma AttestationIff(a: Attestation)
    ensures Silent(Error, AttestationRules(a)) <==> AttestationValid(a)
  {
    DigestRulesIff(a.digest);
    SilentAt(Error, [Name("digest")], DigestRules(a.digest));
  }

  lemma ProvenanceIff(l: ProvenanceLink)
    ensures Silent(Error, ProvenanceRules(l)) <==> ProvenanceValid(l)
  {
    DigestRulesIff(l.sourceDigest);
    SilentAt(Error, [Name("sourceDigest")], DigestRules(l.sourceDigest));
  }

  lemma ListsIff(m: TrustManifest)
    ensures Silent(Error, Evidence(m)) <==>
            && (forall i :: 0 <= i < |m.attestations| ==> AttestationValid(m.attestations[i]))
            && (forall i :: 0 <= i < |m.provenance| ==> ProvenanceValid(m.provenance[i]))
  {
    var a, p := AttestationParts(m.attestations), ProvenanceParts(m.provenance);
    forall i | 0 <= i < |a| ensures Silent(Error, a[i]) <==> AttestationValid(m.attestations[i]) {
      AttestationIff(m.attestations[i]);
    }
    forall i | 0 <= i < |p| ensures Silent(Error, p[i]) <==> ProvenanceValid(m.provenance[i]) {
      ProvenanceIff(m.provenance[i]);
    }
    SilentSeries(Error, "attestations", a, |a|);
    SilentSeries(Error, "provenance", p, |p|);
    SilentBoth(Error, Series("attestations", a, |a|), Series("provenance", p, |p|));
  }

  lemma TailIff(m: TrustManifest)
    ensures Silent(Error, ManifestTail(m)) <==> Silent(Error, SubjectRules(m.subject)) && EvidenceValid(m)
  {
    ListsIff(m);
    SilentAt(Error, [Name("subject")], SubjectRules(m.subject));
    SilentAt(Error, [Name("trustSchema")], TrustSchemaRules(m.trustSchema));
    SilentFour(Error, At([Name("subject")], SubjectRules(m.subject)),
               At([Name("trustSchema")], TrustSchemaRules(m.trustSchema)), Evidence(m), Nothing);
  }

  lemma ManifestIff(cfg: Config, e: Entry, m: TrustManifest)
    ensures Silent(Error, ManifestRules(cfg, e, m)) <==> ManifestValid(cfg, e, m)
  {
    HeadOfManifest(cfg, m);
    SignedIff(cfg, m);
    TailIff(m);
    SubjectIff(e, m);
    ProfileNoError(cfg, m);
    SilentFour(Error, ManifestHead(cfg, m), SignedManifest(cfg, m), ManifestTail(m), Nothing);
    SilentFour(Error, TrustManifestRules(cfg, m), SubjectBinding(e, m), ManifestProfile(cfg, m), Nothing);
  }

  lemma {:induction false} SignedSome(ms: seq<TrustManifest>, n: nat)
    requires n <= |ms|
    ensures HasSigned(ms, n) <==> exists k :: 0 <= k < n && ms[k].signature.Some?
  {
    if n > 0 {
      SignedSome(ms, n - 1);
    }
  }

  lemma ManifestsIff(cfg: Config, e: Entry)
    ensures Silent(Error, ManifestsRules(cfg, e)) <==>
            forall k :: 0 <= k < |e.manifests| ==> ManifestValid(cfg, e, e.manifests[k])
  {
    var parts := ManifestParts(cfg, e);
    forall k | 0 <= k < |parts| ensures Silent(Error, parts[k]) <==> ManifestValid(cfg, e, e.manifests[k]) {
      ManifestIff(cfg, e, e.manifests[k]);
    }
    SilentSeries(Error, "trustManifests", parts, |parts|);
  }

  lemma TrustIff(cfg: Config, e: Entry)
    ensures Silent(Error, EntryTrustRules(cfg, e)) <==> TrustValid(cfg, e)
  {
    ManifestsIff(cfg, e);
    DigestRulesIff(e.digest);
    SilentAt(Error, [Name("digest")], DigestRules(e.digest));
    SignedSome(e.manifests, |e.manifests|);
    SilentFour(Error, At([Name("digest")], DigestRules(e.digest)), ManifestsRules(cfg, e),
               ErrIf(HasSigned(e.manifests, |e.manifests|) && e.digest == "", CodeEntryDigest, [Name("digest")]),
               Nothing);
  }

  lemma {:induction false} NamedIff(ms: seq<Member>, name: string)
    ensures MemberNamed(ms, name).None? <==> forall i: nat :: i < |ms| ==> !LastNamed(ms, name, i)
    ensures forall i: nat :: i < |ms| && LastNamed(ms, name, i) ==> MemberNamed(ms, name) == Some(ms[i].value)
  {
    if ms != [] {
      var most, last := ms[..|ms| - 1], |ms| - 1;
      NamedIff(most, name);
      if ms[last].name == name {
        assert LastNamed(ms, name, last);
      } else {
        forall i: nat | i < last ensures LastNamed(ms, name, i) <==> LastNamed(most, name, i) {
          assert forall j :: 0 <= j < last ==> most[j] == ms[j];
        }
      }
    }
  }

  lemma TextIff(ms: seq<Member>, name: string)
    ensures TextIfNamed(ms, name) <==> var member := MemberNamed(ms, name); member.None? || member.value.Str?
  {
    NamedIff(ms, name);
  }

  lemma PolicyIff(extensions: seq<Member>)
    ensures Silent(Error, PolicyURLs(extensions)) <==> PolicyValid(extensions)
  {
    NamedIff(extensions, POLICY_URLS);
    var value := MemberNamed(extensions, POLICY_URLS);
    if value.Some? {
      var i: nat :| i < |extensions| && LastNamed(extensions, POLICY_URLS, i);
      PolicyObjectIff(value.value);
      assert forall k: nat :: k < |extensions| && LastNamed(extensions, POLICY_URLS, k) ==> k == i;
    }
  }

  lemma PolicyObjectIff(value: Json)
    ensures PolicyURLsOK(value) <==>
            value.Obj? && TextIfNamed(value.members, "privacyPolicyUrl")
            && TextIfNamed(value.members, "termsOfServiceUrl")
  {
    if value.Obj? {
      TextIff(value.members, "privacyPolicyUrl");
      TextIff(value.members, "termsOfServiceUrl");
      assert "privacyPolicyUrl" in {"privacyPolicyUrl", "termsOfServiceUrl"};
      assert "termsOfServiceUrl" in {"privacyPolicyUrl", "termsOfServiceUrl"};
    }
  }

  lemma ExtensionsIff(cfg: Config, e: Entry)
    ensures Silent(Error, EntryExtensions(cfg, e)) <==> KeysValid(cfg, e.extensions) && PolicyValid(e.extensions)
  {
    KeysIff(cfg, e.extensions);
    PolicyIff(e.extensions);
    SilentBoth(Error, ExtensionKeys(cfg, e.extensions), PolicyURLs(e.extensions));
    SilentAt(Error, [Name("extensions")], ExtensionKeys(cfg, e.extensions).Then(PolicyURLs(e.extensions)));
  }

  lemma FieldsIff(cfg: Config, e: Entry)
    ensures Silent(Error, EntryFields(cfg, e)) <==> FieldsValid(cfg, e)
  {
    var first := RequiredEntryFields(e).Then(ArtifactSource(e)).Then(Timestamp(cfg, e.updatedAt, "updatedAt"));
    ExtensionsIff(cfg, e);
    SilentFour(Error, RequiredEntryFields(e), ArtifactSource(e), Timestamp(cfg, e.updatedAt, "updatedAt"), Nothing);
    SilentAt(Error, [Name("publisher")], PublisherRules(e.publisher));
    SilentFour(Error, first, EntryExtensions(cfg, e), At([Name("publisher")], PublisherRules(e.publisher)), Nothing);
  }

  lemma {:induction false} NestedIff(cfg: Config, e: Entry, room: int)
    ensures Silent(Error, NestedReport(cfg, e, room)) <==>
            (e.typ == CATALOG_TYPE ==>
              room > 0 && (e.data.Inline? ==>
                             e.data.decoded.Some? && CatalogValid(cfg, e.data.decoded.value, room - 1)))
    decreases e, 0
  {
    if e.typ == CATALOG_TYPE && room > 0 && e.data.Inline? && e.data.decoded.Some? {
      CatalogIff(cfg, e.data.decoded.value, room - 1);
      SilentAt(Error, [Name("data")], CatalogReport(cfg, e.data.decoded.value, room - 1));
    }
  }

  lemma {:induction false} EntryIff(cfg: Config, e: Entry, room: int)
    ensures Silent(Error, EntryReport(cfg, e, room)) <==> EntryValid(cfg, e, room)
    decreases e, 1
  {
    FieldsIff(cfg, e);
    TrustIff(cfg, e);
    NestedIff(cfg, e, room);
    SilentFour(Error, EntryFields(cfg, e), EntryTrustRules(cfg, e), NestedReport(cfg, e, room), IdentifierForm(e));
  }

  lemma HeadIff(cfg: Config, c: AICatalog)
    ensures Silent(Error, CatalogHead(cfg, c)) <==> HeadValid(cfg, c)
  {
    KeysIff(cfg, c.extensions);
    if c.signature.Some? {
      SignatureIff(cfg, c.signature.value, CATALOG_JWS_TYPE);
      SilentAt(Error, [Name("signature")], SignatureRules(cfg, c.signature.value, CATALOG_JWS_TYPE));
    }
    SilentAt(Error, [Name("extensions")], ExtensionKeys(cfg, c.extensions));
    SilentBoth(Error, SpecVersion(cfg, c.specVersion), Host(c.host));
    SilentFour(Error, DocumentForm(cfg, c), CatalogSignature(cfg, c), CatalogExtensions(cfg, c), Nothing);
  }

  lemma {:induction false} CatalogIff(cfg: Config, c: AICatalog, room: int)
    ensures Valid(cfg, c, room) <==> CatalogValid(cfg, c, room)
    decreases c, 2
  {
    ValidParts(cfg, c, room);
    HeadIff(cfg, c);
    forall i | 0 <= i < |c.entries| ensures Silent(Error, EntryReport(cfg, c.entries[i], room)) <==>
        EntryValid(cfg, c.entries[i], room) {
      EntryIff(cfg, c.entries[i], room);
    }
    AllSilent(cfg, c.entries, room);
    DistinctIff(c.entries);
  }

  lemma DistinctIff(es: seq<Entry>)
    ensures PairwiseCompatible(es) <==> forall i, j :: 0 <= i < j < |es| ==> Distinct(es[i], es[j])
  {
    forall i, j | 0 <= i < j < |es| ensures Compatible(es[i], es[j]) <==> Distinct(es[i], es[j]) {}
  }

  lemma AllSilent(cfg: Config, es: seq<Entry>, room: int)
    ensures EntriesSilent(cfg, es, room) <==>
            forall i :: 0 <= i < |es| ==> Silent(Error, EntryReport(cfg, es[i], room))
  {
    if EntriesSilent(cfg, es, room) {
      forall i | 0 <= i < |es| ensures Silent(Error, EntryReport(cfg, es[i], room)) { assert es[i] in es; }
    }
  }

  /** The validator finds no error exactly in the valid catalogs, and calls those with a
      host discoverable. */
  lemma ValidIff(c: AICatalog, cfg: Config, maxDepth: int)
    ensures ResultOf(c, cfg, maxDepth).isValid <==> CatalogValid(cfg, c, maxDepth)
    ensures ResultOf(c, cfg, maxDepth).level == Discoverable <==> CatalogValid(cfg, c, maxDepth) && c.host.Some?
  {
    ValidResult(c, cfg, maxDepth);
    CatalogIff(cfg, c, maxDepth);
  }

  /** In a valid catalog every inline catalog, at whatever depth, is valid with the levels
      that are left: all its signatures are well formed, all its subjects agree. */
  lemma ValidInDepth(c: AICatalog, cfg: Config, maxDepth: int, route: seq<nat>, inner: AICatalog)
    requires CatalogValid(cfg, c, maxDepth) && Reached(c, route) == Some(inner)
    ensures CatalogValid(cfg, inner, maxDepth - |route|)
  {
    CatalogIff(cfg, c, maxDepth);
    ValidInside(cfg, c, maxDepth, route);
    CatalogIff(cfg, inner, maxDepth - |route|);
  }
}
