/** Which kinds of findings the parts of a report can hold. */
module PartLaws {
  import opened Json
  import opened Catalog
  import opened Diagnostics
  import opened Identity
  import opened Rules
  import opened CatalogRules
  import opened ReportLaws
  import J = Jws

  // ---- parts with errors alone ----

  /** Every finding is an error, and not about depth. */
  predicate Ordinary(r: Report) {
    match r
    case Nothing => true
    case Found(severity, code, _) => severity == Error && code != CodeNestedDepth
    case Both(a, b) => Ordinary(a) && Ordinary(b)
    case At(_, part) => Ordinary(part)
  }

  lemma {:induction false} OrdinaryIs(r: Report)
    requires Ordinary(r)
    ensures Silent(Warning, r) && !Contains(Error, r, CodeNestedDepth)
  {
    match r {
      case Both(a, b) =>
        OrdinaryIs(a);
        OrdinaryIs(b);
      case At(_, part) => OrdinaryIs(part);
      case _ =>
    }
  }

  lemma ByParts()
    ensures forall a: Report, b: Report :: Ordinary(a.Then(b)) <==> Ordinary(a) && Ordinary(b)
    ensures forall place: Path, part: Report :: Ordinary(At(place, part)) <==> Ordinary(part)
  {
  }

  lemma {:induction false} KeysOrdinary(cfg: Config, extensions: seq<Member>)
    ensures Ordinary(ExtensionKeys(cfg, extensions))
  {
    if extensions != [] {
      KeysOrdinary(cfg, extensions[1..]);
    }
  }

  lemma {:induction false} RequiredOrdinary(code: Code, members: seq<(string, string)>, n: nat)
    requires n <= |members| && code != CodeNestedDepth
    ensures Ordinary(RequiredRules(code, members, n))
  {
    if n > 0 {
      RequiredOrdinary(code, members, n - 1);
    }
  }

  lemma {:induction false} MismatchesOrdinary(members: seq<string>, n: nat)
    requires n <= |members|
    ensures Ordinary(Mismatches(members, n))
  {
    if n > 0 {
      MismatchesOrdinary(members, n - 1);
    }
  }

  lemma {:induction false} SeriesOrdinary(list: string, parts: seq<Report>, n: nat)
    requires n <= |parts| && forall k :: 0 <= k < |parts| ==> Ordinary(parts[k])
    ensures Ordinary(Series(list, parts, n))
  {
    if n > 0 {
      SeriesOrdinary(list, parts, n - 1);
      assert Series(list, parts, n) == Both(Series(list, parts, n - 1), At([Item(list, n - 1)], parts[n - 1]));
    }
  }

  lemma FormOrdinary(cfg: Config, jws: string, typ: string)
    ensures Ordinary(JWSForm(cfg, jws, typ))
  {
  }

  lemma TimesOrdinary(cfg: Config, s: Signature)
    ensures Ordinary(SignerAndTimes(cfg, s))
  {
    ByParts();
    assert Ordinary(ValidityWindow(cfg, s));
  }

  lemma SignatureOrdinary(cfg: Config, s: Signature, typ: string)
    ensures Ordinary(SignatureRules(cfg, s, typ))
  {
    RequiredOrdinary(CodeSignatureMember, RequiredMembers(s), 4);
    TimesOrdinary(cfg, s);
    FormOrdinary(cfg, s.jws, typ);
    ByParts();
  }

  lemma HeadOrdinary(cfg: Config, c: AICatalog)
    ensures Ordinary(CatalogHead(cfg, c))
  {
    ByParts();
    KeysOrdinary(cfg, c.extensions);
    if c.signature.Some? { SignatureOrdinary(cfg, c.signature.value, CATALOG_JWS_TYPE); }
  }

  lemma FieldsOrdinary(cfg: Config, e: Entry)
    ensures Ordinary(EntryFields(cfg, e))
  {
    ByParts();
    assert Ordinary(RequiredEntryFields(e)) && Ordinary(PublisherRules(e.publisher));
    KeysOrdinary(cfg, e.extensions);
  }

  lemma SubjectOrdinary(e: Entry, m: TrustManifest)
    ensures Ordinary(SubjectRules(m.subject)) && Ordinary(SubjectBinding(e, m))
  {
    ByParts();
    if m.subject.Some? {
      var members := SubjectMismatches(e, m.subject.value);
      RequiredOrdinary(CodeSubjectMember, SubjectMembers(m.subject.value), 3);
      MismatchesOrdinary(members, |members|);
    }
  }

  lemma EvidenceOrdinary(m: TrustManifest)
    ensures Ordinary(Evidence(m))
  {
    ByParts();
    SeriesOrdinary("attestations", AttestationParts(m.attestations), |m.attestations|);
    SeriesOrdinary("provenance", ProvenanceParts(m.provenance), |m.provenance|);
  }

  lemma SignedOrdinary(cfg: Config, m: TrustManifest)
    ensures Ordinary(ManifestHead(cfg, m)) && Ordinary(SignedManifest(cfg, m))
  {
    ByParts();
    KeysOrdinary(cfg, m.extensions);
    if m.signature.Some? { SignatureOrdinary(cfg, m.signature.value, MANIFEST_JWS_TYPE); }
  }

  lemma TailOrdinary(e: Entry, m: TrustManifest)
    ensures Ordinary(ManifestTail(m)) && Ordinary(SubjectBinding(e, m))
  {
    ByParts();
    SubjectOrdinary(e, m);
    assert Ordinary(TrustSchemaRules(m.trustSchema));
    EvidenceOrdinary(m);
  }

  lemma ManifestOrdinary(cfg: Config, e: Entry, m: TrustManifest)
    ensures Ordinary(TrustManifestRules(cfg, m).Then(SubjectBinding(e, m)))
  {
    ByParts();
    SignedOrdinary(cfg, m);
    TailOrdinary(e, m);
  }

  lemma UniquenessOrdinary(es: seq<Entry>)
    ensures Ordinary(Uniqueness(es))
  {
    SeriesOrdinary("entries", ScanParts(es), |es|);
  }

  // ---- the part with warnings alone ----

  lemma {:induction false} KeySourcesNoError(header: J.Header, n: nat)
    requires n <= |KEY_SOURCES|
    ensures Silent(Error, KeySources(header, n))
  {
    if n > 0 {
      KeySourcesNoError(header, n - 1);
    }
  }

  lemma ProfileNoError(cfg: Config, m: TrustManifest)
    ensures Silent(Error, ManifestProfile(cfg, m))
  {
    if m.signature.Some? {
      var s := m.signature.value;
      var header := J.ParseHeader(s.jws, cfg.decode);
      if header.Some? { SignerNoError(cfg, s, header.value); }
      SilentAt(Error, [Name("signature")], ProfileRules(cfg, s));
    }
  }

  lemma IdentityNoError(s: Signature, header: J.Header)
    ensures Silent(Error, ProfileIdentity(s, header))
  {
    SilentFour(Error, WarnIf(!RootDIDWeb(s.signer), CodeProfileSigner, [Name("signer")]),
               WarnIf(header.algorithm != J.ES256 && !J.Forbidden(header.algorithm), CodeProfileAlgorithm,
                      [Name("jws")]),
               WarnIf(!KeyOfSigner(header.keyID, s.signer), CodeProfileKeyID, [Name("jws")]), Nothing);
  }

  lemma CurrentNoError(cfg: Config, s: Signature)
    ensures Silent(Error, Current(cfg, s))
  {
  }

  lemma SignerNoError(cfg: Config, s: Signature, header: J.Header)
    ensures Silent(Error, SignerProfile(s, header).Then(Current(cfg, s)))
  {
    KeySourcesNoError(header, |KEY_SOURCES|);
    IdentityNoError(s, header);
    CurrentNoError(cfg, s);
    SilentBoth(Error, ProfileIdentity(s, header), KeySources(header, |KEY_SOURCES|));
    SilentBoth(Error, SignerProfile(s, header), Current(cfg, s));
  }
}
