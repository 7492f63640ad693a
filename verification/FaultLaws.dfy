/** Which faults are reported, where, and under which code. Paths are relative to the
    object a predicate is about. */
module Faults {
  import opened Json
  import opened Catalog
  import opened Diagnostics
  import opened Digest
  import opened Identity
  import opened Rules
  import opened ValidCatalogs
  import J = Jws

  /** The codes of advice; all others are errors. */
  function SeverityOf(code: Code): Severity {
    match code
    case CodeIdentifierNotURI | CodeSignatureExpired | CodeSignatureNotYetValid => Warning
    case CodeProfileSigner | CodeProfileAlgorithm | CodeProfileKeyID | CodeProfileHeader => Warning
    case _ => Error
  }

  predicate BadTime(cfg: Config, value: string) {
    value != "" && cfg.instant(value).None?
  }

  predicate BadDigest(value: string) {
    value != "" && ParseDigest(value).None?
  }

  /** The jws is not in the form header..signature, its header cannot be read, or it says
      what it must not. */
  predicate FormFault(cfg: Config, jws: string, typ: string, code: Code) {
    if !J.Detached(jws) then code == CodeSignatureForm
    else
      match J.ParseHeader(jws, cfg.decode)
      case None => code == CodeSignatureMalformed
      case Some(h) =>
        || (code == CodeSignatureAlgorithm && J.Forbidden(h.algorithm))
        || (code == CodeSignatureB64 && "b64" in h.members)
        || (code == CodeSignatureType && h.typ != typ)
  }

  predicate WindowFault(cfg: Config, s: Signature, code: Code) {
    var issued, expires := cfg.instant(s.issuedAt), cfg.instant(s.expiresAt);
    || (code == CodeTimestamp && BadTime(cfg, s.expiresAt))
    || (code == CodeSignatureExpiry && s.expiresAt != "" && issued.Some? && expires.Some?
        && expires.value <= issued.value)
  }

  predicate TimesFault(cfg: Config, s: Signature, code: Code, path: Path) {
    || (code == CodeSignatureSigner && path == [Name("signer")] && s.signer != "" && !IsAbsoluteURI(s.signer))
    || (code == CodeTimestamp && path == [Name("issuedAt")] && BadTime(cfg, s.issuedAt))
    || (path == [Name("expiresAt")] && WindowFault(cfg, s, code))
  }

  predicate EmptyMember(s: Signature, path: Path) {
    || (path == [Name("signer")] && s.signer == "") || (path == [Name("profile")] && s.profile == "")
    || (path == [Name("issuedAt")] && s.issuedAt == "") || (path == [Name("jws")] && s.jws == "")
  }

  predicate SignatureFault(cfg: Config, s: Signature, typ: string, code: Code, path: Path) {
    || (code == CodeSignatureMember && EmptyMember(s, path))
    || TimesFault(cfg, s, code, path)
    || (path == [Name("jws")] && s.jws != "" && FormFault(cfg, s.jws, typ, code))
  }

  /** What is wrong with a signature that selects the did:web profile and has a header. */
  predicate ProfileFault(cfg: Config, s: Signature, code: Code, path: Path) {
    var h := J.ParseHeader(s.jws, cfg.decode);
    && s.profile == "did-web-v1" && J.Detached(s.jws) && h.Some?
    && (IdentityFault(s, h.value, code, path) || ClockFault(cfg, s, code, path) ||
        (code == CodeProfileHeader && path == [Name("jws")] &&
         exists i :: 0 <= i < |KEY_SOURCES| && KEY_SOURCES[i] in h.value.members))
  }

  predicate IdentityFault(s: Signature, h: J.Header, code: Code, path: Path) {
    || (code == CodeProfileSigner && path == [Name("signer")] && !RootDIDWeb(s.signer))
    || (code == CodeProfileAlgorithm && path == [Name("jws")] && h.algorithm != "ES256" && !J.Forbidden(h.algorithm))
    || (code == CodeProfileKeyID && path == [Name("jws")] && !KeyOfSigner(h.keyID, s.signer))
  }

  predicate ClockFault(cfg: Config, s: Signature, code: Code, path: Path) {
    var issued, expires := cfg.instant(s.issuedAt), cfg.instant(s.expiresAt);
    || (code == CodeSignatureNotYetValid && path == [Name("issuedAt")] && issued.Some? && cfg.now < issued.value)
    || (code == CodeSignatureExpired && path == [Name("expiresAt")] && expires.Some? && expires.value <= cfg.now)
  }

  /** The subject's member differs from that of the entry. */
  predicate Differs(e: Entry, s: Subject, member: string) {
    || (member == "identifier" && s.identifier != "" && s.identifier != e.identifier)
    || (member == "type" && s.typ != "" && e.typ != "" && s.typ != e.typ)
    || (member == "digest" && s.digest != "" && e.digest != "" && s.digest != e.digest)
    || (member == "version" && s.version != e.version)
  }

  predicate EmptySubject(s: Subject, path: Path) {
    || (path == [Name("identifier")] && s.identifier == "") || (path == [Name("type")] && s.typ == "")
    || (path == [Name("digest")] && s.digest == "")
  }

  predicate SubjectFault(e: Entry, s: Subject, code: Code, path: Path) {
    || (code == CodeSubjectMember && EmptySubject(s, path))
    || (code == CodeDigestInvalid && path == [Name("digest")] && BadDigest(s.digest))
    || (code == CodeSubjectMismatch && |path| == 1 && path[0].Name? && Differs(e, s, path[0].name))
  }

  predicate AttestationFault(a: Attestation, code: Code, path: Path) {
    || (code == CodeAttestationMember &&
        ((path == [Name("type")] && a.typ == "") || (path == [Name("uri")] && a.uri == "")))
    || (code == CodeDigestInvalid && path == [Name("digest")] && BadDigest(a.digest))
  }

  predicate ProvenanceFault(l: ProvenanceLink, code: Code, path: Path) {
    || (code == CodeProvenanceMember &&
        ((path == [Name("relation")] && l.relation == "") || (path == [Name("sourceId")] && l.sourceID == "")))
    || (code == CodeDigestInvalid && path == [Name("sourceDigest")] && BadDigest(l.sourceDigest))
  }

  predicate SchemaFault(s: TrustSchema, code: Code, path: Path) {
    code == CodeTrustSchemaMember &&
    ((path == [Name("identifier")] && s.identifier == "") || (path == [Name("version")] && s.version == ""))
  }

  /** path begins with the member, and the fault is in its value. */
  predicate Within(path: Path, member: string) {
    path != [] && path[0] == Name(member)
  }

  /** path begins with an item of the list. */
  predicate InItem(path: Path, list: string, length: nat) {
    path != [] && path[0].Item? && path[0].list == list && path[0].index < length
  }

  predicate HeadFault(cfg: Config, m: TrustManifest, code: Code, path: Path) {
    || (code == CodeExtensionKey && path == [Name("extensions")] && !KeysValid(cfg, m.extensions))
    || (code == CodeManifestContributor && path == [Name("contributor")] && m.contributor == "")
    || (code == CodeManifestContributorURI && path == [Name("contributor")] && m.contributor != ""
        && !IsAbsoluteURI(m.contributor))
    || (code == CodeManifestEmpty && path == [] && m.signature.None? && m.trustSchema.None? && m.attestations == []
        && m.provenance == [] && m.extensions == [])
  }

  predicate SignedFault(cfg: Config, m: TrustManifest, code: Code, path: Path) {
    m.signature.Some? &&
    (|| (code == CodeManifestSignedMember && path == [Name("subject")] && m.subject.None?)
     || (Within(path, "signature") &&
         SignatureFault(cfg, m.signature.value, "ai-catalog-trust-manifest+jws", code, path[1..]))
     || (code == CodeManifestSigner && path == [Name("signature"), Name("signer")] && m.signature.value.signer != ""
         && m.signature.value.signer != m.contributor))
  }

  predicate EvidenceFault(m: TrustManifest, code: Code, path: Path) {
    || (Within(path, "trustSchema") && m.trustSchema.Some? && SchemaFault(m.trustSchema.value, code, path[1..]))
    || (InItem(path, "attestations", |m.attestations|) &&
        AttestationFault(m.attestations[path[0].index], code, path[1..]))
    || (InItem(path, "provenance", |m.provenance|) && ProvenanceFault(m.provenance[path[0].index], code, path[1..]))
  }

  predicate ManifestFault(cfg: Config, e: Entry, m: TrustManifest, code: Code, path: Path) {
    || HeadFault(cfg, m, code, path) || SignedFault(cfg, m, code, path) || EvidenceFault(m, code, path)
    || (Within(path, "subject") && m.subject.Some? && SubjectFault(e, m.subject.value, code, path[1..]))
    || (Within(path, "signature") && m.signature.Some? && ProfileFault(cfg, m.signature.value, code, path[1..]))
  }

  predicate PublisherFault(p: PublisherInfo, code: Code, path: Path) {
    code == CodePublisherMember &&
    ((path == [Name("identifier")] && p.identifier == "") || (path == [Name("displayName")] && p.displayName == ""))
  }

  predicate FieldFault(cfg: Config, e: Entry, code: Code, path: Path) {
    || (code == CodeEntryMember && path == [Name("identifier")] && e.identifier == "")
    || (code == CodeEntryMember && path == [Name("type")] && e.typ == "")
    || (code == CodeEntryArtifact && path == [] && (e.url == "" <==> e.data.NoData?))
    || (code == CodeTimestamp && path == [Name("updatedAt")] && BadTime(cfg, e.updatedAt))
    || (code == CodeExtensionKey && path == [Name("extensions")] && !KeysValid(cfg, e.extensions))
    || (code == CodePolicyURLs && path == [Name("extensions")] && !PolicyValid(e.extensions))
    || (Within(path, "publisher") && e.publisher.Some? && PublisherFault(e.publisher.value, code, path[1..]))
  }

  predicate DigestFault(e: Entry, code: Code) {
    || (code == CodeDigestInvalid && BadDigest(e.digest))
    || (code == CodeEntryDigest && e.digest == ""
        && exists k :: 0 <= k < |e.manifests| && e.manifests[k].signature.Some?)
  }

  predicate TrustFault(cfg: Config, e: Entry, code: Code, path: Path) {
    || (path == [Name("digest")] && DigestFault(e, code))
    || (InItem(path, "trustManifests", |e.manifests|) &&
        ManifestFault(cfg, e, e.manifests[path[0].index], code, path[1..]))
  }

  predicate EntryFault(cfg: Config, e: Entry, room: int, code: Code, path: Path)
    decreases e, 1
  {
    || FieldFault(cfg, e, code, path) || TrustFault(cfg, e, code, path)
    || (code == CodeIdentifierNotURI && path == [Name("identifier")] && e.identifier != "" && ':' !in e.identifier)
    || NestedFault(cfg, e, room, code, path)
  }

  predicate NestedFault(cfg: Config, e: Entry, room: int, code: Code, path: Path)
    decreases e, 0
  {
    e.typ == CATALOG_TYPE &&
    if room <= 0 then code == CodeNestedDepth && path == []
    else if e.data.NoData? then false
    else if e.data.decoded.None? then code == CodeNestedInvalid && path == [Name("data")]
    else Within(path, "data") && CatalogFault(cfg, e.data.decoded.value, room - 1, code, path[1..])
  }

  /** Entry k has the identifier of an earlier one, and versions do not tell them apart. */
  predicate RepeatFault(es: seq<Entry>, k: nat, code: Code, path: Path)
    requires k < |es|
  {
    || (code == CodeEntryDuplicate && path == [] && es[k].version == "" &&
        exists j :: 0 <= j < k && es[j].identifier == es[k].identifier)
    || (code == CodeEntryDuplicate && path == [] && es[k].version != "" &&
        exists j :: 0 <= j < k && es[j].identifier == es[k].identifier && es[j].version == es[k].version)
    || (code == CodeEntryVersion && path == [Name("identifier")] && es[k].version != "" &&
        exists j :: 0 <= j < k && es[j].identifier == es[k].identifier && es[j].version == "")
  }

  predicate DocumentFault(cfg: Config, c: AICatalog, code: Code, path: Path) {
    || (code == CodeSpecVersion && path == [Name("specVersion")] && !cfg.specVersionOK(c.specVersion))
    || (code == CodeHostMember && path == [Name("host"), Name("displayName")] && c.host.Some?
        && c.host.value.displayName == "")
    || (Within(path, "signature") && c.signature.Some?
        && SignatureFault(cfg, c.signature.value, "ai-catalog+jws", code, path[1..]))
    || (code == CodeExtensionKey && path == [Name("extensions")] && !KeysValid(cfg, c.extensions))
  }

  predicate CatalogFault(cfg: Config, c: AICatalog, room: int, code: Code, path: Path)
    decreases c, 2
  {
    || DocumentFault(cfg, c, code, path)
    || (InItem(path, "entries", |c.entries|) &&
        (RepeatFault(c.entries, path[0].index, code, path[1..]) ||
         EntryFault(cfg, c.entries[path[0].index], room, code, path[1..])))
  }
}

/** The validator reports exactly the faults. */
module FaultLaws {
  import opened Json
  import opened Catalog
  import opened Diagnostics
  import opened Digest
  import opened Identity
  import opened Rules
  import opened CatalogRules
  import opened ReportLaws
  import opened Validation
  import opened ValidCatalogs
  import opened Faults
  import ValidLaws
  import J = Jws

  /** The finding is in the report. */
  predicate In(severity: Severity, r: Report, code: Code, path: Path) {
    match r
    case Nothing => false
    case Found(s, c, p) => s == severity && c == code && p == path
    case Both(a, b) => In(severity, a, code, path) || In(severity, b, code, path)
    case At(place, part) => place <= path && In(severity, part, code, path[|place|..])
  }

  lemma MovedIff(place: Path, ds: seq<Diagnostic>, code: Code, path: Path)
    ensures Diagnostic(code, path) in Moved(place, ds) <==>
            place <= path && Diagnostic(code, path[|place|..]) in ds
  {
    if Diagnostic(code, path) in Moved(place, ds) {
      var i :| 0 <= i < |ds| && Moved(place, ds)[i] == Diagnostic(code, path);
      assert path == place + ds[i].path && path[|place|..] == ds[i].path;
      assert ds[i] == Diagnostic(code, path[|place|..]);
    }
    if place <= path && Diagnostic(code, path[|place|..]) in ds {
      var i :| 0 <= i < |ds| && ds[i] == Diagnostic(code, path[|place|..]);
      assert path == place + path[|place|..];
      assert Moved(place, ds)[i] == Diagnostic(code, path);
    }
  }

  lemma {:induction false} InIff(severity: Severity, r: Report, code: Code, path: Path)
    ensures In(severity, r, code, path) <==> Diagnostic(code, path) in Findings(severity, r)
    decreases r
  {
    match r {
      case Both(a, b) =>
        InIff(severity, a, code, path);
        InIff(severity, b, code, path);
      case At(place, part) =>
        MovedIff(place, Findings(severity, part), code, path);
        if place <= path { InIff(severity, part, code, path[|place|..]); }
      case _ =>
    }
  }

  // ---- reports part by part ----

  lemma InParts(severity: Severity, code: Code, path: Path)
    ensures forall a: Report, b: Report :: In(severity, a.Then(b), code, path) <==>
      In(severity, a, code, path) || In(severity, b, code, path)
    ensures forall condition, c, p :: In(severity, ErrIf(condition, c, p), code, path) <==>
      condition && severity == Error && code == c && path == p
    ensures forall condition, c, p :: In(severity, WarnIf(condition, c, p), code, path) <==>
      condition && severity == Warning && code == c && path == p
  {
  }

  lemma InPlace(severity: Severity, x: Segment, part: Report, code: Code, path: Path)
    ensures In(severity, At([x], part), code, path) <==>
            path != [] && path[0] == x && In(severity, part, code, path[1..])
  {
  }

  lemma {:induction false} InSeries(severity: Severity, list: string, parts: seq<Report>, n: nat, code: Code,
      path: Path)
    requires n <= |parts|
    ensures In(severity, Series(list, parts, n), code, path) <==>
            path != [] && path[0].Item? && path[0].list == list && path[0].index < n
            && In(severity, parts[path[0].index], code, path[1..])
  {
    if n > 0 {
      InSeries(severity, list, parts, n - 1, code, path);
      InParts(severity, code, path);
      InPlace(severity, Item(list, n - 1), parts[n - 1], code, path);
    }
  }

  lemma RequiredStep(severity: Severity, c: Code, members: seq<(string, string)>, n: nat, code: Code, path: Path)
    requires n < |members|
    ensures In(severity, RequiredRules(c, members, n + 1), code, path) <==>
            (In(severity, RequiredRules(c, members, n), code, path) ||
             (severity == Error && code == c && path == [Name(members[n].0)] && members[n].1 == ""))
  {
    InBoth(severity, RequiredRules(c, members, n), ErrIf(members[n].1 == "", c, [Name(members[n].0)]), code, path);
    InErrIf(severity, members[n].1 == "", c, [Name(members[n].0)], code, path);
  }

  lemma InErrIf(severity: Severity, condition: bool, c: Code, p: Path, code: Code, path: Path)
    ensures In(severity, ErrIf(condition, c, p), code, path) <==>
            condition && severity == Error && code == c && path == p
  {
  }

  lemma InBoth(severity: Severity, a: Report, b: Report, code: Code, path: Path)
    ensures In(severity, Both(a, b), code, path) <==> In(severity, a, code, path) || In(severity, b, code, path)
  {
  }

  lemma {:induction false} KeysIn(severity: Severity, cfg: Config, extensions: seq<Member>, code: Code, path: Path)
    ensures In(severity, ExtensionKeys(cfg, extensions), code, path) <==>
            severity == Error && code == CodeExtensionKey && path == [] && !KeysValid(cfg, extensions)
  {
    if extensions != [] {
      KeysIn(severity, cfg, extensions[1..], code, path);
      InParts(severity, code, path);
      assert extensions == [extensions[0]] + extensions[1..];
    }
  }

  // ---- signatures ----

  lemma RequiredIn(severity: Severity, s: Signature, code: Code, path: Path)
    ensures In(severity, RequiredRules(CodeSignatureMember, RequiredMembers(s), 4), code, path) <==>
            severity == Error && code == CodeSignatureMember && EmptyMember(s, path)
  {
    var ms := RequiredMembers(s);
    RequiredStep(severity, CodeSignatureMember, ms, 0, code, path);
    RequiredStep(severity, CodeSignatureMember, ms, 1, code, path);
    RequiredStep(severity, CodeSignatureMember, ms, 2, code, path);
    RequiredStep(severity, CodeSignatureMember, ms, 3, code, path);
  }

  lemma WindowIn(severity: Severity, cfg: Config, s: Signature, code: Code, path: Path)
    ensures In(severity, ValidityWindow(cfg, s), code, path) <==>
            severity == Error && path == [Name("expiresAt")] && WindowFault(cfg, s, code)
  {
  }

  lemma TimesIn(severity: Severity, cfg: Config, s: Signature, code: Code, path: Path)
    ensures In(severity, SignerAndTimes(cfg, s), code, path) <==>
            severity == Error && TimesFault(cfg, s, code, path)
  {
    InParts(severity, code, path);
    WindowIn(severity, cfg, s, code, path);
  }

  lemma FormIn(severity: Severity, cfg: Config, jws: string, typ: string, code: Code, path: Path)
    ensures In(severity, JWSForm(cfg, jws, typ), code, path) <==>
            severity == Error && path == [Name("jws")] && jws != "" && FormFault(cfg, jws, typ, code)
  {
    if jws != "" && J.Detached(jws) && J.ParseHeader(jws, cfg.decode).Some? {
      HeaderIn(severity, J.ParseHeader(jws, cfg.decode).value, [Name("jws")], typ, code, path);
    } else {
      NoHeaderIn(severity, cfg, jws, typ, code, path);
    }
  }

  lemma NoHeaderIn(severity: Severity, cfg: Config, jws: string, typ: string, code: Code, path: Path)
    requires jws == "" || !J.Detached(jws) || J.ParseHeader(jws, cfg.decode).None?
    ensures In(severity, JWSForm(cfg, jws, typ), code, path) <==>
            severity == Error && path == [Name("jws")] && jws != "" && FormFault(cfg, jws, typ, code)
  {
  }

  lemma HeaderIn(severity: Severity, h: J.Header, p: Path, typ: string, code: Code, path: Path)
    ensures In(severity, ErrIf(J.Forbidden(h.algorithm), CodeSignatureAlgorithm, p)
               .Then(ErrIf(h.Has("b64"), CodeSignatureB64, p)).Then(ErrIf(h.typ != typ, CodeSignatureType, p)), code,
               path) <==>
            severity == Error && path == p &&
              ((code == CodeSignatureAlgorithm && J.Forbidden(h.algorithm)) ||
               (code == CodeSignatureB64 && "b64" in h.members) || (code == CodeSignatureType && h.typ != typ))
  {
    InErrIf(severity, J.Forbidden(h.algorithm), CodeSignatureAlgorithm, p, code, path);
    InErrIf(severity, h.Has("b64"), CodeSignatureB64, p, code, path);
    InErrIf(severity, h.typ != typ, CodeSignatureType, p, code, path);
    InParts(severity, code, path);
  }

  lemma SignatureIn(severity: Severity, cfg: Config, s: Signature, typ: string, code: Code, path: Path)
    ensures In(severity, SignatureRules(cfg, s, typ), code, path) <==>
            severity == Error && SignatureFault(cfg, s, typ, code, path)
  {
    InParts(severity, code, path);
    RequiredIn(severity, s, code, path);
    TimesIn(severity, cfg, s, code, path);
    FormIn(severity, cfg, s.jws, typ, code, path);
  }

  lemma {:induction false} KeySourcesIn(severity: Severity, h: J.Header, n: nat, code: Code, path: Path)
    requires n <= |KEY_SOURCES|
    ensures In(severity, KeySources(h, n), code, path) <==>
            severity == Warning && code == CodeProfileHeader && path == [Name("jws")]
            && exists i :: 0 <= i < n && KEY_SOURCES[i] in h.members
  {
    if n > 0 {
      KeySourcesIn(severity, h, n - 1, code, path);
      InParts(severity, code, path);
    }
  }

  lemma IdentityIn(severity: Severity, s: Signature, h: J.Header, code: Code, path: Path)
    ensures In(severity, ProfileIdentity(s, h), code, path) <==> severity == Warning && IdentityFault(s, h, code, path)
  {
    InParts(severity, code, path);
  }

  lemma SignerIn(severity: Severity, s: Signature, h: J.Header, code: Code, path: Path)
    ensures In(severity, SignerProfile(s, h), code, path) <==>
            (severity == Warning &&
             (IdentityFault(s, h, code, path) || (code == CodeProfileHeader && path == [Name("jws")] &&
                exists i :: 0 <= i < |KEY_SOURCES| && KEY_SOURCES[i] in h.members)))
  {
    IdentityIn(severity, s, h, code, path);
    KeySourcesIn(severity, h, |KEY_SOURCES|, code, path);
    InBoth(severity, ProfileIdentity(s, h), KeySources(h, |KEY_SOURCES|), code, path);
  }

  lemma CurrentIn(severity: Severity, cfg: Config, s: Signature, code: Code, path: Path)
    ensures In(severity, Current(cfg, s), code, path) <==> severity == Warning && ClockFault(cfg, s, code, path)
  {
    InParts(severity, code, path);
  }

  lemma ProfileIn(severity: Severity, cfg: Config, s: Signature, code: Code, path: Path)
    ensures In(severity, ProfileRules(cfg, s), code, path) <==> severity == Warning && ProfileFault(cfg, s, code, path)
  {
    var h := J.ParseHeader(s.jws, cfg.decode);
    if s.profile == DID_WEB_PROFILE && J.Detached(s.jws) && h.Some? {
      SignerIn(severity, s, h.value, code, path);
      CurrentIn(severity, cfg, s, code, path);
      InBoth(severity, SignerProfile(s, h.value), Current(cfg, s), code, path);
    }
  }

  // ---- manifests ----

  lemma DigestIn(severity: Severity, value: string, code: Code, path: Path)
    ensures In(severity, At([Name("digest")], DigestRules(value)), code, path) <==>
            severity == Error && code == CodeDigestInvalid && path == [Name("digest")] && BadDigest(value)
    ensures In(severity, At([Name("sourceDigest")], DigestRules(value)), code, path) <==>
            severity == Error && code == CodeDigestInvalid && path == [Name("sourceDigest")] && BadDigest(value)
  {
    InPlace(severity, Name("digest"), DigestRules(value), code, path);
    InPlace(severity, Name("sourceDigest"), DigestRules(value), code, path);
  }

  lemma SubjectRulesIn(severity: Severity, s: Subject, code: Code, path: Path)
    ensures In(severity, SubjectRules(Some(s)), code, path) <==>
            (severity == Error && ((code == CodeSubjectMember && EmptySubject(s, path)) ||
              (code == CodeDigestInvalid && path == [Name("digest")] && BadDigest(s.digest))))
  {
    var ms := SubjectMembers(s);
    RequiredStep(severity, CodeSubjectMember, ms, 0, code, path);
    RequiredStep(severity, CodeSubjectMember, ms, 1, code, path);
    RequiredStep(severity, CodeSubjectMember, ms, 2, code, path);
    DigestIn(severity, s.digest, code, path);
    InBoth(severity, RequiredRules(CodeSubjectMember, ms, 3), At([Name("digest")], DigestRules(s.digest)), code, path);
  }

  lemma {:induction false} MismatchesIn(severity: Severity, members: seq<string>, n: nat, code: Code, path: Path)
    requires n <= |members|
    ensures In(severity, Mismatches(members, n), code, path) <==>
            severity == Error && code == CodeSubjectMismatch
            && exists k :: 0 <= k < n && path == [Name("subject"), Name(members[k])]
  {
    if n > 0 {
      MismatchesIn(severity, members, n - 1, code, path);
      InBoth(severity, Mismatches(members, n - 1), Err(CodeSubjectMismatch, [Name("subject"), Name(members[n - 1])]),
          code, path);
    }
  }

  lemma MismatchMembers(e: Entry, s: Subject, member: string)
    ensures member in SubjectMismatches(e, s) <==> Differs(e, s, member)
  {
  }

  lemma BindingIn(severity: Severity, e: Entry, m: TrustManifest, code: Code, path: Path)
    ensures In(severity, SubjectBinding(e, m), code, path) <==>
            severity == Error && code == CodeSubjectMismatch && m.subject.Some? && |path| == 2
            && path[0] == Name("subject") && path[1].Name? && Differs(e, m.subject.value, path[1].name)
  {
    if m.subject.Some? {
      var members := SubjectMismatches(e, m.subject.value);
      MismatchesIn(severity, members, |members|, code, path);
      if |path| == 2 && path[1].Name? {
        MismatchMembers(e, m.subject.value, path[1].name);
        if path[1].name in members {
          var k :| 0 <= k < |members| && members[k] == path[1].name;
          assert path[0] == Name("subject") ==> path == [Name("subject"), Name(members[k])];
        }
      }
    }
  }

  lemma HeadIn(severity: Severity, cfg: Config, m: TrustManifest, code: Code, path: Path)
    ensures In(severity, ManifestHead(cfg, m), code, path) <==> severity == Error && HeadFault(cfg, m, code, path)
  {
    InThree(severity, At([Name("extensions")], ExtensionKeys(cfg, m.extensions)),
        At([Name("contributor")], Contributor(m.contributor)), ErrIf(!Substantive(m), CodeManifestEmpty, []), code,
        path);
    InErrIf(severity, !Substantive(m), CodeManifestEmpty, [], code, path);
    InPlace(severity, Name("extensions"), ExtensionKeys(cfg, m.extensions), code, path);
    ContributorIn(severity, m.contributor, code, path);
    if path != [] { KeysIn(severity, cfg, m.extensions, code, path[1..]); }
  }

  lemma ContributorIn(severity: Severity, contributor: string, code: Code, path: Path)
    ensures In(severity, At([Name("contributor")], Contributor(contributor)), code, path) <==>
            (severity == Error && path == [Name("contributor")] &&
             ((code == CodeManifestContributor && contributor == "") ||
              (code == CodeManifestContributorURI && contributor != "" && !IsAbsoluteURI(contributor))))
  {
    InPlace(severity, Name("contributor"), Contributor(contributor), code, path);
  }

  lemma SignedIn(severity: Severity, cfg: Config, m: TrustManifest, code: Code, path: Path)
    ensures In(severity, SignedManifest(cfg, m), code, path) <==> severity == Error && SignedFault(cfg, m, code, path)
  {
    if m.signature.Some? {
      var s := m.signature.value;
      var a := ErrIf(m.subject.None?, CodeManifestSignedMember, [Name("subject")]);
      var b := At([Name("signature")], SignatureRules(cfg, s, MANIFEST_JWS_TYPE));
      var c := ErrIf(s.signer != "" && s.signer != m.contributor, CodeManifestSigner,
          [Name("signature"), Name("signer")]);
      InThree(severity, a, b, c, code, path);
      InErrIf(severity, m.subject.None?, CodeManifestSignedMember, [Name("subject")], code, path);
      InErrIf(severity, s.signer != "" && s.signer != m.contributor, CodeManifestSigner,
          [Name("signature"), Name("signer")], code, path);
      InPlace(severity, Name("signature"), SignatureRules(cfg, s, MANIFEST_JWS_TYPE), code, path);
      if path != [] { SignatureIn(severity, cfg, s, MANIFEST_JWS_TYPE, code, path[1..]); }
    }
  }

  lemma InThree(severity: Severity, a: Report, b: Report, c: Report, code: Code, path: Path)
    ensures In(severity, a.Then(b).Then(c), code, path) <==>
            In(severity, a, code, path) || In(severity, b, code, path) || In(severity, c, code, path)
  {
    InBoth(severity, a, b, code, path);
    InBoth(severity, Both(a, b), c, code, path);
  }

  lemma SchemaIn(severity: Severity, schema: Option<TrustSchema>, code: Code, path: Path)
    ensures In(severity, TrustSchemaRules(schema), code, path) <==>
            severity == Error && schema.Some? && SchemaFault(schema.value, code, path)
  {
    InParts(severity, code, path);
  }

  lemma AttestationIn(severity: Severity, a: Attestation, code: Code, path: Path)
    ensures In(severity, AttestationRules(a), code, path) <==> severity == Error && AttestationFault(a, code, path)
  {
    InParts(severity, code, path);
    DigestIn(severity, a.digest, code, path);
  }

  lemma ProvenanceIn(severity: Severity, l: ProvenanceLink, code: Code, path: Path)
    ensures In(severity, ProvenanceRules(l), code, path) <==> severity == Error && ProvenanceFault(l, code, path)
  {
    InParts(severity, code, path);
    DigestIn(severity, l.sourceDigest, code, path);
  }

  lemma ListsIn(severity: Severity, m: TrustManifest, code: Code, path: Path)
    ensures In(severity, Evidence(m), code, path) <==>
            (severity == Error &&
             ((InItem(path, "attestations", |m.attestations|) &&
               AttestationFault(m.attestations[path[0].index], code, path[1..])) ||
              (InItem(path, "provenance", |m.provenance|) &&
               ProvenanceFault(m.provenance[path[0].index], code, path[1..]))))
  {
    var a, p := AttestationParts(m.attestations), ProvenanceParts(m.provenance);
    InBoth(severity, Series("attestations", a, |a|), Series("provenance", p, |p|), code, path);
    InSeries(severity, "attestations", a, |a|, code, path);
    InSeries(severity, "provenance", p, |p|, code, path);
    if InItem(path, "attestations", |a|) {
      AttestationIn(severity, m.attestations[path[0].index], code, path[1..]);
    }
    if InItem(path, "provenance", |p|) {
      ProvenanceIn(severity, m.provenance[path[0].index], code, path[1..]);
    }
  }

  /** The subject's two rules together. */
  lemma SubjectIn(severity: Severity, e: Entry, m: TrustManifest, code: Code, path: Path)
    ensures In(severity, At([Name("subject")], SubjectRules(m.subject)), code, path) ||
              In(severity, SubjectBinding(e, m), code, path) <==>
            severity == Error && Within(path, "subject") && m.subject.Some?
              && SubjectFault(e, m.subject.value, code, path[1..])
  {
    InPlace(severity, Name("subject"), SubjectRules(m.subject), code, path);
    BindingIn(severity, e, m, code, path);
    if m.subject.Some? && path != [] { SubjectRulesIn(severity, m.subject.value, code, path[1..]); }
  }

  lemma TailIn(severity: Severity, m: TrustManifest, code: Code, path: Path)
    ensures In(severity, ManifestTail(m), code, path) <==>
            (In(severity, At([Name("subject")], SubjectRules(m.subject)), code, path) ||
             (severity == Error && EvidenceFault(m, code, path)))
  {
    InParts(severity, code, path);
    InPlace(severity, Name("trustSchema"), TrustSchemaRules(m.trustSchema), code, path);
    if path != [] { SchemaIn(severity, m.trustSchema, code, path[1..]); }
    ListsIn(severity, m, code, path);
  }

  lemma ManifestProfileIn(severity: Severity, cfg: Config, m: TrustManifest, code: Code, path: Path)
    ensures In(severity, ManifestProfile(cfg, m), code, path) <==>
            severity == Warning && Within(path, "signature") && m.signature.Some?
              && ProfileFault(cfg, m.signature.value, code, path[1..])
  {
    if m.signature.Some? {
      InPlace(severity, Name("signature"), ProfileRules(cfg, m.signature.value), code, path);
      if path != [] { ProfileIn(severity, cfg, m.signature.value, code, path[1..]); }
    }
  }

  lemma FormSeverity(cfg: Config, jws: string, typ: string, code: Code)
    ensures FormFault(cfg, jws, typ, code) ==> SeverityOf(code) == Error
  {
  }

  lemma SignatureSeverity(cfg: Config, s: Signature, typ: string, code: Code, path: Path)
    ensures SignatureFault(cfg, s, typ, code, path) ==> SeverityOf(code) == Error
  {
    FormSeverity(cfg, s.jws, typ, code);
  }

  lemma ProfileSeverity(cfg: Config, s: Signature, code: Code, path: Path)
    ensures ProfileFault(cfg, s, code, path) ==> SeverityOf(code) == Warning
  {
    var h := J.ParseHeader(s.jws, cfg.decode);
    if h.Some? { IdentitySeverity(s, h.value, code, path); }
    ClockSeverity(cfg, s, code, path);
  }

  lemma IdentitySeverity(s: Signature, h: J.Header, code: Code, path: Path)
    ensures IdentityFault(s, h, code, path) ==> SeverityOf(code) == Warning
  {
  }

  lemma ClockSeverity(cfg: Config, s: Signature, code: Code, path: Path)
    ensures ClockFault(cfg, s, code, path) ==> SeverityOf(code) == Warning
  {
  }

  lemma PartSeverity(cfg: Config, e: Entry, m: TrustManifest, code: Code, path: Path)
    ensures HeadFault(cfg, m, code, path) || EvidenceFault(m, code, path) ==> SeverityOf(code) == Error
    ensures m.subject.Some? && SubjectFault(e, m.subject.value, code, path) ==> SeverityOf(code) == Error
  {
  }

  lemma SignedSeverity(cfg: Config, m: TrustManifest, code: Code, path: Path)
    ensures SignedFault(cfg, m, code, path) ==> SeverityOf(code) == Error
  {
    if m.signature.Some? && path != [] {
      SignatureSeverity(cfg, m.signature.value, MANIFEST_JWS_TYPE, code, path[1..]);
    }
  }

  /** What is wrong with a manifest apart from the signer profile. */
  predicate ManifestError(cfg: Config, e: Entry, m: TrustManifest, code: Code, path: Path) {
    || HeadFault(cfg, m, code, path) || SignedFault(cfg, m, code, path) || EvidenceFault(m, code, path)
    || (Within(path, "subject") && m.subject.Some? && SubjectFault(e, m.subject.value, code, path[1..]))
  }

  lemma ManifestErrorsIn(severity: Severity, cfg: Config, e: Entry, m: TrustManifest, code: Code, path: Path)
    ensures In(severity, TrustManifestRules(cfg, m), code, path) || In(severity, SubjectBinding(e, m), code, path) <==>
            severity == Error && ManifestError(cfg, e, m, code, path)
    ensures ManifestError(cfg, e, m, code, path) ==> SeverityOf(code) == Error
  {
    HeadIn(severity, cfg, m, code, path);
    SignedIn(severity, cfg, m, code, path);
    TailIn(severity, m, code, path);
    SubjectIn(severity, e, m, code, path);
    InThree(severity, ManifestHead(cfg, m), SignedManifest(cfg, m), ManifestTail(m), code, path);
    PartSeverity(cfg, e, m, code, path);
    SignedSeverity(cfg, m, code, path);
    if path != [] { PartSeverity(cfg, e, m, code, path[1..]); }
  }

  lemma ManifestIn(severity: Severity, cfg: Config, e: Entry, m: TrustManifest, code: Code, path: Path)
    ensures In(severity, ManifestRules(cfg, e, m), code, path) <==>
            severity == SeverityOf(code) && ManifestFault(cfg, e, m, code, path)
  {
    ManifestErrorsIn(severity, cfg, e, m, code, path);
    ManifestProfileIn(severity, cfg, m, code, path);
    InThree(severity, TrustManifestRules(cfg, m), SubjectBinding(e, m), ManifestProfile(cfg, m), code, path);
    if path != [] && m.signature.Some? { ProfileSeverity(cfg, m.signature.value, code, path[1..]); }
  }

  // ---- entries ----

  lemma ExtensionsIn(severity: Severity, cfg: Config, e: Entry, code: Code, path: Path)
    ensures In(severity, EntryExtensions(cfg, e), code, path) <==>
            (severity == Error && path == [Name("extensions")] &&
             ((code == CodeExtensionKey && !KeysValid(cfg, e.extensions)) ||
              (code == CodePolicyURLs && !PolicyValid(e.extensions))))
  {
    var keys, policy := ExtensionKeys(cfg, e.extensions), PolicyURLs(e.extensions);
    InPlace(severity, Name("extensions"), keys.Then(policy), code, path);
    if path != [] {
      InBoth(severity, keys, policy, code, path[1..]);
      KeysIn(severity, cfg, e.extensions, code, path[1..]);
      PolicyIn(severity, e.extensions, code, path[1..]);
    }
  }

  lemma PolicyIn(severity: Severity, extensions: seq<Member>, code: Code, path: Path)
    ensures In(severity, PolicyURLs(extensions), code, path) <==>
            severity == Error && code == CodePolicyURLs && path == [] && !PolicyValid(extensions)
  {
    ValidLaws.PolicyIff(extensions);
  }

  lemma PublisherIn(severity: Severity, publisher: Option<PublisherInfo>, code: Code, path: Path)
    ensures In(severity, PublisherRules(publisher), code, path) <==>
            severity == Error && publisher.Some? && PublisherFault(publisher.value, code, path)
  {
    InParts(severity, code, path);
  }

  lemma FirstFieldsIn(severity: Severity, cfg: Config, e: Entry, code: Code, path: Path)
    ensures In(severity, RequiredEntryFields(e).Then(ArtifactSource(e)).Then(Timestamp(cfg, e.updatedAt, "updatedAt")),
               code, path) <==>
            (severity == Error &&
             ((code == CodeEntryMember && path == [Name("identifier")] && e.identifier == "") ||
              (code == CodeEntryMember && path == [Name("type")] && e.typ == "") ||
              (code == CodeEntryArtifact && path == [] && (e.url == "" <==> e.data.NoData?)) ||
              (code == CodeTimestamp && path == [Name("updatedAt")] && BadTime(cfg, e.updatedAt))))
  {
    InParts(severity, code, path);
  }

  lemma FieldsIn(severity: Severity, cfg: Config, e: Entry, code: Code, path: Path)
    ensures In(severity, EntryFields(cfg, e), code, path) <==> severity == Error && FieldFault(cfg, e, code, path)
  {
    var first := RequiredEntryFields(e).Then(ArtifactSource(e)).Then(Timestamp(cfg, e.updatedAt, "updatedAt"));
    FirstFieldsIn(severity, cfg, e, code, path);
    ExtensionsIn(severity, cfg, e, code, path);
    InPlace(severity, Name("publisher"), PublisherRules(e.publisher), code, path);
    if path != [] { PublisherIn(severity, e.publisher, code, path[1..]); }
    InThree(severity, first, EntryExtensions(cfg, e), At([Name("publisher")], PublisherRules(e.publisher)), code, path);
  }

  lemma ManifestsIn(severity: Severity, cfg: Config, e: Entry, code: Code, path: Path)
    ensures In(severity, ManifestsRules(cfg, e), code, path) <==>
            severity == SeverityOf(code) && InItem(path, "trustManifests", |e.manifests|)
              && ManifestFault(cfg, e, e.manifests[path[0].index], code, path[1..])
  {
    var parts := ManifestParts(cfg, e);
    InSeries(severity, "trustManifests", parts, |parts|, code, path);
    if InItem(path, "trustManifests", |parts|) {
      ManifestIn(severity, cfg, e, e.manifests[path[0].index], code, path[1..]);
    }
  }

  function NeedsDigest(e: Entry): Report {
    ErrIf(HasSigned(e.manifests, |e.manifests|) && e.digest == "", CodeEntryDigest, [Name("digest")])
  }

  lemma DigestsIn(severity: Severity, e: Entry, code: Code, path: Path)
    ensures In(severity, At([Name("digest")], DigestRules(e.digest)), code, path) ||
              In(severity, NeedsDigest(e), code, path) <==>
            severity == Error && path == [Name("digest")] && DigestFault(e, code)
    ensures DigestFault(e, code) ==> SeverityOf(code) == Error
  {
    DigestIn(severity, e.digest, code, path);
    ValidLaws.SignedSome(e.manifests, |e.manifests|);
  }

  lemma TrustIn(severity: Severity, cfg: Config, e: Entry, code: Code, path: Path)
    ensures In(severity, EntryTrustRules(cfg, e), code, path) <==>
            severity == SeverityOf(code) && TrustFault(cfg, e, code, path)
  {
    var digest, needs := At([Name("digest")], DigestRules(e.digest)), NeedsDigest(e);
    DigestsIn(severity, e, code, path);
    ManifestsIn(severity, cfg, e, code, path);
    InThree(severity, digest, ManifestsRules(cfg, e), needs, code, path);
    assert EntryTrustRules(cfg, e) == digest.Then(ManifestsRules(cfg, e)).Then(needs);
  }

  lemma {:induction false} NestedIn(severity: Severity, cfg: Config, e: Entry, room: int, code: Code, path: Path)
    ensures In(severity, NestedReport(cfg, e, room), code, path) <==>
            severity == SeverityOf(code) && NestedFault(cfg, e, room, code, path)
    decreases e, 0
  {
    if e.typ == CATALOG_TYPE && room > 0 && e.data.Inline? && e.data.decoded.Some? {
      var c := e.data.decoded.value;
      NestedAt(severity, cfg, e, room, c, code, path);
      if path != [] { CatalogIn(severity, cfg, c, room - 1, code, path[1..]); }
    } else {
      NotNestedIn(severity, cfg, e, room, code, path);
    }
  }

  lemma NestedAt(severity: Severity, cfg: Config, e: Entry, room: int, c: AICatalog, code: Code, path: Path)
    requires e.typ == CATALOG_TYPE && room > 0 && e.data.Inline? && e.data.decoded == Some(c)
    ensures In(severity, NestedReport(cfg, e, room), code, path) <==>
            Within(path, "data") && In(severity, CatalogReport(cfg, c, room - 1), code, path[1..])
    ensures NestedFault(cfg, e, room, code, path) <==>
            Within(path, "data") && CatalogFault(cfg, c, room - 1, code, path[1..])
  {
    InPlace(severity, Name("data"), CatalogReport(cfg, c, room - 1), code, path);
  }

  lemma NotNestedIn(severity: Severity, cfg: Config, e: Entry, room: int, code: Code, path: Path)
    requires !(e.typ == CATALOG_TYPE && room > 0 && e.data.Inline? && e.data.decoded.Some?)
    ensures In(severity, NestedReport(cfg, e, room), code, path) <==>
            severity == SeverityOf(code) && NestedFault(cfg, e, room, code, path)
  {
  }

  lemma FormOfIdentifierIn(severity: Severity, e: Entry, code: Code, path: Path)
    ensures In(severity, IdentifierForm(e), code, path) <==>
            severity == Warning && code == CodeIdentifierNotURI && path == [Name("identifier")] && e.identifier != ""
              && ':' !in e.identifier
  {
  }

  lemma FieldSeverity(cfg: Config, e: Entry, code: Code, path: Path)
    ensures FieldFault(cfg, e, code, path) ==> SeverityOf(code) == Error
  {
  }

  lemma {:induction false} EntryIn(severity: Severity, cfg: Config, e: Entry, room: int, code: Code, path: Path)
    ensures In(severity, EntryReport(cfg, e, room), code, path) <==>
            severity == SeverityOf(code) && EntryFault(cfg, e, room, code, path)
    decreases e, 1
  {
    FieldsIn(severity, cfg, e, code, path);
    FieldSeverity(cfg, e, code, path);
    TrustIn(severity, cfg, e, code, path);
    NestedIn(severity, cfg, e, room, code, path);
    FormOfIdentifierIn(severity, e, code, path);
    var first := EntryFields(cfg, e).Then(EntryTrustRules(cfg, e));
    InBoth(severity, EntryFields(cfg, e), EntryTrustRules(cfg, e), code, path);
    InThree(severity, first, NestedReport(cfg, e, room), IdentifierForm(e), code, path);
  }

  // ---- catalogs ----

  lemma RepeatIn(severity: Severity, es: seq<Entry>, k: nat, code: Code, path: Path)
    requires k < |es|
    ensures In(severity, EntryUniqueness(es, k), code, path) <==> severity == Error && RepeatFault(es, k, code, path)
  {
    InParts(severity, code, path);
  }

  lemma UniquenessIn(severity: Severity, es: seq<Entry>, code: Code, path: Path)
    ensures In(severity, Uniqueness(es), code, path) <==>
            severity == Error && InItem(path, "entries", |es|) && RepeatFault(es, path[0].index, code, path[1..])
  {
    InSeries(severity, "entries", ScanParts(es), |es|, code, path);
    if InItem(path, "entries", |es|) { RepeatIn(severity, es, path[0].index, code, path[1..]); }
  }

  lemma DocumentIn(severity: Severity, cfg: Config, c: AICatalog, code: Code, path: Path)
    ensures In(severity, CatalogHead(cfg, c), code, path) <==> severity == Error && DocumentFault(cfg, c, code, path)
  {
    InThree(severity, DocumentForm(cfg, c), CatalogSignature(cfg, c), CatalogExtensions(cfg, c), code, path);
    FormOfDocumentIn(severity, cfg, c, code, path);
    CatalogSignatureIn(severity, cfg, c, code, path);
    InPlace(severity, Name("extensions"), ExtensionKeys(cfg, c.extensions), code, path);
    if path != [] { KeysIn(severity, cfg, c.extensions, code, path[1..]); }
  }

  lemma FormOfDocumentIn(severity: Severity, cfg: Config, c: AICatalog, code: Code, path: Path)
    ensures In(severity, DocumentForm(cfg, c), code, path) <==>
            (severity == Error &&
             ((code == CodeSpecVersion && path == [Name("specVersion")] && !cfg.specVersionOK(c.specVersion)) ||
              (code == CodeHostMember && path == [Name("host"), Name("displayName")] && c.host.Some?
               && c.host.value.displayName == "")))
  {
    InParts(severity, code, path);
  }

  lemma CatalogSignatureIn(severity: Severity, cfg: Config, c: AICatalog, code: Code, path: Path)
    ensures In(severity, CatalogSignature(cfg, c), code, path) <==>
            severity == Error && Within(path, "signature") && c.signature.Some?
              && SignatureFault(cfg, c.signature.value, "ai-catalog+jws", code, path[1..])
  {
    if c.signature.Some? {
      InPlace(severity, Name("signature"), SignatureRules(cfg, c.signature.value, CATALOG_JWS_TYPE), code, path);
      if path != [] { SignatureIn(severity, cfg, c.signature.value, CATALOG_JWS_TYPE, code, path[1..]); }
    }
  }

  lemma HeadSeverity(cfg: Config, c: AICatalog, code: Code, path: Path)
    ensures DocumentFault(cfg, c, code, path) ==> SeverityOf(code) == Error
  {
    if c.signature.Some? && path != [] {
      SignatureSeverity(cfg, c.signature.value, CATALOG_JWS_TYPE, code, path[1..]);
    }
  }

  lemma RepeatSeverity(es: seq<Entry>, k: nat, code: Code, path: Path)
    requires k < |es|
    ensures RepeatFault(es, k, code, path) ==> SeverityOf(code) == Error
  {
  }

  lemma {:induction false} CatalogIn(severity: Severity, cfg: Config, c: AICatalog, room: int, code: Code, path: Path)
    ensures In(severity, CatalogReport(cfg, c, room), code, path) <==>
            severity == SeverityOf(code) && CatalogFault(cfg, c, room, code, path)
    decreases c, 3
  {
    DocumentIn(severity, cfg, c, code, path);
    UniquenessIn(severity, c.entries, code, path);
    EntriesIn(severity, cfg, c.entries, room, code, path);
    InThree(severity, CatalogHead(cfg, c), Uniqueness(c.entries), EntriesReport(cfg, c.entries, room), code, path);
    HeadSeverity(cfg, c, code, path);
    if InItem(path, "entries", |c.entries|) { RepeatSeverity(c.entries, path[0].index, code, path[1..]); }
  }

  lemma {:induction false} EntriesIn(severity: Severity, cfg: Config, es: seq<Entry>, room: int, code: Code, path: Path)
    ensures In(severity, EntriesReport(cfg, es, room), code, path) <==>
            severity == SeverityOf(code) && InItem(path, "entries", |es|)
              && EntryFault(cfg, es[path[0].index], room, code, path[1..])
    decreases es, 2
  {
    var parts := EntryParts(cfg, es, room);
    InSeries(severity, "entries", parts, |parts|, code, path);
    if InItem(path, "entries", |parts|) {
      EntryIn(severity, cfg, es[path[0].index], room, code, path[1..]);
    }
  }

  /** The errors and the warnings of a validation are exactly the faults of the catalog,
      each under its code at its place. */
  lemma FaultsAreReported(c: AICatalog, cfg: Config, maxDepth: int, code: Code, path: Path)
    ensures var r := ResultOf(c, cfg, maxDepth);
            && (Diagnostic(code, path) in r.errors <==>
                SeverityOf(code) == Error && path != [] && path[0] == Name("catalog")
                && CatalogFault(cfg, c, maxDepth, code, path[1..]))
            && (Diagnostic(code, path) in r.warnings <==>
                SeverityOf(code) == Warning && path != [] && path[0] == Name("catalog")
                && CatalogFault(cfg, c, maxDepth, code, path[1..]))
  {
    Reporting(Error, c, cfg, maxDepth, code, path);
    Reporting(Warning, c, cfg, maxDepth, code, path);
  }

  lemma Reporting(severity: Severity, c: AICatalog, cfg: Config, maxDepth: int, code: Code, path: Path)
    ensures Diagnostic(code, path) in Reported(severity, c, cfg, maxDepth) <==>
            severity == SeverityOf(code) && path != [] && path[0] == Name("catalog")
              && CatalogFault(cfg, c, maxDepth, code, path[1..])
  {
    var r := CatalogReport(cfg, c, maxDepth);
    MovedIff([Name("catalog")], Findings(severity, r), code, path);
    if path != [] {
      InIff(severity, r, code, path[1..]);
      CatalogIn(severity, cfg, c, maxDepth, code, path[1..]);
    }
  }
}
