/** What validating a catalog reports, part by part: every part's report is relative
    to the part, and room is how many more levels of catalogs may nest. */
module CatalogRules {
  import opened Json
  import opened Catalog
  import opened Diagnostics
  import opened Rules

  predicate HasID(es: seq<Entry>, n: nat, id: string)
    requires n <= |es|
  {
    exists j :: 0 <= j < n && es[j].identifier == id
  }

  predicate HasPair(es: seq<Entry>, n: nat, id: string, version: string)
    requires n <= |es|
  {
    exists j :: 0 <= j < n && es[j].identifier == id && es[j].version == version
  }

  /** What entry i adds to the entries before it: an unversioned entry needs a new
      identifier; a versioned one needs a new version, and no unversioned namesake. */
  function EntryUniqueness(es: seq<Entry>, i: nat): Report
    requires i < |es|
  {
    var e := es[i];
    if e.version == "" then ErrIf(HasID(es, i, e.identifier), CodeEntryDuplicate, [])
    else
      ErrIf(HasPair(es, i, e.identifier, ""), CodeEntryVersion, [Name("identifier")])
      .Then(ErrIf(HasPair(es, i, e.identifier, e.version), CodeEntryDuplicate, []))
  }

  function ScanParts(es: seq<Entry>): seq<Report> {
    seq(|es|, k requires 0 <= k < |es| => EntryUniqueness(es, k))
  }

  function Uniqueness(es: seq<Entry>): Report {
    Series("entries", ScanParts(es), |es|)
  }

  function CatalogReport(cfg: Config, c: AICatalog, room: int): Report
    decreases c, 0
  {
    CatalogHead(cfg, c).Then(Uniqueness(c.entries)).Then(EntriesReport(cfg, c.entries, room))
  }

  function CatalogHead(cfg: Config, c: AICatalog): Report {
    DocumentForm(cfg, c).Then(CatalogSignature(cfg, c)).Then(CatalogExtensions(cfg, c))
  }

  function DocumentForm(cfg: Config, c: AICatalog): Report {
    SpecVersion(cfg, c.specVersion).Then(Host(c.host))
  }

  function CatalogExtensions(cfg: Config, c: AICatalog): Report {
    At([Name("extensions")], ExtensionKeys(cfg, c.extensions))
  }

  function CatalogSignature(cfg: Config, c: AICatalog): Report {
    match c.signature
    case None => Nothing
    case Some(s) => At([Name("signature")], SignatureRules(cfg, s, CATALOG_JWS_TYPE))
  }

  function EntriesReport(cfg: Config, es: seq<Entry>, room: int): Report
    decreases es, 1
  {
    Series("entries", EntryParts(cfg, es, room), |es|)
  }

  function EntryParts(cfg: Config, es: seq<Entry>, room: int): seq<Report>
    decreases es, 0
  {
    seq(|es|, k requires 0 <= k < |es| => EntryReport(cfg, es[k], room))
  }

  function EntryReport(cfg: Config, e: Entry, room: int): Report
    decreases e, 1
  {
    EntryFields(cfg, e).Then(EntryTrustRules(cfg, e)).Then(NestedReport(cfg, e, room)).Then(IdentifierForm(e))
  }

  function NestedReport(cfg: Config, e: Entry, room: int): Report
    decreases e, 0
  {
    if !e.IsNestedCatalog() then Nothing
    else if room <= 0 then Err(CodeNestedDepth, [])
    else
      match e.data
      case NoData => Nothing
      case Inline(_, None) => Err(CodeNestedInvalid, [Name("data")])
      case Inline(_, Some(c)) => At([Name("data")], CatalogReport(cfg, c, room - 1))
  }
}

/** The validator: it threads paths and a depth through the walk and appends to its
    two lists. Each method logs exactly its part's report. */
module Validation {
  import opened Json
  import opened Catalog
  import opened Diagnostics
  import opened Digest
  import opened Identity
  import opened Jws
  import opened Rules
  import opened CatalogRules

  datatype Level = Minimal | Discoverable | Trusted

  datatype Result = Result(isValid: bool, level: Level, errors: seq<Diagnostic>, warnings: seq<Diagnostic>)

  class Validator {
    const cfg: Config
    const maxDepth: int
    var errors: seq<Diagnostic>
    var warnings: seq<Diagnostic>

    constructor (cfg: Config, maxDepth: int)
      ensures this.cfg == cfg && this.maxDepth == maxDepth && Logged() == Log([], [])
    {
      this.cfg, this.maxDepth := cfg, maxDepth;
      errors, warnings := [], [];
    }

    function Logged(): Log
      reads this
    {
      Log(errors, warnings)
    }

    method AddError(code: Code, path: Path)
      modifies this
      ensures Logged() == Log(old(errors) + [Diagnostic(code, path)], old(warnings))
    {
      errors := errors + [Diagnostic(code, path)];
    }

    method AddWarning(code: Code, path: Path)
      modifies this
      ensures Logged() == Log(old(errors), old(warnings) + [Diagnostic(code, path)])
    {
      warnings := warnings + [Diagnostic(code, path)];
    }

    /** An error at a place below path, if the condition holds. */
    method AddErrorIf(condition: bool, code: Code, path: Path, place: Path)
      modifies this
      ensures Logged() == Record(old(Logged()), path, ErrIf(condition, code, place))
    {
      if condition {
        AddError(code, path + place);
      }
    }

    method ValidateDigest(value: string, path: Path)
      modifies this
      ensures Logged() == Record(old(Logged()), path, DigestRules(value))
    {
      AddErrorIf(value != "" && ParseDigest(value).None?, CodeDigestInvalid, path, []);
    }

    method ValidateExtensionKeys(extensions: seq<Member>, path: Path)
      modifies this
      ensures Logged() == Record(old(Logged()), path, ExtensionKeys(cfg, extensions))
    {
      ghost var all := Record(Logged(), path, ExtensionKeys(cfg, extensions));
      assert extensions[0..] == extensions;
      for i := 0 to |extensions|
        invariant Record(Logged(), path, ExtensionKeys(cfg, extensions[i..])) == all
      {
        assert extensions[i..][0] == extensions[i] && extensions[i..][1..] == extensions[i + 1..];
        AddErrorIf(!cfg.extensionKeyOK(extensions[i].name), CodeExtensionKey, path, []);
      }
    }

    method ValidateTimestamp(value: string, member: string, path: Path)
      modifies this
      ensures Logged() == Record(old(Logged()), path, Timestamp(cfg, value, member))
    {
      if value == "" {
        return;
      }
      if cfg.instant(value).None? {
        AddError(CodeTimestamp, path + [Name(member)]);
      }
    }

    /** The loop over required members of ValidateSignature and ValidateSubject. */
    method RequireMembers(code: Code, members: seq<(string, string)>, path: Path)
      modifies this
      ensures Logged() == Record(old(Logged()), path, RequiredRules(code, members, |members|))
    {
      ghost var log := Logged();
      for i := 0 to |members|
        invariant Logged() == Record(log, path, RequiredRules(code, members, i))
      {
        RequiredLast(log, path, code, members, i);
        AddErrorIf(members[i].1 == "", code, path, [Name(members[i].0)]);
      }
    }

    method ValidateSignature(s: Signature, typ: string, path: Path)
      modifies this
      ensures Logged() == Record(old(Logged()), path, SignatureRules(cfg, s, typ))
    {
      Record3(Logged(), path, RequiredRules(CodeSignatureMember, RequiredMembers(s), 4), SignerAndTimes(cfg, s),
          JWSForm(cfg, s.jws, typ));
      RequireMembers(CodeSignatureMember, RequiredMembers(s), path);
      ValidateSignerAndTimes(s, path);
      ValidateJWS(s.jws, typ, path);
    }

    method ValidateSignerAndTimes(s: Signature, path: Path)
      modifies this
      ensures Logged() == Record(old(Logged()), path, SignerAndTimes(cfg, s))
    {
      Record3(Logged(), path, ErrIf(s.signer != "" && !IsAbsoluteURI(s.signer), CodeSignatureSigner, [Name("signer")]),
              Timestamp(cfg, s.issuedAt, "issuedAt"), ValidityWindow(cfg, s));
      if s.signer != "" && !IsAbsoluteURI(s.signer) {
        AddError(CodeSignatureSigner, path + [Name("signer")]);
      }
      ValidateTimestamp(s.issuedAt, "issuedAt", path);
      ValidateValidityWindow(s, path);
    }

    method ValidateValidityWindow(s: Signature, path: Path)
      modifies this
      ensures Logged() == Record(old(Logged()), path, ValidityWindow(cfg, s))
    {
      if s.expiresAt == "" {
        return;
      }
      ValidateTimestamp(s.expiresAt, "expiresAt", path);
      var issued, expires := cfg.instant(s.issuedAt), cfg.instant(s.expiresAt);
      if issued.Some? && expires.Some? && expires.value <= issued.value {
        AddError(CodeSignatureExpiry, path + [Name("expiresAt")]);
      }
    }

    method ValidateJWS(jws: string, typ: string, path: Path)
      modifies this
      ensures Logged() == Record(old(Logged()), path, JWSForm(cfg, jws, typ))
    {
      var here := path + [Name("jws")];
      if jws == "" {
        return;
      }
      if !Detached(jws) {
        AddError(CodeSignatureForm, here);
        return;
      }
      var header := Parse(jws, cfg.decode);
      if header.None? {
        AddError(CodeSignatureMalformed, here);
        return;
      }
      Record3(Logged(), path, ErrIf(Forbidden(header.value.algorithm), CodeSignatureAlgorithm, [Name("jws")]),
              ErrIf(header.value.Has("b64"), CodeSignatureB64, [Name("jws")]),
                  ErrIf(header.value.typ != typ, CodeSignatureType, [Name("jws")]));
      if Forbidden(header.value.algorithm) {
        AddError(CodeSignatureAlgorithm, here);
      }
      if header.value.Has("b64") {
        AddError(CodeSignatureB64, here);
      }
      if header.value.typ != typ {
        AddError(CodeSignatureType, here);
      }
    }

    /** Warns when the signature is not yet issued or has expired. */
    method SignatureCurrent(s: Signature, path: Path)
      modifies this
      ensures Logged() == Record(old(Logged()), path, Current(cfg, s))
    {
      var issued, expires := cfg.instant(s.issuedAt), cfg.instant(s.expiresAt);
      if issued.Some? && issued.value > cfg.now {
        AddWarning(CodeSignatureNotYetValid, path + [Name("issuedAt")]);
      }
      if expires.Some? && expires.value <= cfg.now {
        AddWarning(CodeSignatureExpired, path + [Name("expiresAt")]);
      }
    }

    method CheckSignerProfile(s: Signature, header: Header, path: Path)
      modifies this
      ensures Logged() == Record(old(Logged()), path, SignerProfile(s, header))
    {
      CheckIdentity(s, header, path);
      CheckKeySources(header, path);
    }

    /** The part of CheckSignerProfile before its loop. */
    method CheckIdentity(s: Signature, header: Header, path: Path)
      modifies this
      ensures Logged() == Record(old(Logged()), path, ProfileIdentity(s, header))
    {
      var foreign := header.algorithm != ES256 && !Forbidden(header.algorithm);
      Record3(Logged(), path, WarnIf(!RootDIDWeb(s.signer), CodeProfileSigner, [Name("signer")]),
              WarnIf(foreign, CodeProfileAlgorithm, [Name("jws")]),
              WarnIf(!KeyOfSigner(header.keyID, s.signer), CodeProfileKeyID, [Name("jws")]));
      if !RootDIDWeb(s.signer) {
        AddWarning(CodeProfileSigner, path + [Name("signer")]);
      }
      if foreign {
        AddWarning(CodeProfileAlgorithm, path + [Name("jws")]);
      }
      if !KeyOfSigner(header.keyID, s.signer) {
        AddWarning(CodeProfileKeyID, path + [Name("jws")]);
      }
    }

    /** The loop of CheckSignerProfile. */
    method CheckKeySources(header: Header, path: Path)
      modifies this
      ensures Logged() == Record(old(Logged()), path, KeySources(header, |KEY_SOURCES|))
    {
      ghost var log := Logged();
      for i := 0 to |KEY_SOURCES|
        invariant Logged() == Record(log, path, KeySources(header, i))
      {
        KeySourceStep(log, path, header, i);
        if header.Has(KEY_SOURCES[i]) {
          AddWarning(CodeProfileHeader, path + [Name("jws")]);
        }
      }
    }

    /** Nothing is reported twice: the form of the signature has its own rules. */
    method CheckManifestProfile(m: TrustManifest, path: Path)
      modifies this
      ensures Logged() == Record(old(Logged()), path, ManifestProfile(cfg, m))
    {
      if m.signature.None? {
        return;
      }
      var s, here := m.signature.value, path + [Name("signature")];
      if s.profile != DID_WEB_PROFILE || !Detached(s.jws) {
        return;
      }
      var header := Parse(s.jws, cfg.decode);
      if header.None? {
        return;
      }
      CheckSignerProfile(s, header.value, here);
      SignatureCurrent(s, here);
    }

    method ValidateTrustManifest(m: TrustManifest, path: Path)
      modifies this
      ensures Logged() == Record(old(Logged()), path, TrustManifestRules(cfg, m))
    {
      Record3(Logged(), path, ManifestHead(cfg, m), SignedManifest(cfg, m), ManifestTail(m));
      ValidateManifestHead(m, path);
      if m.signature.Some? {
        var s := m.signature.value;
        ghost var subject := ErrIf(m.subject.None?, CodeManifestSignedMember, [Name("subject")]);
        ghost var signer := ErrIf(s.signer != ""
            && s.signer != m.contributor, CodeManifestSigner, [Name("signature"), Name("signer")]);
        ghost var rules := SignatureRules(cfg, s, MANIFEST_JWS_TYPE);
        Record3(Logged(), path, subject, At([Name("signature")], rules), signer);
        AddErrorIf(m.subject.None?, CodeManifestSignedMember, path, [Name("subject")]);
        ValidateSignature(s, MANIFEST_JWS_TYPE, path + [Name("signature")]);
        AddErrorIf(s.signer != ""
            && s.signer != m.contributor, CodeManifestSigner, path, [Name("signature"), Name("signer")]);
      }
      ValidateManifestTail(m, path);
    }

    /** The part of ValidateTrustManifest before the signature. */
    method ValidateManifestHead(m: TrustManifest, path: Path)
      modifies this
      ensures Logged() == Record(old(Logged()), path, ManifestHead(cfg, m))
    {
      Record3(Logged(), path, At([Name("extensions")], ExtensionKeys(cfg, m.extensions)),
              At([Name("contributor")], Contributor(m.contributor)), ErrIf(!Substantive(m), CodeManifestEmpty, []));
      ValidateExtensionKeys(m.extensions, path + [Name("extensions")]);
      ValidateContributor(m.contributor, path + [Name("contributor")]);
      AddErrorIf(!Substantive(m), CodeManifestEmpty, path, []);
    }

    method ValidateContributor(contributor: string, path: Path)
      modifies this
      ensures Logged() == Record(old(Logged()), path, Contributor(contributor))
    {
      assert path + [] == path;
      if contributor == "" {
        AddError(CodeManifestContributor, path);
      } else if !IsAbsoluteURI(contributor) {
        AddError(CodeManifestContributorURI, path);
      }
    }

    /** The part of ValidateTrustManifest after the signature. */
    method ValidateManifestTail(m: TrustManifest, path: Path)
      modifies this
      ensures Logged() == Record(old(Logged()), path, ManifestTail(m))
    {
      Record3(Logged(), path, At([Name("subject")], SubjectRules(m.subject)),
          At([Name("trustSchema")], TrustSchemaRules(m.trustSchema)),
              Evidence(m));
      ValidateSubject(m.subject, path + [Name("subject")]);
      ValidateTrustSchema(m.trustSchema, path + [Name("trustSchema")]);
      ValidateAttestations(m.attestations, path);
      ValidateProvenance(m.provenance, path);
    }

    method ValidateTrustSchema(schema: Option<TrustSchema>, path: Path)
      modifies this
      ensures Logged() == Record(old(Logged()), path, TrustSchemaRules(schema))
    {
      if schema.None? {
        return;
      }
      AddErrorIf(schema.value.identifier == "", CodeTrustSchemaMember, path, [Name("identifier")]);
      AddErrorIf(schema.value.version == "", CodeTrustSchemaMember, path, [Name("version")]);
    }

    method ValidateAttestations(attestations: seq<Attestation>, path: Path)
      modifies this
      ensures Logged() == Record(old(Logged()), path,
              Series("attestations", AttestationParts(attestations), |attestations|))
    {
      ghost var log, parts := Logged(), AttestationParts(attestations);
      for i := 0 to |attestations|
        invariant Logged() == Record(log, path, Series("attestations", parts, i))
      {
        var a, here := attestations[i], path + [Item("attestations", i)];
        SeriesStep(log, path, "attestations", parts, i);
        Record3(Logged(), here, ErrIf(a.typ == "", CodeAttestationMember, [Name("type")]),
                ErrIf(a.uri == "", CodeAttestationMember, [Name("uri")]), At([Name("digest")], DigestRules(a.digest)));
        AddErrorIf(a.typ == "", CodeAttestationMember, here, [Name("type")]);
        AddErrorIf(a.uri == "", CodeAttestationMember, here, [Name("uri")]);
        ValidateDigest(a.digest, here + [Name("digest")]);
      }
    }

    method ValidateProvenance(provenance: seq<ProvenanceLink>, path: Path)
      modifies this
      ensures Logged() == Record(old(Logged()), path, Series("provenance", ProvenanceParts(provenance), |provenance|))
    {
      ghost var log, parts := Logged(), ProvenanceParts(provenance);
      for i := 0 to |provenance|
        invariant Logged() == Record(log, path, Series("provenance", parts, i))
      {
        var l, here := provenance[i], path + [Item("provenance", i)];
        SeriesStep(log, path, "provenance", parts, i);
        Record3(Logged(), here, ErrIf(l.relation == "", CodeProvenanceMember, [Name("relation")]),
                ErrIf(l.sourceID == "", CodeProvenanceMember, [Name("sourceId")]),
                At([Name("sourceDigest")], DigestRules(l.sourceDigest)));
        AddErrorIf(l.relation == "", CodeProvenanceMember, here, [Name("relation")]);
        AddErrorIf(l.sourceID == "", CodeProvenanceMember, here, [Name("sourceId")]);
        ValidateDigest(l.sourceDigest, here + [Name("sourceDigest")]);
      }
    }

    method ValidateSubject(subject: Option<Subject>, path: Path)
      modifies this
      ensures Logged() == Record(old(Logged()), path, SubjectRules(subject))
    {
      if subject.None? {
        return;
      }
      RequireMembers(CodeSubjectMember, SubjectMembers(subject.value), path);
      ValidateDigest(subject.value.digest, path + [Name("digest")]);
    }

    method ValidateSubjectBinding(e: Entry, m: TrustManifest, path: Path)
      modifies this
      ensures Logged() == Record(old(Logged()), path, SubjectBinding(e, m))
    {
      if m.subject.None? {
        return;
      }
      var members := FindMismatches(e, m.subject.value);
      ghost var log := Logged();
      for i := 0 to |members|
        invariant Logged() == Record(log, path, Mismatches(members, i))
      {
        MismatchStep(log, path, members, i);
        AddError(CodeSubjectMismatch, path + [Name("subject"), Name(members[i])]);
      }
    }

    method ValidateEntryTrust(e: Entry, path: Path)
      modifies this
      ensures Logged() == Record(old(Logged()), path, EntryTrustRules(cfg, e))
    {
      ghost var digest := At([Name("digest")], DigestRules(e.digest));
      ghost var last := ErrIf(HasSigned(e.manifests, |e.manifests|)
          && e.digest == "", CodeEntryDigest, [Name("digest")]);
      Record3(Logged(), path, digest, ManifestsRules(cfg, e), last);
      ValidateDigest(e.digest, path + [Name("digest")]);
      var hasSigned := ValidateManifests(e, path);
      AddErrorIf(hasSigned && e.digest == "", CodeEntryDigest, path, [Name("digest")]);
    }

    method ValidateManifest(e: Entry, m: TrustManifest, path: Path)
      modifies this
      ensures Logged() == Record(old(Logged()), path, ManifestRules(cfg, e, m))
    {
      Record3(Logged(), path, TrustManifestRules(cfg, m), SubjectBinding(e, m), ManifestProfile(cfg, m));
      ValidateTrustManifest(m, path);
      ValidateSubjectBinding(e, m, path);
      CheckManifestProfile(m, path);
    }

    /** The loop of ValidateEntryTrust. */
    method ValidateManifests(e: Entry, path: Path) returns (hasSigned: bool)
      modifies this
      ensures Logged() == Record(old(Logged()), path, ManifestsRules(cfg, e))
      ensures hasSigned == HasSigned(e.manifests, |e.manifests|)
    {
      var ms := e.manifests;
      ghost var log, parts := Logged(), ManifestParts(cfg, e);
      SeriesStart(log, path, "trustManifests", parts);
      assert |ms| == |parts|;
      hasSigned := false;
      for i := 0 to |ms|
        invariant hasSigned == HasSigned(ms, i)
        invariant Logged() == Record(log, path, Series("trustManifests", parts, i))
      {
        ValidateNextManifest(e, i, path, log, parts);
        SignedStep(ms, i);
        hasSigned := hasSigned || ms[i].signature.Some?;
      }
      assert ManifestsRules(cfg, e) == Series("trustManifests", parts, |ms|);
    }

    method ValidateNextManifest(e: Entry, i: nat, path: Path, ghost log: Log, ghost parts: seq<Report>)
      requires i < |e.manifests| && parts == ManifestParts(cfg, e)
      requires Logged() == Record(log, path, Series("trustManifests", parts, i))
      modifies this
      ensures Logged() == Record(log, path, Series("trustManifests", parts, i + 1))
    {
      SeriesStep(log, path, "trustManifests", parts, i);
      ValidateManifest(e, e.manifests[i], path + [Item("trustManifests", i)]);
    }

    method CheckVersionedEntry(e: Entry, path: Path, seenVersioned: set<(string, string)>, seenUnversioned: set<string>)
      modifies this
      ensures Logged() == Record(old(Logged()), path,
                                 ErrIf(e.identifier in seenUnversioned, CodeEntryVersion, [Name("identifier")])
                                 .Then(ErrIf((e.identifier, e.version) in seenVersioned, CodeEntryDuplicate, [])))
    {
      assert path + [] == path;
      if e.identifier in seenUnversioned {
        AddError(CodeEntryVersion, path + [Name("identifier")]);
      }
      if (e.identifier, e.version) in seenVersioned {
        AddError(CodeEntryDuplicate, path);
      }
    }

    /** One pass over the entries with three lookup tables. */
    method ValidateEntryUniqueness(es: seq<Entry>, path: Path)
      modifies this
      ensures Logged() == Record(old(Logged()), path, Uniqueness(es))
    {
      ghost var log, parts := Logged(), ScanParts(es);
      var seenVersioned: set<(string, string)>, seenUnversioned: set<string>, versionedIDs: set<string> := {}, {}, {};
      for i := 0 to |es|
        invariant Logged() == Record(log, path, Series("entries", parts, i))
        invariant Remembers(es, i, seenVersioned, seenUnversioned, versionedIDs)
      {
        var e, here := es[i], path + [Item("entries", i)];
        LookupsAgree(es, i, seenVersioned, seenUnversioned, versionedIDs);
        SeriesStep(log, path, "entries", parts, i);
        if e.version != "" {
          CheckVersionedEntry(e, here, seenVersioned, seenUnversioned);
          seenVersioned := seenVersioned + {(e.identifier, e.version)};
          versionedIDs := versionedIDs + {e.identifier};
        } else {
          if e.identifier in seenUnversioned || e.identifier in versionedIDs {
            assert here + [] == here;
            AddError(CodeEntryDuplicate, here);
          }
          seenUnversioned := seenUnversioned + {e.identifier};
        }
        RemembersNext(es, i);
      }
    }

    method ValidateEntry(e: Entry, path: Path, depth: nat)
      modifies this
      ensures Logged() == Record(old(Logged()), path, EntryReport(cfg, e, maxDepth - depth))
      decreases e, 1
    {
      Record4(Logged(), path, EntryFields(cfg, e), EntryTrustRules(cfg, e), NestedReport(cfg, e, maxDepth - depth),
          IdentifierForm(e));
      ValidateEntryFields(e, path);
      ValidateEntryTrust(e, path);
      ValidateNestedCatalog(e, path, depth);
      if e.identifier != "" && ':' !in e.identifier {
        AddWarning(CodeIdentifierNotURI, path + [Name("identifier")]);
      }
    }

    /** The part of ValidateEntry before the trust manifests. */
    method ValidateEntryFields(e: Entry, path: Path)
      modifies this
      ensures Logged() == Record(old(Logged()), path, EntryFields(cfg, e))
    {
      var publisher := path + [Name("publisher")];
      ghost var first := RequiredEntryFields(e).Then(ArtifactSource(e)).Then(Timestamp(cfg, e.updatedAt, "updatedAt"));
      Record3(Logged(), path, first, EntryExtensions(cfg, e), At([Name("publisher")], PublisherRules(e.publisher)));
      Record3(Logged(), path, RequiredEntryFields(e), ArtifactSource(e), Timestamp(cfg, e.updatedAt, "updatedAt"));
      AddErrorIf(e.identifier == "", CodeEntryMember, path, [Name("identifier")]);
      AddErrorIf(e.typ == "", CodeEntryMember, path, [Name("type")]);
      AddErrorIf((e.url != "") == e.data.Inline?, CodeEntryArtifact, path, []);
      ValidateTimestamp(e.updatedAt, "updatedAt", path);
      ValidateEntryExtensions(e, path);
      if e.publisher.Some? {
        AddErrorIf(e.publisher.value.identifier == "", CodePublisherMember, publisher, [Name("identifier")]);
        AddErrorIf(e.publisher.value.displayName == "", CodePublisherMember, publisher, [Name("displayName")]);
      }
    }

    method ValidateEntryExtensions(e: Entry, path: Path)
      modifies this
      ensures Logged() == Record(old(Logged()), path, EntryExtensions(cfg, e))
    {
      var here := path + [Name("extensions")];
      RecordAt(Logged(), path, [Name("extensions")], ExtensionKeys(cfg, e.extensions), PolicyURLs(e.extensions));
      ValidateExtensionKeys(e.extensions, here);
      var value := MemberNamed(e.extensions, POLICY_URLS);
      if value.Some? {
        AddErrorIf(!PolicyURLsOK(value.value), CodePolicyURLs, here, []);
      }
    }

    method ValidateNestedCatalog(e: Entry, path: Path, depth: nat)
      modifies this
      ensures Logged() == Record(old(Logged()), path, NestedReport(cfg, e, maxDepth - depth))
      decreases e, 0
    {
      assert path + [] == path;
      if !e.IsNestedCatalog() {
        return;
      }
      if depth >= maxDepth {
        AddError(CodeNestedDepth, path);
        return;
      }
      if e.data.NoData? {
        return;
      }
      if e.data.decoded.None? {
        AddError(CodeNestedInvalid, path + [Name("data")]);
        return;
      }
      ValidateCatalog(e.data.decoded.value, path + [Name("data")], depth + 1);
    }

    /** What ValidateCatalog checks before the entries. */
    method ValidateCatalogHead(c: AICatalog, path: Path)
      modifies this
      ensures Logged() == Record(old(Logged()), path, CatalogHead(cfg, c))
    {
      Record3(Logged(), path, DocumentForm(cfg, c), CatalogSignature(cfg, c), CatalogExtensions(cfg, c));
      AddErrorIf(!cfg.specVersionOK(c.specVersion), CodeSpecVersion, path, [Name("specVersion")]);
      AddErrorIf(c.host.Some?
          && c.host.value.displayName == "", CodeHostMember, path, [Name("host"), Name("displayName")]);
      if c.signature.Some? {
        ValidateSignature(c.signature.value, CATALOG_JWS_TYPE, path + [Name("signature")]);
      }
      ValidateExtensionKeys(c.extensions, path + [Name("extensions")]);
    }

    method ValidateCatalog(c: AICatalog, path: Path, depth: nat)
      modifies this
      ensures Logged() == Record(old(Logged()), path, CatalogReport(cfg, c, maxDepth - depth))
      decreases c, 0
    {
      ghost var room := maxDepth - depth;
      Record3(Logged(), path, CatalogHead(cfg, c), Uniqueness(c.entries), EntriesReport(cfg, c.entries, room));
      ValidateCatalogHead(c, path);
      ValidateEntryUniqueness(c.entries, path);
      ValidateEntries(c.entries, path, depth);
    }

    /** The loop of ValidateCatalog. */
    method ValidateEntries(es: seq<Entry>, path: Path, depth: nat)
      modifies this
      ensures Logged() == Record(old(Logged()), path, EntriesReport(cfg, es, maxDepth - depth))
      decreases es, 2
    {
      ghost var log, parts := Logged(), EntryParts(cfg, es, maxDepth - depth);
      SeriesStart(log, path, "entries", parts);
      assert |es| == |parts|;
      for i := 0 to |es|
        invariant Logged() == Record(log, path, Series("entries", parts, i))
      {
        SeriesStep(log, path, "entries", parts, i);
        ValidateEntry(es[i], path + [Item("entries", i)], depth);
      }
      assert EntriesReport(cfg, es, maxDepth - depth) == Series("entries", parts, |es|);
    }
  }

  /** The members in which the subject differs from its entry, collected one by one. */
  method FindMismatches(e: Entry, s: Subject) returns (members: seq<string>)
    ensures members == SubjectMismatches(e, s)
  {
    members := [];
    if s.identifier != "" && s.identifier != e.identifier {
      members := members + ["identifier"];
    }
    if s.typ != "" && e.typ != "" && s.typ != e.typ {
      members := members + ["type"];
    }
    if s.digest != "" && e.digest != "" && s.digest != e.digest {
      members := members + ["digest"];
    }
    if s.version != e.version {
      members := members + ["version"];
    }
  }

  /** Validates a document whose catalogs nest at most maxDepth deep. */
  method Validate(c: AICatalog, cfg: Config, maxDepth: int) returns (r: Result)
    ensures r == ResultOf(c, cfg, maxDepth)
  {
    var v := new Validator(cfg, maxDepth);
    v.ValidateCatalog(c, ROOT, 0);
    RecordAppends(Log([], []), ROOT, CatalogReport(cfg, c, maxDepth));
    assert v.errors == Reported(Error, c, cfg, maxDepth) && v.warnings == Reported(Warning, c, cfg, maxDepth);
    var level := if v.errors != [] || c.host.None? then Minimal else Discoverable;
    return Result(v.errors == [], level, v.errors, v.warnings);
  }

  const ROOT: Path := [Name("catalog")]

  function Reported(severity: Severity, c: AICatalog, cfg: Config, maxDepth: int): seq<Diagnostic> {
    Moved(ROOT, Findings(severity, CatalogReport(cfg, c, maxDepth)))
  }

  /** A valid catalog has no errors; with a host it is discoverable. */
  function ResultOf(c: AICatalog, cfg: Config, maxDepth: int): Result {
    var errors := Reported(Error, c, cfg, maxDepth);
    Result(errors == [], if errors == [] && c.host.Some? then Discoverable else Minimal,
           errors, Reported(Warning, c, cfg, maxDepth))
  }

  // ---- lemmas for the methods ----

  /** The tables hold what the first n entries have shown. */
  ghost predicate Remembers(es: seq<Entry>, n: nat, versioned: set<(string, string)>, unversioned: set<string>,
      ids: set<string>)
  {
    && n <= |es|
    && (forall p :: p in versioned <==>
        exists j :: 0 <= j < n && es[j].version != "" && (es[j].identifier, es[j].version) == p)
    && (forall id :: id in unversioned <==> exists j :: 0 <= j < n && es[j].version == "" && es[j].identifier == id)
    && (forall id :: id in ids <==> exists j :: 0 <= j < n && es[j].version != "" && es[j].identifier == id)
  }

  lemma RemembersNext(es: seq<Entry>, i: nat)
    requires i < |es|
    ensures forall v, u, d :: Remembers(es, i, v, u, d) ==>
              if es[i].version != "" then Remembers(es, i + 1, v + {(es[i].identifier, es[i].version)}, u,
                  d + {es[i].identifier})
              else Remembers(es, i + 1, v, u + {es[i].identifier}, d)
  {
  }

  lemma LookupsAgree(es: seq<Entry>, i: nat, v: set<(string, string)>, u: set<string>, d: set<string>)
    requires i < |es| && Remembers(es, i, v, u, d)
    ensures es[i].identifier in u <==> HasPair(es, i, es[i].identifier, "")
    ensures es[i].version != "" ==>
            ((es[i].identifier, es[i].version) in v <==> HasPair(es, i, es[i].identifier, es[i].version))
    ensures es[i].identifier in u || es[i].identifier in d <==> HasID(es, i, es[i].identifier)
  {
  }

  lemma RequiredLast(log: Log, path: Path, code: Code, members: seq<(string, string)>, i: nat)
    requires i < |members|
    ensures Record(log, path, RequiredRules(code, members, i + 1)) ==
            Record(Record(log, path, RequiredRules(code, members, i)), path,
                ErrIf(members[i].1 == "", code, [Name(members[i].0)]))
  {
    var done, one := RequiredRules(code, members, i), ErrIf(members[i].1 == "", code, [Name(members[i].0)]);
    assert RequiredRules(code, members, i + 1) == Both(done, one);
  }

  lemma MismatchStep(log: Log, path: Path, members: seq<string>, i: nat)
    requires i < |members|
    ensures Record(log, path, Mismatches(members, i + 1)) ==
            Record(Record(log, path, Mismatches(members, i)), path,
                Err(CodeSubjectMismatch, [Name("subject"), Name(members[i])]))
  {
    var done, one := Mismatches(members, i), Err(CodeSubjectMismatch, [Name("subject"), Name(members[i])]);
    assert Mismatches(members, i + 1) == Both(done, one);
  }

  lemma KeySourceStep(log: Log, path: Path, header: Header, i: nat)
    requires i < |KEY_SOURCES|
    ensures Record(log, path, KeySources(header, i + 1)) ==
            Record(Record(log, path, KeySources(header, i)), path,
                WarnIf(header.Has(KEY_SOURCES[i]), CodeProfileHeader, [Name("jws")]))
  {
  }
}
