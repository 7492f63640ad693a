/** Diagnostics and where they point. */
module Diagnostics {

  datatype Code =
    | CodeSpecVersion | CodeHostMember | CodeEntryMember | CodeEntryArtifact | CodeEntryDuplicate
    | CodeEntryVersion | CodeIdentifierNotURI | CodeTimestamp | CodePublisherMember | CodeExtensionKey
    | CodeNestedDepth | CodeNestedInvalid | CodeDigestInvalid | CodeEntryDigest | CodePolicyURLs
    | CodeSignatureMember | CodeSignatureSigner | CodeSignatureExpiry | CodeSignatureForm
    | CodeSignatureMalformed | CodeSignatureAlgorithm | CodeSignatureB64 | CodeSignatureType
    | CodeSignatureExpired | CodeSignatureNotYetValid
    | CodeManifestContributor | CodeManifestContributorURI | CodeManifestEmpty | CodeManifestSignedMember
    | CodeManifestSigner | CodeSubjectMember | CodeSubjectMismatch | CodeTrustSchemaMember
    | CodeAttestationMember | CodeProvenanceMember
    | CodeProfileSigner | CodeProfileAlgorithm | CodeProfileKeyID | CodeProfileHeader

  /** One step of a path: ".name" or ".list[index]". */
  datatype Segment = Name(name: string) | Item(list: string, index: nat)

  type Path = seq<Segment>

  datatype Diagnostic = Diagnostic(code: Code, path: Path)

  /** Errors break conformance; warnings advise. */
  datatype Severity = Error | Warning

  /** What a check reports, part by part; paths inside At are relative to its place. */
  datatype Report =
    | Nothing
    | Found(severity: Severity, code: Code, path: Path)
    | Both(first: Report, second: Report)
    | At(place: Path, part: Report)
  {
    function Then(r: Report): Report {
      Both(this, r)
    }
  }

  function Err(code: Code, path: Path): Report {
    Found(Error, code, path)
  }

  function ErrIf(condition: bool, code: Code, path: Path): Report {
    if condition then Found(Error, code, path) else Nothing
  }

  function WarnIf(condition: bool, code: Code, path: Path): Report {
    if condition then Found(Warning, code, path) else Nothing
  }

  /** The reports of the first n parts of a list, each at its place. */
  function Series(list: string, parts: seq<Report>, n: nat): Report
    requires n <= |parts|
  {
    if n == 0 then Nothing else Series(list, parts, n - 1).Then(At([Item(list, n - 1)], parts[n - 1]))
  }

  function Moved(path: Path, ds: seq<Diagnostic>): (r: seq<Diagnostic>)
    ensures |r| == |ds|
    ensures forall i :: 0 <= i < |ds| ==> r[i] == ds[i].(path := path + ds[i].path)
  {
    seq(|ds|, i requires 0 <= i < |ds| => ds[i].(path := path + ds[i].path))
  }

  /** The findings of one severity with their full paths, in the order they were found. */
  function Findings(severity: Severity, r: Report): seq<Diagnostic> {
    match r
    case Nothing => []
    case Found(s, code, path) => if s == severity then [Diagnostic(code, path)] else []
    case Both(a, b) => Findings(severity, a) + Findings(severity, b)
    case At(place, part) => Moved(place, Findings(severity, part))
  }

  /** The two lists a validator accumulates. */
  datatype Log = Log(errors: seq<Diagnostic>, warnings: seq<Diagnostic>)

  /** Appends a report one finding at a time, extending the path on the way down. */
  function Record(log: Log, path: Path, r: Report): Log
    decreases r
  {
    match r
    case Nothing => log
    case Found(Error, code, p) => log.(errors := log.errors + [Diagnostic(code, path + p)])
    case Found(Warning, code, p) => log.(warnings := log.warnings + [Diagnostic(code, path + p)])
    case Both(a, b) => Record(Record(log, path, a), path, b)
    case At(place, part) => Record(log, path + place, part)
  }

  lemma MovedAppend(path: Path, xs: seq<Diagnostic>, ys: seq<Diagnostic>)
    ensures Moved(path, xs + ys) == Moved(path, xs) + Moved(path, ys)
  {
  }

  lemma MovedTwice(p: Path, q: Path, ds: seq<Diagnostic>)
    ensures Moved(p, Moved(q, ds)) == Moved(p + q, ds)
  {
    forall i | 0 <= i < |ds| ensures Moved(p, Moved(q, ds))[i] == Moved(p + q, ds)[i] {
      assert p + (q + ds[i].path) == p + q + ds[i].path;
    }
  }

  /** Recording a report at a path appends its errors and warnings, moved there. */
  lemma {:induction false} RecordAppends(log: Log, path: Path, r: Report)
    ensures Record(log, path, r).errors == log.errors + Moved(path, Findings(Error, r))
    ensures Record(log, path, r).warnings == log.warnings + Moved(path, Findings(Warning, r))
    decreases r
  {
    match r {
      case Both(a, b) =>
        RecordAppends(log, path, a);
        RecordAppends(Record(log, path, a), path, b);
        AppendedTwice(log.errors, path, Findings(Error, a), Findings(Error, b));
        AppendedTwice(log.warnings, path, Findings(Warning, a), Findings(Warning, b));
      case At(place, part) =>
        RecordAppends(log, path + place, part);
        MovedTwice(path, place, Findings(Error, part));
        MovedTwice(path, place, Findings(Warning, part));
      case Found(_, code, place) =>
        assert Moved(path, [Diagnostic(code, place)]) == [Diagnostic(code, path + place)];
        AppendedNone(log, path);
      case Nothing =>
        AppendedNone(log, path);
    }
  }

  lemma AppendedTwice(log: seq<Diagnostic>, path: Path, xs: seq<Diagnostic>, ys: seq<Diagnostic>)
    ensures log + Moved(path, xs + ys) == log + Moved(path, xs) + Moved(path, ys)
  {
    MovedAppend(path, xs, ys);
  }

  lemma AppendedNone(log: Log, path: Path)
    ensures log.errors + Moved(path, []) == log.errors && log.warnings + Moved(path, []) == log.warnings
  {
  }

  lemma Record3(log: Log, path: Path, a: Report, b: Report, c: Report)
    ensures Record(log, path, a.Then(b).Then(c)) == Record(Record(Record(log, path, a), path, b), path, c)
  {
    assert a.Then(b).Then(c) == Both(Both(a, b), c);
    assert Record(log, path, Both(a, b)) == Record(Record(log, path, a), path, b);
  }

  lemma RecordAt(log: Log, path: Path, place: Path, a: Report, b: Report)
    ensures Record(log, path, At(place, a.Then(b))) == Record(Record(log, path + place, a), path + place, b)
  {
    assert Record(log, path + place, Both(a, b)) == Record(Record(log, path + place, a), path + place, b);
  }

  lemma SeriesStart(log: Log, path: Path, list: string, parts: seq<Report>)
    ensures Record(log, path, Series(list, parts, 0)) == log
  {
  }

  lemma SeriesStep(log: Log, path: Path, list: string, parts: seq<Report>, i: nat)
    requires i < |parts|
    ensures Record(log, path, Series(list, parts, i + 1)) ==
            Record(Record(log, path, Series(list, parts, i)), path + [Item(list, i)], parts[i])
  {
    var done, one := Series(list, parts, i), At([Item(list, i)], parts[i]);
    assert Series(list, parts, i + 1) == Both(done, one);
    assert Record(log, path, Both(done, one)) == Record(Record(log, path, done), path, one);
  }

  lemma Record4(log: Log, path: Path, a: Report, b: Report, c: Report, d: Report)
    ensures Record(log, path, a.Then(b).Then(c).Then(d)) ==
            Record(Record(Record(Record(log, path, a), path, b), path, c), path, d)
  {
    Record3(log, path, a, b, c);
  }
}

/** The digest format "algorithm:hex". */
module Digest {
  import opened Json
  import opened Text

  datatype ParsedDigest = ParsedDigest(algorithm: string, hex: string)

  function HexLength(algorithm: string): nat {
    if algorithm == "sha256" then 64 else if algorithm == "sha384" then 96
    else if algorithm == "sha512" then 128 else 0
  }

  predicate HexChar(c: char) {
    '0' <= c <= '9' || 'a' <= c <= 'f' || 'A' <= c <= 'F'
  }

  /** Only SHA-256, SHA-384 and SHA-512 with a value of the right length are accepted. */
  function ParseDigest(value: string): Option<ParsedDigest> {
    var n := Span(value, ":");
    if n == 0 || n >= |value| - 1 then None
    else
      var algorithm, hex := ToLower(value[..n]), value[n + 1..];
      if ':' in hex || HexLength(algorithm) == 0 || |hex| != HexLength(algorithm) ||
         exists i :: 0 <= i < |hex| && !HexChar(hex[i])
      then None
      else Some(ParsedDigest(algorithm, ToLower(hex)))
  }

  lemma LowerHex(hex: string)
    requires forall i :: 0 <= i < |hex| ==> HexChar(hex[i])
    ensures forall i :: 0 <= i < |hex| ==> HexChar(ToLower(hex)[i]) && ToLower(hex)[i] != ':'
    ensures ToLower(ToLower(hex)) == ToLower(hex)
  {
  }

  lemma Algorithms(algorithm: string)
    requires HexLength(algorithm) > 0
    ensures algorithm != "" && ':' !in algorithm && ToLower(algorithm) == algorithm
  {
    assert algorithm in ["sha256", "sha384", "sha512"];
  }

  /** What a digest parses to, written back, parses to the same. */
  lemma DigestIsFixed(value: string)
    requires ParseDigest(value).Some?
    ensures var d := ParseDigest(value).value;
            HexLength(d.algorithm) == |d.hex| && ParseDigest(d.algorithm + ":" + d.hex) == Some(d)
  {
    var n, d := Span(value, ":"), ParseDigest(value).value;
    LowerHex(value[n + 1..]);
    Algorithms(d.algorithm);
    WrittenDigest(d.algorithm, d.hex);
  }

  lemma {:induction false} LowerSpan(s: string)
    ensures Span(ToLower(s), ":") == Span(s, ":")
  {
    var n := Span(s, ":");
    SpanIs(ToLower(s), n);
  }

  lemma SpanIs(s: string, n: nat)
    requires n <= |s| && (forall i :: 0 <= i < n ==> s[i] != ':') && (n < |s| ==> s[n] == ':')
    ensures Span(s, ":") == n
  {
  }

  lemma LowerFacts(s: string)
    ensures ToLower(ToLower(s)) == ToLower(s) && |ToLower(s)| == |s|
    ensures ':' in ToLower(s) <==> ':' in s
    ensures (exists i :: 0 <= i < |ToLower(s)| && !HexChar(ToLower(s)[i])) <==>
            (exists i :: 0 <= i < |s| && !HexChar(s[i]))
  {
    if ':' in s {
      var i :| 0 <= i < |s| && s[i] == ':';
      assert ToLower(s)[i] == ':';
    }
    if i :| 0 <= i < |s| && !HexChar(s[i]) {
      assert !HexChar(ToLower(s)[i]);
    }
  }

  /** Letter case does not matter in a digest. */
  lemma DigestIgnoresCase(value: string)
    ensures ParseDigest(ToLower(value)) == ParseDigest(value)
  {
    var n := Span(value, ":");
    LowerSpan(value);
    if 0 < n < |value| - 1 {
      assert ToLower(value)[..n] == ToLower(value[..n]);
      assert ToLower(value)[n + 1..] == ToLower(value[n + 1..]);
      LowerFacts(value[..n]);
      LowerFacts(value[n + 1..]);
    }
  }

  /** The accepted algorithms and the number of hex digits of each. */
  predicate Accepted(algorithm: string, n: int) {
    (algorithm == "sha256" && n == 64) || (algorithm == "sha384" && n == 96) || (algorithm == "sha512" && n == 128)
  }

  predicate AllHex(s: string) {
    forall c :: c in s ==> '0' <= c <= '9' || 'a' <= c <= 'f' || 'A' <= c <= 'F'
  }

  predicate Spells(value: string, algorithm: string, hex: string) {
    value == algorithm + ":" + hex && Accepted(ToLower(algorithm), |hex|) && AllHex(hex)
  }

  /** A digest is one of three algorithms, in any case, and that many hex digits. */
  lemma DigestIff(value: string, d: ParsedDigest)
    ensures ParseDigest(value) == Some(d) <==>
            exists algorithm, hex ::
              Spells(value, algorithm, hex) && d == ParsedDigest(ToLower(algorithm), ToLower(hex))
  {
    if ParseDigest(value) == Some(d) {
      var n := Span(value, ":");
      var algorithm, hex := value[..n], value[n + 1..];
      assert value == algorithm + ":" + hex;
      forall c | c in hex ensures HexChar(c) {
        var i :| 0 <= i < |hex| && hex[i] == c;
      }
      assert Spells(value, algorithm, hex);
    }
    if algorithm, hex :| Spells(value, algorithm, hex) && d == ParsedDigest(ToLower(algorithm), ToLower(hex)) {
      SpelledDigest(algorithm, hex);
    }
  }

  lemma SpelledDigest(algorithm: string, hex: string)
    requires Accepted(ToLower(algorithm), |hex|) && AllHex(hex)
    ensures ParseDigest(algorithm + ":" + hex) == Some(ParsedDigest(ToLower(algorithm), ToLower(hex)))
  {
    var value, n := algorithm + ":" + hex, |algorithm|;
    Algorithms(ToLower(algorithm));
    forall i | 0 <= i < n ensures value[i] != ':' {
      assert ToLower(algorithm)[i] == LowerChar(algorithm[i]) && ToLower(algorithm)[i] in ToLower(algorithm);
    }
    SpanIs(value, n);
    assert value[..n] == algorithm && value[n + 1..] == hex;
    forall i | 0 <= i < |hex| ensures HexChar(hex[i]) {
      assert hex[i] in hex;
    }
  }

  lemma WrittenDigest(algorithm: string, hex: string)
    requires ':' !in algorithm && algorithm != "" && ToLower(algorithm) == algorithm && HexLength(algorithm) == |hex|
    requires hex != "" && ToLower(hex) == hex && forall i :: 0 <= i < |hex| ==> HexChar(hex[i]) && hex[i] != ':'
    ensures ParseDigest(algorithm + ":" + hex) == Some(ParsedDigest(algorithm, hex))
  {
    var text := algorithm + ":" + hex;
    SpanAppend(algorithm, ":" + hex, ":");
    assert text == algorithm + (":" + hex);
    assert Span(text, ":") == |algorithm| && text[..|algorithm|] == algorithm && text[|algorithm| + 1..] == hex;
  }
}

/** The rules for single objects. Paths are relative to the object. */
module Rules {
  import opened Json
  import opened Text
  import opened Catalog
  import opened Diagnostics
  import opened Digest
  import opened Identity
  import opened Jws

  /** The library functions, and the clock of a validation. */
  datatype Config = Config(
    instant: TimeParser,
    decode: JsonDecoder,
    specVersionOK: string -> bool,
    extensionKeyOK: string -> bool,
    now: int)

  const CATALOG_JWS_TYPE := "ai-catalog+jws"
  const MANIFEST_JWS_TYPE := "ai-catalog-trust-manifest+jws"
  const DID_WEB_PROFILE := "did-web-v1"
  const KEY_SOURCES: seq<string> := ["jku", "jwk", "x5u", "x5c"]
  const POLICY_URLS := "https://ai-catalog.org/extensions/policy-urls"

  // ---- signatures ----

  function Timestamp(cfg: Config, value: string, member: string): Report {
    ErrIf(value != "" && cfg.instant(value).None?, CodeTimestamp, [Name(member)])
  }

  /** The required members, by name, that are empty: of the first n. */
  function RequiredRules(code: Code, members: seq<(string, string)>, n: nat): Report
    requires n <= |members|
  {
    if n == 0 then Nothing
    else RequiredRules(code, members, n - 1).Then(ErrIf(members[n - 1].1 == "", code, [Name(members[n - 1].0)]))
  }

  function ValidityWindow(cfg: Config, s: Signature): Report {
    if s.expiresAt == "" then Nothing
    else
      var issued, expires := cfg.instant(s.issuedAt), cfg.instant(s.expiresAt);
      Timestamp(cfg, s.expiresAt, "expiresAt")
      .Then(ErrIf(issued.Some? && expires.Some?
          && expires.value <= issued.value, CodeSignatureExpiry, [Name("expiresAt")]))
  }

  function JWSForm(cfg: Config, jws: string, typ: string): Report {
    var path := [Name("jws")];
    if jws == "" then Nothing
    else if !Detached(jws) then Err(CodeSignatureForm, path)
    else
      match ParseHeader(jws, cfg.decode)
      case None => Err(CodeSignatureMalformed, path)
      case Some(header) =>
        ErrIf(Forbidden(header.algorithm), CodeSignatureAlgorithm, path)
        .Then(ErrIf(header.Has("b64"), CodeSignatureB64, path))
        .Then(ErrIf(header.typ != typ, CodeSignatureType, path))
  }

  function RequiredMembers(s: Signature): seq<(string, string)> {
    [("signer", s.signer), ("profile", s.profile), ("issuedAt", s.issuedAt), ("jws", s.jws)]
  }

  function SignerAndTimes(cfg: Config, s: Signature): Report {
    ErrIf(s.signer != "" && !IsAbsoluteURI(s.signer), CodeSignatureSigner, [Name("signer")])
    .Then(Timestamp(cfg, s.issuedAt, "issuedAt"))
    .Then(ValidityWindow(cfg, s))
  }

  function SignatureRules(cfg: Config, s: Signature, typ: string): Report {
    RequiredRules(CodeSignatureMember, RequiredMembers(s),
        4).Then(SignerAndTimes(cfg, s)).Then(JWSForm(cfg, s.jws, typ))
  }

  // ---- the did:web signer profile ----

  /** The key id is the signer followed by "#" and a plain fragment. */
  predicate KeyOfSigner(keyID: string, signer: string) {
    var fragment := CutPrefix(keyID, signer + "#");
    fragment.Some? && fragment.value != "" && forall i :: 0 <= i < |fragment.value| ==> fragment.value[i] !in "/?#"
  }

  /** A key of the signer is the signer, "#" and a fragment without separators. */
  lemma KeyOfSignerIff(keyID: string, signer: string)
    ensures KeyOfSigner(keyID, signer) <==>
            exists f :: keyID == signer + "#" + f && f != "" && '/' !in f && '?' !in f && '#' !in f
  {
    if KeyOfSigner(keyID, signer) {
      var f := keyID[|signer + "#"|..];
      assert keyID == signer + "#" + f && f != "";
      assert '/' in "/?#" && '?' in "/?#" && '#' in "/?#";
    }
    if f :| keyID == signer + "#" + f && f != "" && '/' !in f && '?' !in f && '#' !in f {
      assert keyID[|signer + "#"|..] == f;
      forall i | 0 <= i < |f| ensures f[i] !in "/?#" { assert f[i] in f; }
    }
  }

  /** The members that would name a key, of the first n. */
  function KeySources(header: Header, n: nat): Report
    requires n <= |KEY_SOURCES|
  {
    if n == 0 then Nothing
    else KeySources(header, n - 1).Then(WarnIf(header.Has(KEY_SOURCES[n - 1]), CodeProfileHeader, [Name("jws")]))
  }

  function ProfileIdentity(s: Signature, header: Header): Report {
    WarnIf(!RootDIDWeb(s.signer), CodeProfileSigner, [Name("signer")])
    .Then(WarnIf(header.algorithm != ES256 && !Forbidden(header.algorithm), CodeProfileAlgorithm, [Name("jws")]))
    .Then(WarnIf(!KeyOfSigner(header.keyID, s.signer), CodeProfileKeyID, [Name("jws")]))
  }

  function SignerProfile(s: Signature, header: Header): Report {
    ProfileIdentity(s, header).Then(KeySources(header, |KEY_SOURCES|))
  }

  function Current(cfg: Config, s: Signature): Report {
    var issued, expires := cfg.instant(s.issuedAt), cfg.instant(s.expiresAt);
    WarnIf(issued.Some? && issued.value > cfg.now, CodeSignatureNotYetValid, [Name("issuedAt")])
    .Then(WarnIf(expires.Some? && expires.value <= cfg.now, CodeSignatureExpired, [Name("expiresAt")]))
  }

  /** Warnings about a signature that selects the profile. */
  function ProfileRules(cfg: Config, s: Signature): Report {
    if s.profile != DID_WEB_PROFILE || !Detached(s.jws) then Nothing
    else
      match ParseHeader(s.jws, cfg.decode)
      case None => Nothing
      case Some(header) => SignerProfile(s, header).Then(Current(cfg, s))
  }

  // ---- trust manifests ----

  function DigestRules(value: string): Report {
    ErrIf(value != "" && ParseDigest(value).None?, CodeDigestInvalid, [])
  }

  function ExtensionKeys(cfg: Config, extensions: seq<Member>): Report {
    if extensions == [] then Nothing
    else ErrIf(!cfg.extensionKeyOK(extensions[0].name), CodeExtensionKey, []).Then(ExtensionKeys(cfg, extensions[1..]))
  }

  function Contributor(contributor: string): Report {
    if contributor == "" then Err(CodeManifestContributor, [])
    else ErrIf(!IsAbsoluteURI(contributor), CodeManifestContributorURI, [])
  }

  predicate Substantive(m: TrustManifest) {
    m.signature.Some? || m.trustSchema.Some? || m.attestations != [] || m.provenance != [] || m.extensions != []
  }

  function SubjectMembers(s: Subject): seq<(string, string)> {
    [("identifier", s.identifier), ("type", s.typ), ("digest", s.digest)]
  }

  function SubjectRules(subject: Option<Subject>): Report {
    match subject
    case None => Nothing
    case Some(s) =>
      RequiredRules(CodeSubjectMember, SubjectMembers(s), 3).Then(At([Name("digest")], DigestRules(s.digest)))
  }

  /** The members in which the subject differs from the entry it must restate. */
  function SubjectMismatches(e: Entry, s: Subject): seq<string> {
    (if s.identifier != "" && s.identifier != e.identifier then ["identifier"] else []) +
    (if s.typ != "" && e.typ != "" && s.typ != e.typ then ["type"] else []) +
    (if s.digest != "" && e.digest != "" && s.digest != e.digest then ["digest"] else []) +
    (if s.version != e.version then ["version"] else [])
  }

  /** One error for each of the first n members. */
  function Mismatches(members: seq<string>, n: nat): Report
    requires n <= |members|
  {
    if n == 0 then Nothing
    else Mismatches(members, n - 1).Then(Err(CodeSubjectMismatch, [Name("subject"), Name(members[n - 1])]))
  }

  function SubjectBinding(e: Entry, m: TrustManifest): Report {
    match m.subject
    case None => Nothing
    case Some(s) =>
      var members := SubjectMismatches(e, s);
      Mismatches(members, |members|)
  }

  function TrustSchemaRules(schema: Option<TrustSchema>): Report {
    match schema
    case None => Nothing
    case Some(s) =>
      ErrIf(s.identifier == "", CodeTrustSchemaMember, [Name("identifier")])
      .Then(ErrIf(s.version == "", CodeTrustSchemaMember, [Name("version")]))
  }

  function AttestationRules(a: Attestation): Report {
    ErrIf(a.typ == "", CodeAttestationMember, [Name("type")])
    .Then(ErrIf(a.uri == "", CodeAttestationMember, [Name("uri")]))
    .Then(At([Name("digest")], DigestRules(a.digest)))
  }

  function AttestationParts(attestations: seq<Attestation>): seq<Report> {
    seq(|attestations|, i requires 0 <= i < |attestations| => AttestationRules(attestations[i]))
  }

  function ProvenanceRules(l: ProvenanceLink): Report {
    ErrIf(l.relation == "", CodeProvenanceMember, [Name("relation")])
    .Then(ErrIf(l.sourceID == "", CodeProvenanceMember, [Name("sourceId")]))
    .Then(At([Name("sourceDigest")], DigestRules(l.sourceDigest)))
  }

  function ProvenanceParts(provenance: seq<ProvenanceLink>): seq<Report> {
    seq(|provenance|, i requires 0 <= i < |provenance| => ProvenanceRules(provenance[i]))
  }

  /** The rules for the signature of a manifest, and for what it must come with. */
  function SignedManifest(cfg: Config, m: TrustManifest): Report {
    match m.signature
    case None => Nothing
    case Some(s) =>
      ErrIf(m.subject.None?, CodeManifestSignedMember, [Name("subject")])
      .Then(At([Name("signature")], SignatureRules(cfg, s, MANIFEST_JWS_TYPE)))
      .Then(ErrIf(s.signer != "" && s.signer != m.contributor, CodeManifestSigner, [Name("signature"), Name("signer")]))
  }

  function ManifestHead(cfg: Config, m: TrustManifest): Report {
    At([Name("extensions")], ExtensionKeys(cfg, m.extensions))
    .Then(At([Name("contributor")], Contributor(m.contributor)))
    .Then(ErrIf(!Substantive(m), CodeManifestEmpty, []))
  }

  function Evidence(m: TrustManifest): Report {
    Series("attestations", AttestationParts(m.attestations), |m.attestations|)
    .Then(Series("provenance", ProvenanceParts(m.provenance), |m.provenance|))
  }

  function ManifestTail(m: TrustManifest): Report {
    At([Name("subject")], SubjectRules(m.subject))
    .Then(At([Name("trustSchema")], TrustSchemaRules(m.trustSchema)))
    .Then(Evidence(m))
  }

  function TrustManifestRules(cfg: Config, m: TrustManifest): Report {
    ManifestHead(cfg, m).Then(SignedManifest(cfg, m)).Then(ManifestTail(m))
  }

  function ManifestProfile(cfg: Config, m: TrustManifest): Report {
    match m.signature case None => Nothing case Some(s) => At([Name("signature")], ProfileRules(cfg, s))
  }

  /** Everything reported about one manifest of an entry. */
  function ManifestRules(cfg: Config, e: Entry, m: TrustManifest): Report {
    TrustManifestRules(cfg, m).Then(SubjectBinding(e, m)).Then(ManifestProfile(cfg, m))
  }

  function ManifestParts(cfg: Config, e: Entry): seq<Report> {
    seq(|e.manifests|, i requires 0 <= i < |e.manifests| => ManifestRules(cfg, e, e.manifests[i]))
  }

  function ManifestsRules(cfg: Config, e: Entry): Report {
    Series("trustManifests", ManifestParts(cfg, e), |e.manifests|)
  }

  /** One of the first n manifests is signed. */
  predicate HasSigned(ms: seq<TrustManifest>, n: nat)
    requires n <= |ms|
  {
    n > 0 && (HasSigned(ms, n - 1) || ms[n - 1].signature.Some?)
  }

  lemma SignedStep(ms: seq<TrustManifest>, i: nat)
    requires i < |ms|
    ensures HasSigned(ms, i + 1) <==> HasSigned(ms, i) || ms[i].signature.Some?
  {
  }

  function EntryTrustRules(cfg: Config, e: Entry): Report {
    At([Name("digest")], DigestRules(e.digest))
    .Then(ManifestsRules(cfg, e))
    .Then(ErrIf(HasSigned(e.manifests, |e.manifests|) && e.digest == "", CodeEntryDigest, [Name("digest")]))
  }

  // ---- entries and catalogs ----

  function ArtifactSource(e: Entry): Report {
    ErrIf((e.url != "") == e.data.Inline?, CodeEntryArtifact, [])
  }

  function MemberNamed(ms: seq<Member>, name: string): Option<Json> {
    if ms == [] then None else if ms[|ms| - 1].name == name then Some(ms[|ms| - 1].value)
    else MemberNamed(ms[..|ms| - 1], name)
  }

  predicate PolicyURLsOK(value: Json) {
    value.Obj? && forall name :: name in {"privacyPolicyUrl", "termsOfServiceUrl"} ==>
      var member := MemberNamed(value.members, name); member.None? || member.value.Str?
  }

  function PolicyURLs(extensions: seq<Member>): Report {
    match MemberNamed(extensions, POLICY_URLS)
    case None => Nothing
    case Some(value) => ErrIf(!PolicyURLsOK(value), CodePolicyURLs, [])
  }

  function PublisherRules(publisher: Option<PublisherInfo>): Report {
    match publisher
    case None => Nothing
    case Some(p) =>
      ErrIf(p.identifier == "", CodePublisherMember, [Name("identifier")])
      .Then(ErrIf(p.displayName == "", CodePublisherMember, [Name("displayName")]))
  }

  function RequiredEntryFields(e: Entry): Report {
    ErrIf(e.identifier == "", CodeEntryMember, [Name("identifier")])
    .Then(ErrIf(e.typ == "", CodeEntryMember, [Name("type")]))
  }

  function EntryExtensions(cfg: Config, e: Entry): Report {
    At([Name("extensions")], ExtensionKeys(cfg, e.extensions).Then(PolicyURLs(e.extensions)))
  }

  /** The rules for an entry before its trust and nested catalog. */
  function EntryFields(cfg: Config, e: Entry): Report {
    RequiredEntryFields(e).Then(ArtifactSource(e)).Then(Timestamp(cfg, e.updatedAt, "updatedAt"))
    .Then(EntryExtensions(cfg, e)).Then(At([Name("publisher")], PublisherRules(e.publisher)))
  }

  function IdentifierForm(e: Entry): Report {
    WarnIf(e.identifier != "" && ':' !in e.identifier, CodeIdentifierNotURI, [Name("identifier")])
  }

  function SpecVersion(cfg: Config, specVersion: string): Report {
    ErrIf(!cfg.specVersionOK(specVersion), CodeSpecVersion, [Name("specVersion")])
  }

  function Host(host: Option<HostInfo>): Report {
    ErrIf(host.Some? && host.value.displayName == "", CodeHostMember, [Name("host"), Name("displayName")])
  }
}
