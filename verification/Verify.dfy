/** Verification of signatures and artifacts. */
module Verify {
  import opened Json
  import opened Utf8
  import opened Catalog
  import opened Digest
  import opened Identity
  import opened Rules
  import opened Validation
  import opened Payload
  import opened Decoding
  import opened Did
  import opened Jwk
  import J = Jws

  /** A resolved URL: its scheme and its whole text. */
  datatype Location = Location(scheme: string, text: string)

  /** Everything outside: the fetcher, the decoders, hashing and the curve. */
  datatype Env = Env(
    cfg: Config,
    others: OtherMembers,
    fetch: string -> Option<seq<Byte>>,
    parseDid: seq<Byte> -> Option<DidDocument>,
    onCurve: J.Key -> bool,
    check: J.CurveCheck,
    hash: (string, seq<Byte>) -> string,
    resolve: string -> Option<Location>)

  datatype Status = Verified | Failed | Unverifiable

  // ---- the parts of one check ----

  /** The header would name its own key. */
  predicate NamesKey(header: J.Header) {
    exists i :: 0 <= i < |KEY_SOURCES| && header.Has(KEY_SOURCES[i])
  }

  /** The header, if it meets the signer profile. */
  function CheckHeader(cfg: Config, s: Signature, typ: string): Option<J.Header> {
    if !J.Detached(s.jws) then None
    else
      match J.ParseHeader(s.jws, cfg.decode)
      case None => None
      case Some(header) =>
        if header.algorithm != J.ES256 || header.typ != typ then None
        else if NamesKey(header) then None
        else if !RootDIDWeb(s.signer) || !KeyOfSigner(header.keyID, s.signer) then None
        else Some(header)
  }

  predicate CheckTime(cfg: Config, s: Signature) {
    var issued := cfg.instant(s.issuedAt);
    && issued.Some? && issued.value <= cfg.now
    && (s.expiresAt == "" || var expires := cfg.instant(s.expiresAt); expires.Some? && cfg.now < expires.value)
  }

  /** The key of kid in a DID document, if the document gives one. */
  function SignerKey(env: Env, body: seq<Byte>, signer: string, kid: string): Option<J.Key> {
    match env.parseDid(body)
    case None => None
    case Some(d) =>
      match KeyOf(d, signer, kid)
      case None => None
      case Some(jwk) => KeyFrom(jwk, env.onCurve)
  }

  /** The signature over the document's signing payload verifies. */
  predicate SignatureMatches(env: Env, s: Signature, document: Option<Json>, key: J.Key) {
    && document.Some? && Canonicalizable(document.value)
    && J.VerifyES256(s.jws, Encode(SigningPayload(document.value)), key, env.cfg.decode, env.check) == J.Verified
  }

  /** The result once the signer's DID document is fetched. */
  function StatusFromBody(env: Env, s: Signature, document: Option<Json>, kid: string, body: seq<Byte>): Status {
    match SignerKey(env, body, s.signer, kid)
    case None => Failed
    case Some(key) => if SignatureMatches(env, s, document, key) then Verified else Failed
  }

  /** The result of checking a signature over a document as served; None is a
      document that was not served. */
  function SignatureStatus(env: Env, s: Signature, typ: string, document: Option<Json>): Status {
    if s.profile != DID_WEB_PROFILE then Unverifiable
    else
      match CheckHeader(env.cfg, s, typ)
      case None => Failed
      case Some(header) =>
        if !CheckTime(env.cfg, s) || DidDocumentURL(s.signer).None? then Failed
        else
          match env.fetch(DidDocumentURL(s.signer).value)
          case None => Unverifiable
          case Some(body) => StatusFromBody(env, s, document, header.keyID, body)
  }

  /** Entry Release Coverage. */
  function Release(e: Entry, m: TrustManifest, s: Signature): Status {
    if s.signer != m.contributor || e.digest == "" || m.subject.None? then Failed
    else
      var subject := m.subject.value;
      if subject.identifier == "" || subject.typ == "" || subject.digest == "" then Failed
      else if SubjectMismatches(e, subject) != [] then Failed
      else Verified
  }

  predicate VerifyDigest(env: Env, digest: string, content: seq<Byte>) {
    var parsed := ParseDigest(digest);
    parsed.Some? && env.hash(parsed.value.algorithm, content) == parsed.value.hex
  }

  datatype Content = Bytes(bytes: seq<Byte>) | NoBytes(status: Status)

  /** The bytes the entry digest covers: the canonical form of inline data, or the
      document at the entry url. */
  function ArtifactContent(env: Env, e: Entry): Content {
    if e.data.Inline? then
      match Canonicalize(e.data.raw) case Ok(text) => Bytes(Encode(text)) case Uncanonicalizable => NoBytes(Failed)
    else
      match env.resolve(e.url)
      case None => NoBytes(Failed)
      case Some(location) =>
        if location.scheme != HTTPS then NoBytes(Unverifiable)
        else match env.fetch(location.text) case Some(bytes) => Bytes(bytes) case None => NoBytes(Unverifiable)
  }

  function ArtifactStatus(env: Env, e: Entry): Status {
    match ArtifactContent(env, e)
    case NoBytes(status) => status
    case Bytes(bytes) => if VerifyDigest(env, e.digest, bytes) then Verified else Failed
  }

  // ---- the verification of one manifest ----

  /** signature and release are None when the manifest is unsigned. */
  datatype ManifestTrust = ManifestTrust(
    index: nat,
    contributor: string,
    signer: string,
    signature: Option<Status>,
    release: Option<Status>,
    publisher: bool)
  {
    predicate Accepted() {
      signature == Some(Verified) && release == Some(Verified)
    }

    predicate Failing() {
      signature == Some(Failed) || release == Some(Failed)
    }
  }

  function TrustOfManifest(env: Env, e: Entry, m: TrustManifest, i: nat, payload: Option<Json>): ManifestTrust {
    match m.signature
    case None => ManifestTrust(i, m.contributor, "", None, None, false)
    case Some(s) =>
      ManifestTrust(i, m.contributor, s.signer,
                    Some(SignatureStatus(env, s, MANIFEST_JWS_TYPE, payload)),
                    Some(Release(e, m, s)),
                    IsPublisher(e.identifier, s.signer))
  }

  // ---- the verification of one entry ----

  datatype EntryTrust = EntryTrust(
    index: nat,
    identifier: string,
    manifests: seq<ManifestTrust>,
    artifact: Option<Status>,
    publisherEndorsed: bool,
    publisherFailed: bool)

  function PayloadAt(raw: seq<Json>, i: nat): Option<Json> {
    if i < |raw| then Some(raw[i]) else None
  }

  function TrustOfManifests(env: Env, e: Entry, raw: seq<Json>): seq<ManifestTrust> {
    seq(|e.manifests|, i requires 0 <= i < |e.manifests| => TrustOfManifest(env, e, e.manifests[i], i,
        PayloadAt(raw, i)))
  }

  predicate AnyAccepted(ts: seq<ManifestTrust>) {
    exists i :: 0 <= i < |ts| && ts[i].Accepted()
  }

  predicate PublisherAccepted(ts: seq<ManifestTrust>) {
    exists i :: 0 <= i < |ts| && ts[i].publisher && ts[i].Accepted()
  }

  predicate PublisherFailing(ts: seq<ManifestTrust>) {
    exists i :: 0 <= i < |ts| && ts[i].publisher && ts[i].Failing()
  }

  /** The artifact is checked only when a manifest is accepted. */
  function TrustOfEntry(env: Env, i: nat, e: Entry, raw: seq<Json>): EntryTrust {
    var ts := TrustOfManifests(env, e, raw);
    var artifact := if AnyAccepted(ts) then Some(ArtifactStatus(env, e)) else None;
    EntryTrust(i, e.identifier, ts, artifact,
               PublisherAccepted(ts) && artifact == Some(Verified),
               PublisherFailing(ts) || (PublisherAccepted(ts) && artifact == Some(Failed)))
  }

  method VerifyManifest(env: Env, e: Entry, m: TrustManifest, i: nat, payload: Option<Json>) returns (t: ManifestTrust)
    ensures t == TrustOfManifest(env, e, m, i, payload)
  {
    t := ManifestTrust(i, m.contributor, "", None, None, false);
    if m.signature.None? {
      return;
    }
    var s := m.signature.value;
    var status := CheckSignature(env, s, MANIFEST_JWS_TYPE, payload);
    t := t.(signer := s.signer, signature := Some(status), release := Some(Release(e, m, s)),
            publisher := IsPublisher(e.identifier, s.signer));
  }

  /** The checks in their order; the first that does not pass decides. */
  method CheckSignature(env: Env, s: Signature, typ: string, document: Option<Json>) returns (status: Status)
    ensures status == SignatureStatus(env, s, typ, document)
  {
    if s.profile != DID_WEB_PROFILE {
      return Unverifiable;
    }
    var header := CheckHeader(env.cfg, s, typ);
    if header.None? || !CheckTime(env.cfg, s) {
      return Failed;
    }
    var location := DidDocumentURL(s.signer);
    if location.None? {
      return Failed;
    }
    var body := env.fetch(location.value);
    if body.None? {
      return Unverifiable;
    }
    var key := FindKey(env, body.value, s.signer, header.value.keyID);
    if key.None? {
      return Failed;
    }
    var matches := CheckPayload(env, s, document, key.value);
    return if matches then Verified else Failed;
  }

  /** The part of CheckSignature that reads the DID document. */
  method FindKey(env: Env, body: seq<Byte>, signer: string, kid: string) returns (key: Option<J.Key>)
    ensures key == SignerKey(env, body, signer, kid)
  {
    var d := env.parseDid(body);
    if d.None? {
      return None;
    }
    var jwk := SelectKey(d.value, signer, kid);
    if jwk.None? {
      return None;
    }
    key := ParseES256Key(jwk.value, env.onCurve);
  }

  /** The part of CheckSignature that verifies the JWS over the payload. */
  method CheckPayload(env: Env, s: Signature, document: Option<Json>, key: J.Key) returns (matches: bool)
    ensures matches == SignatureMatches(env, s, document, key)
  {
    if document.None? {
      return false;
    }
    var payload := CanonicalizeForSignature(document.value);
    if payload.Uncanonicalizable? {
      return false;
    }
    return J.VerifyES256(s.jws, Encode(payload.value), key, env.cfg.decode, env.check) == J.Verified;
  }

  method VerifyEntry(env: Env, i: nat, e: Entry, raw: seq<Json>) returns (t: EntryTrust)
    ensures t == TrustOfEntry(env, i, e, raw)
  {
    var ts: seq<ManifestTrust> := [];
    for k := 0 to |e.manifests|
      invariant |ts| == k
      invariant forall j :: 0 <= j < k ==> ts[j] == TrustOfManifest(env, e, e.manifests[j], j, PayloadAt(raw, j))
    {
      var payload: Option<Json> := None;
      if k < |raw| {
        payload := Some(raw[k]);
      }
      var m := VerifyManifest(env, e, e.manifests[k], k, payload);
      ts := ts + [m];
    }
    assert ts == TrustOfManifests(env, e, raw);
    var artifact: Option<Status> := None;
    if AnyAccepted(ts) {
      artifact := Some(ArtifactStatus(env, e));
    }
    var accepted := PublisherAccepted(ts);
    t := EntryTrust(i, e.identifier, ts, artifact,
                    accepted && artifact == Some(Verified),
                    PublisherFailing(ts) || (accepted && artifact == Some(Failed)));
  }

  // ---- the verification of a document ----

  datatype Verification = Verification(
    validation: Validation.Result,
    level: Level,
    catalogSignature: Option<Status>,
    catalogAuthorized: bool,
    entries: seq<EntryTrust>)

  function TrustOfEntries(env: Env, d: Served): (r: seq<EntryTrust>)
    requires d.Aligned()
    ensures |r| == |d.c.entries|
    ensures forall i :: 0 <= i < |r| ==> r[i] == TrustOfEntry(env, i, d.c.entries[i], d.manifests[i])
  {
    seq(|d.c.entries|, i requires 0 <= i < |d.c.entries| => TrustOfEntry(env, i, d.c.entries[i], d.manifests[i]))
  }

  predicate Endorses(ts: seq<EntryTrust>) {
    exists i :: 0 <= i < |ts| && ts[i].publisherEndorsed
  }

  predicate Fails(ts: seq<EntryTrust>) {
    exists i :: 0 <= i < |ts| && ts[i].publisherFailed
  }

  function CatalogSignatureStatus(env: Env, d: Served): Option<Status> {
    match d.c.signature case None => None
        case Some(s) => Some(SignatureStatus(env, s, CATALOG_JWS_TYPE, Some(d.document)))
  }

  function VerificationOf(env: Env, d: Served, maxDepth: int, operators: seq<string>): Verification
    requires d.Aligned()
  {
    var validation, entries, status := ResultOf(d.c, env.cfg, maxDepth), TrustOfEntries(env, d),
        CatalogSignatureStatus(env, d);
    Verification(
      validation,
      if Endorses(entries) && !Fails(entries) && validation.level != Minimal then Trusted else validation.level,
      status,
      status == Some(Verified) && d.c.signature.value.signer in operators,
      entries)
  }

  /** Decodes the document, for the catalog and for its raw manifests, and verifies it;
      None when it does not decode. */
  method VerifyDocument(env: Env, document: Json, maxDepth: int, operators: seq<string>)
      returns (r: Option<Verification>)
    ensures r.None? <==> Serve(env.others, document).None?
    ensures r.Some? ==> r.value == VerificationOf(env, Serve(env.others, document).value, maxDepth, operators)
  {
    var served := Serve(env.others, document);
    if served.None? {
      return None;
    }
    var v := VerifyServed(env, served.value, maxDepth, operators);
    return Some(v);
  }

  /** The part of VerifyDocument after decoding. */
  method VerifyServed(env: Env, d: Served, maxDepth: int, operators: seq<string>) returns (v: Verification)
    requires d.Aligned()
    ensures v == VerificationOf(env, d, maxDepth, operators)
  {
    var validation := Validate(d.c, env.cfg, maxDepth);
    v := Verification(validation, validation.level, None, false, []);
    if d.c.signature.Some? {
      var s := d.c.signature.value;
      var status := CheckSignature(env, s, CATALOG_JWS_TYPE, Some(d.document));
      v := v.(catalogSignature := Some(status), catalogAuthorized := status == Verified && s.signer in operators);
    }
    var entries := VerifyEntries(env, d);
    v := v.(entries := entries);
    if Endorses(entries) && !Fails(entries) && validation.level != Minimal {
      v := v.(level := Trusted);
    }
  }

  /** The loop of VerifyServed. */
  method VerifyEntries(env: Env, d: Served) returns (entries: seq<EntryTrust>)
    requires d.Aligned()
    ensures entries == TrustOfEntries(env, d)
  {
    entries := [];
    for i := 0 to |d.c.entries|
      invariant |entries| == i
      invariant forall j :: 0 <= j < i ==> entries[j] == TrustOfEntry(env, j, d.c.entries[j], d.manifests[j])
    {
      var t := VerifyEntry(env, i, d.c.entries[i], d.manifests[i]);
      entries := entries + [t];
    }
  }
}
