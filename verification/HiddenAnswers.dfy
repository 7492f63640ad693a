/** A document that is Trusted only while an address does not answer: two entries, the
    first endorsed by its publisher, the second with a manifest of its own publisher
    whose address answers with something that is no DID document. */
module HiddenAnswers {
  import opened Json
  import opened JsonText
  import opened Text
  import opened Utf8
  import opened Base64Url
  import opened Catalog
  import opened Diagnostics
  import opened ReportLaws
  import opened CatalogRules
  import opened ValidCatalogs
  import ValidLaws
  import StatusLaws
  import opened Decoding
  import opened ReadingLaws
  import opened DecodingLaws
  import opened MergeLaws
  import opened Digest
  import opened Identity
  import opened Jwk
  import opened Payload
  import opened Rules
  import opened Validation
  import opened Verify
  import opened VerifyLaws
  import opened TrustLaws
  import opened StabilityLaws
  import Gates
  import J = Jws
  import JwsLaws

  const SHA256 := "sha256"

  /** An inline artifact, what it decodes to, and the signature of its publisher over one manifest. */
  datatype Offer = Offer(
    publisher: string,
    kind: string,
    data: Json,
    decoded: Option<AICatalog>,
    hex: string,
    issuedAt: string,
    signature: seq<Byte>)
  {
    function Digest(): string {
      SHA256 + ":" + hex
    }

    function Identifier(): string {
      URN_AIR + publisher
    }

    function Signer(): string {
      DID(publisher)
    }

    function KeyID(): string {
      DID(publisher) + "#" + "k"
    }

    function HeaderMembers(): seq<Member> {
      [Member("alg", Str(J.ES256)), Member("kid", Str(KeyID())), Member("typ", Str(MANIFEST_JWS_TYPE))]
    }

    /** The JSON text of the header. */
    function HeaderBytes(): seq<Byte> {
      Encode(Write(Canon(Obj(HeaderMembers()))))
    }

    function JWS(): string {
      EncodeBytes(HeaderBytes()) + (".." + EncodeBytes(signature))
    }

    function Signature(): Catalog.Signature {
      Catalog.Signature(Signer(), DID_WEB_PROFILE, issuedAt, "", JWS())
    }

    function Subject(): Catalog.Subject {
      Catalog.Subject(Identifier(), "", kind, Digest())
    }

    function Manifest(): TrustManifest {
      TrustManifest(Signer(), Some(Subject()), Some(Signature()), None, [], [], [])
    }

    function Entry(): Catalog.Entry {
      Catalog.Entry(Identifier(), kind, "", Inline(data, decoded), "", None, Digest(), [Manifest()], "", [])
    }

    /** The manifest as it is served. */
    function ManifestJson(): Json {
      Obj(ManifestObject(Signer(), Obj(SubjectObject(Identifier(), kind, Digest())),
                         Obj(SignatureObject(Signer(), DID_WEB_PROFILE, issuedAt, JWS()))))
    }

    function EntryJson(): Json {
      Obj(EntryObject(Identifier(), kind, data, Digest(), ManifestJson()))
    }
  }

  function SignatureObject(signer: string, profile: string, issuedAt: string, jws: string): seq<Member> {
    [Member("signer", Str(signer)), Member("profile", Str(profile)), Member("issuedAt", Str(issuedAt)),
     Member("jws", Str(jws))]
  }

  function ManifestObject(contributor: string, subject: Json, signature: Json): seq<Member> {
    [Member("contributor", Str(contributor)), Member("subject", subject), Member("signature", signature)]
  }

  function EntryObject(identifier: string, kind: string, data: Json, digest: string, manifest: Json): seq<Member> {
    [Member("identifier", Str(identifier)), Member("type", Str(kind)), Member("data", data),
     Member("digest", Str(digest)), Member("trustManifests", Arr([manifest]))]
  }

  function DocumentObject(version: string, host: string, entry: Json, other: Json): seq<Member> {
    [Member("specVersion", Str(version)), Member("host", Obj([Member("displayName", Str(host))])),
     Member("entries", Arr([entry, other]))]
  }

  function TwoEntries(version: string, host: string, a: Offer, b: Offer): AICatalog {
    AICatalog(version, Some(HostInfo(host)), None, [a.Entry(), b.Entry()], [])
  }

  function Document(version: string, host: string, a: Offer, b: Offer): Json {
    Obj(DocumentObject(version, host, a.EntryJson(), b.EntryJson()))
  }

  function TwoServed(version: string, host: string, a: Offer, b: Offer): Served {
    Served(TwoEntries(version, host, a, b), Document(version, host, a, b), [[a.ManifestJson()], [b.ManifestJson()]])
  }

  // ---- what is taken for granted of the library functions ----

  /** The decoder reads the header's text as its members, the time is one, the digest is
      that of the data. */
  predicate Offered(env: Env, o: Offer) {
    && ValidPublisher(o.publisher) && o.kind != "" && o.kind != MEDIA_TYPE_CATALOG && |o.signature| == 64
    && env.cfg.decode(o.HeaderBytes()) == Some(Obj(o.HeaderMembers()))
    && env.cfg.instant(o.issuedAt).Some? && env.cfg.instant(o.issuedAt).value <= env.cfg.now
    && env.cfg.instant("").None?
    && Canonicalizable(o.data) && env.hash(SHA256, Encode(Write(Canon(o.data)))) == o.hex
    && ParseDigest(o.Digest()) == Some(ParsedDigest(SHA256, o.hex))
  }

  /** The body gives the offer's key, and the signature is by that key. */
  predicate SignedBy(env: Env, o: Offer, body: seq<Byte>, key: J.Key) {
    && SignerKey(env, body, o.Signer(), o.KeyID()) == Some(key)
    && env.check(key, J.SigningInput(EncodeBytes(o.HeaderBytes()), Encode(SigningPayload(o.ManifestJson()))),
                 o.signature)
  }

  function Address(o: Offer): string {
    "https://" + o.publisher + "/.well-known/did.json"
  }

  // ---- the header ----

  lemma ValidName(o: Offer)
    requires ValidPublisher(o.publisher)
    ensures RootDIDWeb(o.Signer()) && IsPublisher(o.Identifier(), o.Signer())
    ensures DidDocumentURL(o.Signer()) == Some(Address(o))
  {
    RootOfPublisher(o.publisher);
    PublisherNamed(o.publisher, "");
  }

  lemma Encoded(b: seq<Byte>)
    requires b != []
    ensures EncodeBytes(b) != "" && '.' !in EncodeBytes(b) && DecodeText(EncodeBytes(b)) == Some(b)
  {
    DecodeEncode(b);
    assert DecodeText("") == Some([]);
  }

  lemma ThreeFields(a: Member, b: Member, c: Member)
    requires a.name != b.name && a.name != c.name && b.name != c.name
    ensures DistinctNames([a, b, c])
    ensures ToMap([a, b, c]) == map[a.name := a.value, b.name := b.value, c.name := c.value]
  {
    MapSnoc([], a);
    MapSnoc([a], b);
    MapSnoc([a, b], c);
    assert [] + [a] == [a] && [a] + [b] == [a, b] && [a, b] + [c] == [a, b, c];
  }

  lemma HeaderFields(kid: string)
    ensures var ms := [Member("alg", Str(J.ES256)), Member("kid", Str(kid)), Member("typ", Str(MANIFEST_JWS_TYPE))];
            && DistinctNames(ms)
            && ToMap(ms) == map["alg" := Str(J.ES256), "kid" := Str(kid), "typ" := Str(MANIFEST_JWS_TYPE)]
  {
    assert "alg"[0] == 'a' && "kid"[0] == 'k' && "typ"[0] == 't';
    ThreeFields(Member("alg", Str(J.ES256)), Member("kid", Str(kid)), Member("typ", Str(MANIFEST_JWS_TYPE)));
  }

  function HeaderFor(kid: string): J.Header {
    J.Header(J.ES256, kid, MANIFEST_JWS_TYPE, {"alg", "kid", "typ"})
  }

  lemma HeaderRead(o: Offer)
    ensures J.HeaderOf(Obj(o.HeaderMembers())) == Some(HeaderFor(o.KeyID()))
  {
    HeaderFields(o.KeyID());
    HeaderOfFields(ToMap(o.HeaderMembers()), o.KeyID());
  }

  lemma HeaderOfFields(fields: map<string, Json>, kid: string)
    requires fields == map["alg" := Str(J.ES256), "kid" := Str(kid), "typ" := Str(MANIFEST_JWS_TYPE)]
    ensures J.StringMember(fields, "alg") == Some(J.ES256) && J.StringMember(fields, "kid") == Some(kid)
    ensures J.StringMember(fields, "typ") == Some(MANIFEST_JWS_TYPE) && fields.Keys == {"alg", "kid", "typ"}
  {
  }

  lemma HeaderIsText(o: Offer)
    ensures o.HeaderBytes() != []
  {
    WrittenStart(o.HeaderMembers()[0], o.HeaderMembers());
  }

  /** The text of an object with members is not empty. */
  lemma WrittenStart(m: Member, ms: seq<Member>)
    requires m in ms
    ensures Encode(Write(Canon(Obj(ms)))) != []
  {
    var text := Write(Canon(Obj(ms)));
    SortKeepsMembers(CanonMembers(ms), CanonMembers(ms)[0]);
    assert text[0] == '{';
    if Encode(text) == [] {
      EncodeIsInjective(text, "");
    }
  }

  function HeaderText(o: Offer): string {
    EncodeBytes(o.HeaderBytes())
  }

  function SignatureText(o: Offer): string {
    EncodeBytes(o.signature)
  }

  lemma TextsOf(env: Env, o: Offer)
    requires Offered(env, o)
    ensures JwsLaws.TwoParts(o.JWS(), HeaderText(o), SignatureText(o)) && HeaderText(o) != "" && SignatureText(o) != ""
    ensures DecodeText(HeaderText(o)) == Some(o.HeaderBytes()) && DecodeText(SignatureText(o)) == Some(o.signature)
    ensures J.ParseHeader(HeaderText(o), env.cfg.decode) == Some(HeaderFor(o.KeyID()))
  {
    HeaderIsText(o);
    Encoded(o.HeaderBytes());
    Encoded(o.signature);
    HeaderRead(o);
    JwsLaws.WholeHeader(HeaderText(o), env.cfg.decode);
  }

  lemma Others(name: string)
    requires name != "" && name[0] !in "akt"
    ensures name !in {"alg", "kid", "typ"}
  {
    assert "alg"[0] == 'a' && "kid"[0] == 'k' && "typ"[0] == 't';
  }

  lemma OtherNames(kid: string)
    ensures var ms := HeaderFor(kid).members;
            && "b64" !in ms && "crit" !in ms && "jku" !in ms && "jwk" !in ms && "x5u" !in ms && "x5c" !in ms
  {
    Others("b64");
    Others("crit");
    Others("jku");
    Others("jwk");
    Others("x5u");
    Others("x5c");
  }

  lemma HeaderInProfile(kid: string, signer: string)
    requires kid == signer + "#" + "k"
    ensures StatusLaws.ProfileHeader(HeaderFor(kid), signer, MANIFEST_JWS_TYPE)
  {
    OtherNames(kid);
    assert "k" != "" && '/' !in "k" && '?' !in "k" && '#' !in "k";
  }

  lemma OfferInProfile(env: Env, o: Offer)
    requires Offered(env, o)
    ensures StatusLaws.InProfile(env.cfg, o.Signature(), MANIFEST_JWS_TYPE, o.publisher, HeaderText(o),
                                 SignatureText(o))
  {
    TextsOf(env, o);
    HeaderInProfile(o.KeyID(), o.Signer());
  }

  // ---- both entries are valid ----

  lemma FormIsValid(cfg: Config, jws: string, text: string, sig: string, kid: string)
    requires JwsLaws.TwoParts(jws, text, sig) && text != "" && sig != ""
    requires J.ParseHeader(text, cfg.decode) == Some(HeaderFor(kid))
    ensures JwsValid(cfg, jws, MANIFEST_JWS_TYPE, text, sig)
  {
    OtherNames(kid);
    Gates.ES256IsAllowed();
  }

  lemma WellFormed(cfg: Config, s: Signature, text: string, sig: string)
    requires s.signer != "" && s.profile != "" && s.issuedAt != "" && s.jws != "" && IsAbsoluteURI(s.signer)
    requires cfg.instant(s.issuedAt).Some? && s.expiresAt == ""
    requires JwsValid(cfg, s.jws, MANIFEST_JWS_TYPE, text, sig)
    ensures SignatureValid(cfg, s, MANIFEST_JWS_TYPE)
  {
  }

  lemma SignatureIsValid(env: Env, o: Offer)
    requires Offered(env, o)
    ensures SignatureValid(env.cfg, o.Signature(), MANIFEST_JWS_TYPE)
  {
    ValidName(o);
    RootIsAbsolute(o.Signer());
    TextsOf(env, o);
    FormIsValid(env.cfg, o.JWS(), HeaderText(o), SignatureText(o), o.KeyID());
    FormIsText(o);
    WellFormed(env.cfg, o.Signature(), HeaderText(o), SignatureText(o));
  }

  lemma FormIsText(o: Offer)
    ensures o.JWS() != "" && o.Signer() != "" && o.Signature().signer == o.Signer() && o.Signature().jws == o.JWS()
    ensures o.Signature().issuedAt == o.issuedAt && o.Signature().expiresAt == "" && o.Signature().profile != ""
  {
  }

  lemma OfferParts(o: Offer)
    ensures o.Entry().manifests == [o.Manifest()] && o.Manifest().signature == Some(o.Signature())
    ensures o.Entry().identifier == o.Identifier() != "" && o.Entry().typ == o.kind && o.Entry().digest == o.Digest()
    ensures o.Manifest().subject == Some(o.Subject()) && o.Manifest().contributor == o.Signer() == o.Signature().signer
  {
  }

  lemma DigestIsValid(env: Env, o: Offer)
    requires Offered(env, o)
    ensures DigestValid(o.Digest()) && o.Digest() != ""
  {
    DigestIff(o.Digest(), ParsedDigest(SHA256, o.hex));
  }

  lemma ManifestIsValid(env: Env, o: Offer)
    requires Offered(env, o)
    ensures ManifestValid(env.cfg, o.Entry(), o.Manifest())
  {
    OfferParts(o);
    DigestIsValid(env, o);
    ValidName(o);
    RootIsAbsolute(o.Signer());
    SignatureIsValid(env, o);
    assert SubjectValid(o.Entry(), o.Subject());
  }

  lemma EntryIsValid(env: Env, o: Offer, room: int)
    requires Offered(env, o)
    ensures EntryValid(env.cfg, o.Entry(), room)
  {
    OfferParts(o);
    DigestIsValid(env, o);
    ManifestIsValid(env, o);
    TrustIsValid(env.cfg, o.Entry(), o.Manifest());
    assert FieldsValid(env.cfg, o.Entry());
  }

  lemma TrustIsValid(cfg: Config, e: Entry, m: TrustManifest)
    requires e.manifests == [m] && ManifestValid(cfg, e, m) && DigestValid(e.digest) && e.digest != ""
    ensures TrustValid(cfg, e)
  {
  }

  lemma DocumentIsValid(env: Env, version: string, host: string, a: Offer, b: Offer, maxDepth: int)
    requires Offered(env, a) && Offered(env, b) && a.publisher != b.publisher
    requires env.cfg.specVersionOK(version) && host != ""
    ensures ResultOf(TwoEntries(version, host, a, b), env.cfg, maxDepth).isValid
  {
    var c := TwoEntries(version, host, a, b);
    EntryIsValid(env, a, maxDepth);
    EntryIsValid(env, b, maxDepth);
    OfferParts(a);
    OfferParts(b);
    assert a.Identifier()[|URN_AIR|..] == a.publisher && b.Identifier()[|URN_AIR|..] == b.publisher;
    TwoAreValid(env.cfg, c, a.Entry(), b.Entry(), maxDepth);
    ValidLaws.ValidIff(c, env.cfg, maxDepth);
  }

  lemma TwoAreValid(cfg: Config, c: AICatalog, e: Entry, f: Entry, room: int)
    requires c.entries == [e, f] && e.identifier != f.identifier && HeadValid(cfg, c)
    requires EntryValid(cfg, e, room) && EntryValid(cfg, f, room)
    ensures CatalogValid(cfg, c, room)
  {
    forall i | 0 <= i < |c.entries| ensures EntryValid(cfg, c.entries[i], room) {
      assert c.entries[i] == if i == 0 then e else f;
    }
  }

  // ---- the document decodes to the catalog ----

  lemma FourMembers<S>(step: Step<S>, prior: S, a: Member, b: Member, c: Member, d: Member)
    ensures Members(step, prior, [a, b, c, d]) == Then(Then(Then(step(prior, a), step, b), step, c), step, d)
  {
    ThreeMembers(step, prior, a, b, c);
    assert [a, b, c, d][..3] == [a, b, c];
  }

  lemma SignatureNames()
    ensures Fold("signer") == "signer" && Fold("profile") == "profile" && Fold("jws") == "jws"
    ensures Fold("issuedAt") == "issuedat" && Fold("signature") == "signature"
  {
    LowerFold("signer");
    LowerFold("profile");
    LowerFold("jws");
    LowerFold("signature");
  }

  lemma SignatureRead(signer: string, profile: string, issuedAt: string, jws: string)
    ensures Members(SignatureMember, NO_SIGNATURE, SignatureObject(signer, profile, issuedAt, jws)) ==
            Some(Signature(signer, profile, issuedAt, "", jws))
  {
    var ms := SignatureObject(signer, profile, issuedAt, jws);
    SignatureNames();
    FourMembers(SignatureMember, NO_SIGNATURE, ms[0], ms[1], ms[2], ms[3]);
    assert ms == [ms[0], ms[1], ms[2], ms[3]];
    var one := NO_SIGNATURE.(signer := signer);
    var two := one.(profile := profile);
    var three := two.(issuedAt := issuedAt);
    assert SignatureMember(NO_SIGNATURE, ms[0]) == Some(one);
    assert SignatureMember(one, ms[1]) == Some(two);
    assert SignatureMember(two, ms[2]) == Some(three);
    assert SignatureMember(three, ms[3]) == Some(three.(jws := jws));
  }

  lemma ManifestRead(contributor: string, xs: seq<Member>, subject: Subject, ys: seq<Member>, signature: Signature)
    requires Members(SubjectMember, NO_SUBJECT, xs) == Some(subject)
    requires Members(SignatureMember, NO_SIGNATURE, ys) == Some(signature)
    ensures ReadStatement(Obj(ManifestObject(contributor, Obj(xs), Obj(ys)))) ==
            Some(Statement(contributor, Some(subject), Some(signature)))
  {
    var ms := ManifestObject(contributor, Obj(xs), Obj(ys));
    StatementNames();
    SignatureNames();
    ThreeMembers(StatementMember, UNSTATED, ms[0], ms[1], ms[2]);
    assert ms == [ms[0], ms[1], ms[2]];
    var one := UNSTATED.(contributor := contributor);
    var two := one.(subject := Some(subject));
    assert StatementMember(UNSTATED, ms[0]) == Some(one);
    assert StatementMember(one, ms[1]) == Some(two);
    assert StatementMember(two, ms[2]) == Some(two.(signature := Some(signature)));
  }

  function ViewOf(o: Offer): EntryView {
    EntryView(Slice([StatementOf(o.Manifest())], []), [o.ManifestJson()])
  }

  /** Members of names that are longer or shorter than the field's pass it by. */
  lemma OtherLength(ms: seq<Member>, field: string)
    requires forall i :: 0 <= i < |ms| ==> |ms[i].name| != |field|
    ensures !Gives(ms, field)
  {
    forall i | 0 <= i < |ms| ensures !Meets(ms[i], field) {
      assert |Fold(ms[i].name)| == |ms[i].name|;
    }
  }

  lemma LastAlone<S>(step: Step<S>, prior: S, ms: seq<Member>, field: string)
    requires ms != [] && forall i :: 0 <= i < |ms| - 1 ==> |ms[i].name| != |field|
    requires forall s, m :: !Meets(m, field) ==> step(s, m) == Some(s)
    ensures Members(step, prior, ms) == step(prior, ms[|ms| - 1])
  {
    OtherLength(ms[..|ms| - 1], field);
    Untouched(step, prior, ms[..|ms| - 1], field);
  }

  lemma EntryRead(identifier: string, kind: string, data: Json, digest: string, manifest: Json, st: Statement)
    requires ReadStatement(manifest) == Some(st)
    ensures ReadEntry(NO_ENTRY, Obj(EntryObject(identifier, kind, data, digest, manifest))) ==
            Some(EntryView(Slice([st], []), [manifest]))
  {
    var ms := EntryObject(identifier, kind, data, digest, manifest);
    ListNames();
    assert |ms[0].name| == 10 && |ms[1].name| == |ms[2].name| == 4 && |ms[3].name| == 6 && |TRUST_MANIFESTS| == 14;
    ListRead(NO_ENTRY, ms[4], manifest, st);
    LastAlone(EntryMember, NO_ENTRY, ms, TRUST_MANIFESTS);
  }

  lemma EntryDecoded(o: Offer)
    ensures ReadEntry(NO_ENTRY, o.EntryJson()) == Some(ViewOf(o))
  {
    SubjectInto(NO_SUBJECT, o.Identifier(), o.kind, o.Digest());
    SignatureRead(o.Signer(), DID_WEB_PROFILE, o.issuedAt, o.JWS());
    ManifestRead(o.Signer(), SubjectObject(o.Identifier(), o.kind, o.Digest()), o.Subject(),
        SignatureObject(o.Signer(), DID_WEB_PROFILE, o.issuedAt, o.JWS()), o.Signature());
    EntryRead(o.Identifier(), o.kind, o.data, o.Digest(), o.ManifestJson(), StatementOf(o.Manifest()));
  }

  lemma TwoItems<T>(read: Reader<T>, zero: T, a: Json, b: Json, x: T, y: T)
    requires read(zero, a) == Some(x) && read(zero, b) == Some(y)
    ensures Items(read, zero, [], [a, b]) == Some([x, y])
  {
    OneItem(read, zero, [], a);
    assert [a, b][..1] == [a] && [x] + [y] == [x, y];
  }

  lemma DocumentRead(version: string, host: string, entry: Json, other: Json, v: EntryView, w: EntryView)
    requires ReadEntry(NO_ENTRY, entry) == Some(v) && ReadEntry(NO_ENTRY, other) == Some(w)
    ensures ReadEntries(Obj(DocumentObject(version, host, entry, other))) == Some([v, w])
  {
    var none: Slice<EntryView> := Slice([], []);
    var ms := DocumentObject(version, host, entry, other);
    assert none.Room() == [];
    TwoItems(ReadEntry, NO_ENTRY, entry, other, v, w);
    StatementNames();
    LastAlone(DocumentMember, none, ms, ENTRIES);
  }

  lemma DocumentDecoded(version: string, host: string, a: Offer, b: Offer)
    ensures ReadEntries(Document(version, host, a, b)) == Some([ViewOf(a), ViewOf(b)])
  {
    EntryDecoded(a);
    EntryDecoded(b);
    DocumentRead(version, host, a.EntryJson(), b.EntryJson(), ViewOf(a), ViewOf(b));
  }

  lemma TwoDecoded(d: Served, e: Entry, f: Entry, v: EntryView, w: EntryView)
    requires ReadEntries(d.document) == Some([v, w]) && d.c.entries == [e, f] && d.manifests == [v.raw, w.raw]
    requires States(e, v) && States(f, w)
    ensures d.Decoded()
  {
  }

  /** A decoder whose other members are those of the catalog serves it. */
  lemma IsServed(others: OtherMembers, d: Served)
    requires d.Decoded() && others(d.document) == Some(d.c)
    ensures Serve(others, d.document) == Some(d)
  {
    var vs := ReadEntries(d.document).value;
    forall i | 0 <= i < |vs| ensures WithStatements(d.c.entries[i], vs[i]) == d.c.entries[i] {
      SameManifests(d.c.entries[i], vs[i]);
    }
    var served := ParseCatalog(others, d.document).value;
    assert served.entries == d.c.entries;
    assert Raws(vs) == d.manifests;
  }

  lemma SameManifests(e: Entry, v: EntryView)
    requires States(e, v)
    ensures WithStatements(e, v) == e
  {
    var same := WithStatements(e, v).manifests;
    forall k | 0 <= k < |same| ensures same[k] == e.manifests[k] {
      assert StatementOf(e.manifests[k]) == v.manifests.items[k];
    }
    assert same == e.manifests;
  }

  lemma TwoAreServed(env: Env, version: string, host: string, a: Offer, b: Offer)
    requires env.others(Document(version, host, a, b)) == Some(TwoEntries(version, host, a, b))
    ensures TwoServed(version, host, a, b).Decoded()
    ensures Serve(env.others, Document(version, host, a, b)) == Some(TwoServed(version, host, a, b))
  {
    DocumentDecoded(version, host, a, b);
    TwoDecoded(TwoServed(version, host, a, b), a.Entry(), b.Entry(), ViewOf(a), ViewOf(b));
    IsServed(env.others, TwoServed(version, host, a, b));
  }

  // ---- what verifies ----

  lemma SignatureIsUnique(signer: string, profile: string, issuedAt: string, jws: string)
    ensures UniqueNamed(Obj(SignatureObject(signer, profile, issuedAt, jws)))
  {
    DistinctLengths(SignatureObject(signer, profile, issuedAt, jws));
  }

  lemma ManifestIsUnique(contributor: string, subject: Json, signature: Json)
    requires UniqueNamed(subject) && UniqueNamed(signature)
    ensures UniqueNamed(Obj(ManifestObject(contributor, subject, signature)))
  {
    DistinctLengths(ManifestObject(contributor, subject, signature));
  }

  lemma ServedIsUnique(o: Offer)
    ensures UniqueNamed(o.ManifestJson())
  {
    SubjectIsUnique(o.Identifier(), o.kind, o.Digest());
    SignatureIsUnique(o.Signer(), DID_WEB_PROFILE, o.issuedAt, o.JWS());
    ManifestIsUnique(o.Signer(), Obj(SubjectObject(o.Identifier(), o.kind, o.Digest())),
        Obj(SignatureObject(o.Signer(), DID_WEB_PROFILE, o.issuedAt, o.JWS())));
  }

  function StatusOf(env: Env, o: Offer): Status {
    SignatureStatus(env, o.Signature(), MANIFEST_JWS_TYPE, Some(o.ManifestJson()))
  }

  lemma TextsVerify(text: string, sig: string, bytes: seq<Byte>, raw: seq<Byte>, doc: Json, kid: string,
      payload: seq<Byte>, key: J.Key, decode: J.JsonDecoder, check: J.CurveCheck)
    requires DecodeText(text) == Some(bytes) && DecodeText(sig) == Some(raw) && |raw| == 64
    requires decode(bytes) == Some(doc) && J.HeaderOf(doc) == Some(HeaderFor(kid))
    requires check(key, J.SigningInput(text, payload), raw)
    ensures JwsLaws.Verifies(text, sig, payload, key, decode, check)
  {
    OtherNames(kid);
  }

  lemma OfferVerifies(env: Env, o: Offer, body: seq<Byte>, key: J.Key)
    requires Offered(env, o) && SignedBy(env, o, body, key)
    ensures JwsLaws.Verifies(HeaderText(o), SignatureText(o), Encode(SigningPayload(o.ManifestJson())), key,
                             env.cfg.decode, env.check)
  {
    TextsOf(env, o);
    HeaderRead(o);
    TextsVerify(HeaderText(o), SignatureText(o), o.HeaderBytes(), o.signature, Obj(o.HeaderMembers()), o.KeyID(),
        Encode(SigningPayload(o.ManifestJson())), key, env.cfg.decode, env.check);
  }

  lemma StatusVerified(env: Env, o: Offer, body: seq<Byte>, key: J.Key)
    requires Offered(env, o) && SignedBy(env, o, body, key) && env.fetch(Address(o)) == Some(body)
    ensures StatusOf(env, o) == Verified
  {
    ServedIsUnique(o);
    OfferInProfile(env, o);
    TextsOf(env, o);
    OfferVerifies(env, o, body, key);
    StatusLaws.PublishedIsFound(env, o.publisher, o.KeyID(), key, body);
    StatusLaws.PartsVerified(env, o.Signature(), MANIFEST_JWS_TYPE, o.ManifestJson(), o.publisher, key, HeaderText(o),
        SignatureText(o));
  }

  /** The status of a signature whose DID document is hidden or is none. */
  lemma StatusRejected(env: Env, o: Offer, rejected: seq<Byte>)
    requires Offered(env, o) && env.parseDid(rejected).None? && env.fetch(Address(o)) in {None, Some(rejected)}
    ensures StatusOf(env, o) == if env.fetch(Address(o)).None? then Unverifiable else Failed
  {
    OfferInProfile(env, o);
    StatusLaws.PartsReady(env.cfg, o.Signature(), MANIFEST_JWS_TYPE, o.publisher, HeaderText(o), SignatureText(o));
    StatusAtFetch(env, o.Signature(), MANIFEST_JWS_TYPE, Some(o.ManifestJson()), env.fetch(Address(o)));
  }

  lemma Covers(e: Entry, m: TrustManifest, s: Signature, subject: Subject)
    requires s.signer == m.contributor && m.subject == Some(subject) && subject.typ == e.typ != ""
    requires subject.identifier == e.identifier != "" && subject.version == e.version
    requires subject.digest == e.digest != ""
    ensures Release(e, m, s) == Verified
  {
    ReleaseIff(e, m, s);
  }

  lemma OfferNames(o: Offer)
    ensures o.Identifier() != "" && o.Digest() != ""
  {
  }

  lemma Released(o: Offer)
    requires ValidPublisher(o.publisher) && o.kind != ""
    ensures Release(o.Entry(), o.Manifest(), o.Signature()) == Verified
            && OfPublisher(o.Entry().identifier, o.Manifest())
  {
    ValidName(o);
    OfferNames(o);
    Covers(o.Entry(), o.Manifest(), o.Signature(), o.Subject());
  }

  lemma ArtifactFits(env: Env, o: Offer)
    requires Offered(env, o)
    ensures ArtifactStatus(env, o.Entry()) == Verified
  {
  }

  /** An entry with one manifest of its publisher that covers it. */
  lemma OneManifest(env: Env, e: Entry, m: TrustManifest, s: Signature, payload: Json)
    requires e.manifests == [m] && m.signature == Some(s) && OfPublisher(e.identifier, m)
             && Release(e, m, s) == Verified
    ensures HasAccepting(env, e, [payload]) <==> SignatureStatus(env, s, MANIFEST_JWS_TYPE, Some(payload)) == Verified
    ensures HasFailing(env, e, [payload]) <==> SignatureStatus(env, s, MANIFEST_JWS_TYPE, Some(payload)) == Failed
  {
    var accepts, fails := PublisherAcceptsAt(env, e, [payload], 0), PublisherFailsAt(env, e, [payload], 0);
    assert accepts <==> SignatureStatus(env, s, MANIFEST_JWS_TYPE, Some(payload)) == Verified;
    assert fails <==> SignatureStatus(env, s, MANIFEST_JWS_TYPE, Some(payload)) == Failed;
    assert forall k: nat :: PublisherAcceptsAt(env, e, [payload], k) ==> k == 0;
    assert forall k: nat :: PublisherFailsAt(env, e, [payload], k) ==> k == 0;
  }

  lemma EntryVerdict(env: Env, d: Served, i: nat, o: Offer)
    requires d.Aligned() && i < |d.c.entries| && d.c.entries[i] == o.Entry() && d.manifests[i] == [o.ManifestJson()]
    requires Offered(env, o)
    ensures EndorsedAt(env, d, i) <==> StatusOf(env, o) == Verified
    ensures FailedAt(env, d, i) <==> StatusOf(env, o) == Failed
  {
    Released(o);
    ArtifactFits(env, o);
    OneManifest(env, o.Entry(), o.Manifest(), o.Signature(), o.ManifestJson());
  }

  lemma TwoLevel(env: Env, d: Served, maxDepth: int)
    requires d.Aligned() && |d.c.entries| == 2 && d.c.host.Some? && ResultOf(d.c, env.cfg, maxDepth).isValid
    requires EndorsedAt(env, d, 0) && !FailedAt(env, d, 0)
    ensures IsTrusted(env, d, maxDepth) <==> !FailedAt(env, d, 1)
  {
    TrustedIff(env, d, maxDepth, []);
    if !FailedAt(env, d, 1) {
      forall i: nat ensures !FailedAt(env, d, i) {
        NeitherFailed(env, d, i);
      }
    }
  }

  lemma NeitherFailed(env: Env, d: Served, i: nat)
    requires d.Aligned() && |d.c.entries| == 2 && !FailedAt(env, d, 0) && !FailedAt(env, d, 1)
    ensures !FailedAt(env, d, i)
  {
    if i < 2 { assert i == 0 || i == 1; }
  }

  lemma LevelByAnswer(env: Env, version: string, host: string, a: Offer, b: Offer, body: seq<Byte>, key: J.Key,
      rejected: seq<Byte>, maxDepth: int)
    requires Offered(env, a) && Offered(env, b) && a.publisher != b.publisher
    requires env.cfg.specVersionOK(version) && host != ""
    requires SignedBy(env, a, body, key) && env.parseDid(rejected).None?
    requires env.fetch(Address(a)) == Some(body) && env.fetch(Address(b)) in {None, Some(rejected)}
    ensures IsTrusted(env, TwoServed(version, host, a, b), maxDepth) <==> env.fetch(Address(b)).None?
  {
    var d := TwoServed(version, host, a, b);
    DocumentIsValid(env, version, host, a, b, maxDepth);
    StatusVerified(env, a, body, key);
    StatusRejected(env, b, rejected);
    EntryVerdict(env, d, 0, a);
    EntryVerdict(env, d, 1, b);
    TwoLevel(env, d, maxDepth);
  }

  lemma OfferedUnder(env: Env, fetch: Fetcher, a: Offer, body: seq<Byte>, key: J.Key)
    requires SignedBy(env, a, body, key)
    ensures SignedBy(env.(fetch := fetch), a, body, key)
  {
  }

  /** An unreachable address can create the Trusted level. Of any two publishers, let the
      first have published a key and signed a manifest for its artifact with it, and let
      the address of the second answer with something that is no DID document: there is a
      document of two entries, which the decoder reads, that is Trusted while the second
      address does not answer, and not when it does. */
  lemma HidingCreatesTrust(env: Env, less: Fetcher, version: string, host: string, a: Offer, b: Offer,
      body: seq<Byte>, key: J.Key, rejected: seq<Byte>, maxDepth: int) returns (d: Served)
    requires Offered(env, a) && Offered(env, b) && a.publisher != b.publisher
    requires env.cfg.specVersionOK(version) && host != ""
    requires env.others(Document(version, host, a, b)) == Some(TwoEntries(version, host, a, b))
    requires SignedBy(env, a, body, key) && env.parseDid(rejected).None?
    requires env.fetch(Address(a)) == Some(body) && env.fetch(Address(b)) == Some(rejected)
    requires less(Address(a)) == Some(body) && less(Address(b)) == None
    ensures Serve(env.others, Document(version, host, a, b)) == Some(d)
    ensures IsTrusted(env.(fetch := less), d, maxDepth) && !IsTrusted(env, d, maxDepth)
  {
    d := TwoServed(version, host, a, b);
    TwoAreServed(env, version, host, a, b);
    LevelByAnswer(env, version, host, a, b, body, key, rejected, maxDepth);
    OfferedUnder(env, less, a, body, key);
    LevelByAnswer(env.(fetch := less), version, host, a, b, body, key, rejected, maxDepth);
  }
}
