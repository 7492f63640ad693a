/** Endorsement, failure and the Trusted level, over all manifests, fetchers and runs. */
module TrustLaws {
  import opened Json
  import opened Utf8
  import opened Catalog
  import opened Decoding
  import opened Identity
  import opened Rules
  import opened Validation
  import opened Verify
  import opened VerifyLaws
  import J = Jws

  // ---- what endorsement and failure are ----

  predicate PublisherAcceptsAt(env: Env, e: Entry, raw: seq<Json>, k: nat) {
    k < |e.manifests| && PublisherAccepts(env, e, e.manifests[k], PayloadAt(raw, k))
  }

  predicate PublisherFailsAt(env: Env, e: Entry, raw: seq<Json>, k: nat) {
    k < |e.manifests| && PublisherFails(env, e, e.manifests[k], PayloadAt(raw, k))
  }

  ghost predicate HasAccepting(env: Env, e: Entry, raw: seq<Json>) {
    exists k :: PublisherAcceptsAt(env, e, raw, k)
  }

  ghost predicate HasFailing(env: Env, e: Entry, raw: seq<Json>) {
    exists k :: PublisherFailsAt(env, e, raw, k)
  }

  lemma TrustAt(env: Env, e: Entry, raw: seq<Json>, k: nat)
    requires k < |e.manifests|
    ensures var t := TrustOfManifests(env, e, raw)[k];
            && (t.publisher && t.Accepted() <==> PublisherAcceptsAt(env, e, raw, k))
            && (t.publisher && t.Failing() <==> PublisherFailsAt(env, e, raw, k))
  {
    TrustIff(env, e, e.manifests[k], k, PayloadAt(raw, k));
  }

  lemma AcceptingIff(env: Env, e: Entry, raw: seq<Json>)
    ensures PublisherAccepted(TrustOfManifests(env, e, raw)) <==> HasAccepting(env, e, raw)
    ensures PublisherFailing(TrustOfManifests(env, e, raw)) <==> HasFailing(env, e, raw)
  {
    var ts := TrustOfManifests(env, e, raw);
    forall k: nat | k < |ts|
      ensures ts[k].publisher && ts[k].Accepted() <==> PublisherAcceptsAt(env, e, raw, k)
      ensures ts[k].publisher && ts[k].Failing() <==> PublisherFailsAt(env, e, raw, k)
    {
      TrustAt(env, e, raw, k);
    }
    FlagsIff(ts, (k: nat) => PublisherAcceptsAt(env, e, raw, k), (k: nat) => PublisherFailsAt(env, e, raw, k));
  }

  lemma FlagsIff(ts: seq<ManifestTrust>, accepts: nat -> bool, fails: nat -> bool)
    requires forall k: nat :: (accepts(k) ==> k < |ts|) && (fails(k) ==> k < |ts|)
    requires forall k: nat :: k < |ts| ==> (ts[k].publisher && ts[k].Accepted() <==> accepts(k))
    requires forall k: nat :: k < |ts| ==> (ts[k].publisher && ts[k].Failing() <==> fails(k))
    ensures PublisherAccepted(ts) <==> exists k: nat :: accepts(k)
    ensures PublisherFailing(ts) <==> exists k: nat :: fails(k)
  {
    if PublisherAccepted(ts) {
      var k := PublisherAcceptedAt(ts);
      assert accepts(k);
    }
    if k: nat :| accepts(k) {
      assert ts[k].publisher && ts[k].Accepted();
    }
    if PublisherFailing(ts) {
      var k: nat :| k < |ts| && ts[k].publisher && ts[k].Failing();
      assert fails(k);
    }
    if k: nat :| fails(k) {
      assert ts[k].publisher && ts[k].Failing();
    }
  }

  /** An entry is endorsed when the publisher accepts it in some manifest and the
      artifact verifies; it fails when a manifest of the publisher fails, or when the
      publisher accepts it and the artifact fails. */
  lemma EntryFlags(env: Env, i: nat, e: Entry, raw: seq<Json>)
    ensures var t := TrustOfEntry(env, i, e, raw);
            && (t.publisherEndorsed <==> HasAccepting(env, e, raw) && ArtifactStatus(env, e) == Verified)
            && (t.publisherFailed <==>
                HasFailing(env, e, raw) || (HasAccepting(env, e, raw) && ArtifactStatus(env, e) == Failed))
  {
    var ts := TrustOfManifests(env, e, raw);
    AcceptingIff(env, e, raw);
    PublisherAcceptedIsAccepted(ts);
    FlagsOf(ts, i, e, ArtifactStatus(env, e));
  }

  lemma PublisherAcceptedIsAccepted(ts: seq<ManifestTrust>)
    ensures PublisherAccepted(ts) ==> AnyAccepted(ts)
  {
  }

  lemma FlagsOf(ts: seq<ManifestTrust>, i: nat, e: Entry, status: Status)
    requires PublisherAccepted(ts) ==> AnyAccepted(ts)
    ensures var artifact := if AnyAccepted(ts) then Some(status) else None;
            && (PublisherAccepted(ts) && artifact == Some(Verified) <==> PublisherAccepted(ts) && status == Verified)
            && (PublisherAccepted(ts) && artifact == Some(Failed) <==> PublisherAccepted(ts) && status == Failed)
  {
  }

  // ---- the Trusted level ----

  ghost predicate EndorsedAt(env: Env, d: Served, i: nat)
    requires d.Aligned()
  {
    i < |d.c.entries| && HasAccepting(env, d.c.entries[i], d.manifests[i])
        && ArtifactStatus(env, d.c.entries[i]) == Verified
  }

  ghost predicate FailedAt(env: Env, d: Served, i: nat)
    requires d.Aligned()
  {
    && i < |d.c.entries|
    && (HasFailing(env, d.c.entries[i], d.manifests[i]) ||
        (HasAccepting(env, d.c.entries[i], d.manifests[i]) && ArtifactStatus(env, d.c.entries[i]) == Failed))
  }

  lemma FlagsAt(env: Env, d: Served, i: nat)
    requires d.Aligned() && i < |d.c.entries|
    ensures TrustOfEntries(env, d)[i].publisherEndorsed <==> EndorsedAt(env, d, i)
    ensures TrustOfEntries(env, d)[i].publisherFailed <==> FailedAt(env, d, i)
  {
    EntryFlags(env, i, d.c.entries[i], d.manifests[i]);
  }

  lemma EndorsesIff(env: Env, d: Served)
    requires d.Aligned()
    ensures Endorses(TrustOfEntries(env, d)) <==> exists i: nat :: EndorsedAt(env, d, i)
  {
    var ts := TrustOfEntries(env, d);
    forall i: nat | i < |ts| ensures ts[i].publisherEndorsed <==> EndorsedAt(env, d, i) {
      FlagsAt(env, d, i);
    }
    EndorsesWhere(ts, (i: nat) => EndorsedAt(env, d, i));
  }

  lemma FailsIff(env: Env, d: Served)
    requires d.Aligned()
    ensures Fails(TrustOfEntries(env, d)) <==> exists i: nat :: FailedAt(env, d, i)
  {
    var ts := TrustOfEntries(env, d);
    forall i: nat | i < |ts| ensures ts[i].publisherFailed <==> FailedAt(env, d, i) {
      FlagsAt(env, d, i);
    }
    FailsWhere(ts, (i: nat) => FailedAt(env, d, i));
  }

  lemma EndorsesWhere(ts: seq<EntryTrust>, endorsed: nat -> bool)
    requires forall i: nat :: endorsed(i) ==> i < |ts|
    requires forall i: nat :: i < |ts| ==> (ts[i].publisherEndorsed <==> endorsed(i))
    ensures Endorses(ts) <==> exists i: nat :: endorsed(i)
  {
    if Endorses(ts) {
      var i: nat :| i < |ts| && ts[i].publisherEndorsed;
      assert endorsed(i);
    }
    if i: nat :| endorsed(i) {
      assert ts[i].publisherEndorsed;
    }
  }

  lemma FailsWhere(ts: seq<EntryTrust>, failed: nat -> bool)
    requires forall i: nat :: failed(i) ==> i < |ts|
    requires forall i: nat :: i < |ts| ==> (ts[i].publisherFailed <==> failed(i))
    ensures Fails(ts) <==> exists i: nat :: failed(i)
  {
    if Fails(ts) {
      var i: nat :| i < |ts| && ts[i].publisherFailed;
      assert failed(i);
    }
    if i: nat :| failed(i) {
      assert ts[i].publisherFailed;
    }
  }

  /** A document is Trusted exactly when it is valid and names its host, the publisher of
      some entry endorses it, and the publisher of no entry fails. */
  lemma TrustedIff(env: Env, d: Served, maxDepth: int, operators: seq<string>)
    requires d.Aligned()
    ensures VerificationOf(env, d, maxDepth, operators).level == Trusted <==>
            && ResultOf(d.c, env.cfg, maxDepth).isValid && d.c.host.Some?
            && (exists i: nat :: EndorsedAt(env, d, i))
            && (forall i: nat :: !FailedAt(env, d, i))
  {
    EndorsesIff(env, d);
    FailsIff(env, d);
  }

  // ---- manifests of others ----

  /** The manifest is signed as the publisher named in the identifier. */
  predicate OfPublisher(identifier: string, m: TrustManifest) {
    m.signature.Some? && IsPublisher(identifier, m.signature.value.signer)
  }

  /** ns holds the manifest m at position l, with payload served for it. */
  predicate Holding(ns: seq<TrustManifest>, raw: seq<Json>, l: nat, m: TrustManifest, payload: Option<Json>) {
    l < |ns| && ns[l] == m && PayloadAt(raw, l) == payload
  }

  /** Every manifest of the publisher in ms is in ns. */
  ghost predicate PublisherManifestsIn(identifier: string, ms: seq<TrustManifest>, raw: seq<Json>,
      ns: seq<TrustManifest>, raw': seq<Json>) {
    forall k: nat | k < |ms| && OfPublisher(identifier, ms[k]) :: exists l: nat ::
        Holding(ns, raw', l, ms[k], PayloadAt(raw, k))
  }

  lemma Held(identifier: string, ms: seq<TrustManifest>, raw: seq<Json>, ns: seq<TrustManifest>, raw': seq<Json>,
      k: nat) returns (l: nat)
    requires PublisherManifestsIn(identifier, ms, raw, ns, raw') && k < |ms| && OfPublisher(identifier, ms[k])
    ensures Holding(ns, raw', l, ms[k], PayloadAt(raw, k))
  {
    l :| Holding(ns, raw', l, ms[k], PayloadAt(raw, k));
  }

  lemma SameVerdict(env: Env, e: Entry, f: Entry, m: TrustManifest, payload: Option<Json>)
    requires f == e.(manifests := f.manifests)
    ensures PublisherAccepts(env, e, m, payload) <==> PublisherAccepts(env, f, m, payload)
    ensures PublisherFails(env, e, m, payload) <==> PublisherFails(env, f, m, payload)
  {
    if m.signature.Some? {
      SameRelease(e, f, m, m.signature.value);
    }
  }

  lemma SameRelease(e: Entry, f: Entry, m: TrustManifest, s: Signature)
    requires f == e.(manifests := f.manifests)
    ensures Release(e, m, s) == Release(f, m, s)
  {
  }

  lemma AcceptingCarriedOver(env: Env, e: Entry, raw: seq<Json>, f: Entry, raw': seq<Json>)
    requires f == e.(manifests := f.manifests)
             && PublisherManifestsIn(e.identifier, e.manifests, raw, f.manifests, raw')
    requires HasAccepting(env, e, raw)
    ensures HasAccepting(env, f, raw')
  {
    var k: nat :| PublisherAcceptsAt(env, e, raw, k);
    var m, payload := e.manifests[k], PayloadAt(raw, k);
    assert OfPublisher(e.identifier, m);
    var l := Held(e.identifier, e.manifests, raw, f.manifests, raw', k);
    SameVerdict(env, e, f, m, payload);
    assert PublisherAcceptsAt(env, f, raw', l);
  }

  lemma FailingCarriedOver(env: Env, e: Entry, raw: seq<Json>, f: Entry, raw': seq<Json>)
    requires f == e.(manifests := f.manifests)
             && PublisherManifestsIn(e.identifier, e.manifests, raw, f.manifests, raw')
    requires HasFailing(env, e, raw)
    ensures HasFailing(env, f, raw')
  {
    var k: nat :| PublisherFailsAt(env, e, raw, k);
    var m, payload := e.manifests[k], PayloadAt(raw, k);
    assert OfPublisher(e.identifier, m);
    var l := Held(e.identifier, e.manifests, raw, f.manifests, raw', k);
    SameVerdict(env, e, f, m, payload);
    assert PublisherFailsAt(env, f, raw', l);
  }

  /** Two versions of an entry with the same manifests of its publisher, whatever others
      stand between them and in whatever order, are endorsed and fail alike. */
  lemma OthersDoNotMatter(env: Env, i: nat, e: Entry, raw: seq<Json>, f: Entry, raw': seq<Json>)
    requires f == e.(manifests := f.manifests)
    requires PublisherManifestsIn(e.identifier, e.manifests, raw, f.manifests, raw')
    requires PublisherManifestsIn(e.identifier, f.manifests, raw', e.manifests, raw)
    ensures TrustOfEntry(env, i, e, raw).publisherEndorsed <==> TrustOfEntry(env, i, f, raw').publisherEndorsed
    ensures TrustOfEntry(env, i, e, raw).publisherFailed <==> TrustOfEntry(env, i, f, raw').publisherFailed
  {
    EntryFlags(env, i, e, raw);
    EntryFlags(env, i, f, raw');
    SameFlags(env, e, raw, f, raw');
    SameArtifact(env, e, f);
  }

  lemma SameFlags(env: Env, e: Entry, raw: seq<Json>, f: Entry, raw': seq<Json>)
    requires f == e.(manifests := f.manifests)
    requires PublisherManifestsIn(e.identifier, e.manifests, raw, f.manifests, raw')
    requires PublisherManifestsIn(e.identifier, f.manifests, raw', e.manifests, raw)
    ensures HasAccepting(env, e, raw) <==> HasAccepting(env, f, raw')
    ensures HasFailing(env, e, raw) <==> HasFailing(env, f, raw')
  {
    assert e == f.(manifests := e.manifests);
    if HasAccepting(env, e, raw) { AcceptingCarriedOver(env, e, raw, f, raw'); }
    if HasAccepting(env, f, raw') { AcceptingCarriedOver(env, f, raw', e, raw); }
    if HasFailing(env, e, raw) { FailingCarriedOver(env, e, raw, f, raw'); }
    if HasFailing(env, f, raw') { FailingCarriedOver(env, f, raw', e, raw); }
  }

  lemma SameArtifact(env: Env, e: Entry, f: Entry)
    requires f == e.(manifests := f.manifests)
    ensures ArtifactStatus(env, e) == ArtifactStatus(env, f)
  {
  }

  function Inserted<T>(s: seq<T>, k: nat, x: T): seq<T>
    requires k <= |s|
  {
    s[..k] + [x] + s[k..]
  }

  /** Inserting a manifest of another signer anywhere, or removing it again, changes
      neither verdict. */
  lemma InsertingOthers(env: Env, i: nat, e: Entry, raw: seq<Json>, k: nat, m: TrustManifest, payload: Json)
    requires k <= |e.manifests| == |raw| && !OfPublisher(e.identifier, m)
    ensures var t, t' := TrustOfEntry(env, i, e, raw),
                         TrustOfEntry(env, i, e.(manifests := Inserted(e.manifests, k, m)), Inserted(raw, k, payload));
            t.publisherEndorsed == t'.publisherEndorsed && t.publisherFailed == t'.publisherFailed
  {
    var f, raw' := e.(manifests := Inserted(e.manifests, k, m)), Inserted(raw, k, payload);
    StillHeld(e.identifier, e.manifests, raw, k, m, payload);
    NothingMoreHeld(e.identifier, e.manifests, raw, k, m, payload);
    OthersDoNotMatter(env, i, e, raw, f, raw');
  }

  lemma StillHeld(identifier: string, ms: seq<TrustManifest>, raw: seq<Json>, k: nat, m: TrustManifest, payload: Json)
    requires k <= |ms| == |raw|
    ensures PublisherManifestsIn(identifier, ms, raw, Inserted(ms, k, m), Inserted(raw, k, payload))
  {
    forall l: nat | l < |ms|
        ensures exists j: nat :: Holding(Inserted(ms, k, m), Inserted(raw, k, payload), j, ms[l], PayloadAt(raw, l)) {
      assert Holding(Inserted(ms, k, m), Inserted(raw, k, payload), if l < k then l
          else l + 1, ms[l], PayloadAt(raw, l));
    }
  }

  lemma NothingMoreHeld(identifier: string, ms: seq<TrustManifest>, raw: seq<Json>, k: nat, m: TrustManifest,
      payload: Json)
    requires k <= |ms| == |raw| && !OfPublisher(identifier, m)
    ensures PublisherManifestsIn(identifier, Inserted(ms, k, m), Inserted(raw, k, payload), ms, raw)
  {
    var ns, raw' := Inserted(ms, k, m), Inserted(raw, k, payload);
    assert ns[k] == m;
    forall l: nat | l < |ns| && l != k ensures exists j: nat :: Holding(ms, raw, j, ns[l], PayloadAt(raw', l)) {
      assert Holding(ms, raw, if l < k then l else l - 1, ns[l], PayloadAt(raw', l));
    }
  }

  // ---- a fetcher that answers less ----

  type Fetcher = string -> Option<seq<Byte>>

  /** Some addresses no longer answer; all others answer the same. */
  ghost predicate AnswersLess(less: Fetcher, more: Fetcher) {
    forall address: string :: less(address).None? || less(address) == more(address)
  }

  /** The result stays, or could not be found out. */
  predicate Weaker(less: Status, more: Status) {
    less == more || less == Unverifiable
  }

  lemma SameKey(env: Env, less: Fetcher, body: seq<Byte>, signer: string, kid: string)
    ensures SignerKey(env.(fetch := less), body, signer, kid) == SignerKey(env, body, signer, kid)
  {
  }

  lemma SameMatch(env: Env, less: Fetcher, s: Signature, document: Option<Json>, key: J.Key)
    ensures SignatureMatches(env.(fetch := less), s, document, key) == SignatureMatches(env, s, document, key)
  {
  }

  lemma SameFromBody(env: Env, less: Fetcher, s: Signature, document: Option<Json>, kid: string, body: seq<Byte>)
    ensures StatusFromBody(env.(fetch := less), s, document, kid, body) == StatusFromBody(env, s, document, kid, body)
  {
    SameKey(env, less, body, s.signer, kid);
    var key := SignerKey(env, body, s.signer, kid);
    if key.Some? {
      SameMatch(env, less, s, document, key.value);
    }
  }

  /** The checks before the first fetch pass. */
  predicate ReadyToFetch(cfg: Config, s: Signature, typ: string) {
    s.profile == DID_WEB_PROFILE && CheckHeader(cfg, s, typ).Some? && CheckTime(cfg, s)
        && DidDocumentURL(s.signer).Some?
  }

  lemma StatusBeforeFetch(env: Env, less: Fetcher, s: Signature, typ: string, document: Option<Json>)
    requires !ReadyToFetch(env.cfg, s, typ)
    ensures SignatureStatus(env.(fetch := less), s, typ, document) == SignatureStatus(env, s, typ, document)
  {
  }

  lemma StatusAtFetch(env: Env, s: Signature, typ: string, document: Option<Json>, answer: Option<seq<Byte>>)
    requires ReadyToFetch(env.cfg, s, typ) && env.fetch(DidDocumentURL(s.signer).value) == answer
    ensures SignatureStatus(env, s, typ, document) ==
            if answer.None? then Unverifiable
            else StatusFromBody(env, s, document, CheckHeader(env.cfg, s, typ).value.keyID, answer.value)
  {
  }

  /** A signature's status stays or becomes unverifiable. */
  lemma SignatureUnderLess(env: Env, less: Fetcher, s: Signature, typ: string, document: Option<Json>)
    requires AnswersLess(less, env.fetch)
    ensures Weaker(SignatureStatus(env.(fetch := less), s, typ, document), SignatureStatus(env, s, typ, document))
  {
    if ReadyToFetch(env.cfg, s, typ) {
      var address := DidDocumentURL(s.signer).value;
      assert less(address).None? || less(address) == env.fetch(address);
      StatusAtFetch(env.(fetch := less), s, typ, document, less(address));
      StatusAtFetch(env, s, typ, document, env.fetch(address));
      if less(address).Some? {
        SameFromBody(env, less, s, document, CheckHeader(env.cfg, s, typ).value.keyID, less(address).value);
      }
    } else {
      StatusBeforeFetch(env, less, s, typ, document);
    }
  }

  lemma ArtifactUnderLess(env: Env, less: Fetcher, e: Entry)
    requires AnswersLess(less, env.fetch)
    ensures Weaker(ArtifactStatus(env.(fetch := less), e), ArtifactStatus(env, e))
  {
    if e.data.NoData? && env.resolve(e.url).Some? {
      var address := env.resolve(e.url).value.text;
      assert less(address).None? || less(address) == env.fetch(address);
    }
  }

  /** One manifest under both fetchers: all is the same but perhaps the signature. */
  predicate WeakerManifest(less: ManifestTrust, more: ManifestTrust) {
    && less == more.(signature := less.signature)
    && (less.signature.None? <==> more.signature.None?)
    && (less.signature.Some? ==> Weaker(less.signature.value, more.signature.value))
  }

  lemma ManifestUnderLess(env: Env, less: Fetcher, e: Entry, m: TrustManifest, i: nat, payload: Option<Json>)
    requires AnswersLess(less, env.fetch)
    ensures WeakerManifest(TrustOfManifest(env.(fetch := less), e, m, i, payload),
            TrustOfManifest(env, e, m, i, payload))
  {
    if m.signature.Some? {
      SignatureUnderLess(env, less, m.signature.value, MANIFEST_JWS_TYPE, payload);
    }
  }

  predicate WeakerManifests(less: seq<ManifestTrust>, more: seq<ManifestTrust>) {
    |less| == |more| && forall k :: 0 <= k < |less| ==> WeakerManifest(less[k], more[k])
  }

  /** One entry under both fetchers: an unreachable address never creates a verified or
      a failed verdict. */
  predicate WeakerEntry(less: EntryTrust, more: EntryTrust) {
    && WeakerManifests(less.manifests, more.manifests)
    && (less.artifact.Some? ==> more.artifact.Some? && Weaker(less.artifact.value, more.artifact.value))
    && (less.publisherEndorsed ==> more.publisherEndorsed)
    && (less.publisherFailed ==> more.publisherFailed)
  }

  lemma WeakerFlags(less: seq<ManifestTrust>, more: seq<ManifestTrust>)
    requires WeakerManifests(less, more)
    ensures AnyAccepted(less) ==> AnyAccepted(more)
    ensures PublisherAccepted(less) ==> PublisherAccepted(more)
    ensures PublisherFailing(less) ==> PublisherFailing(more)
  {
    forall k | 0 <= k < |less|
      ensures less[k].Accepted() ==> more[k].Accepted()
      ensures less[k].publisher ==> more[k].publisher
      ensures less[k].Failing() ==> more[k].Failing()
    {
      assert WeakerManifest(less[k], more[k]);
    }
  }

  lemma EntryUnderLess(env: Env, less: Fetcher, i: nat, e: Entry, raw: seq<Json>)
    requires AnswersLess(less, env.fetch)
    ensures WeakerEntry(TrustOfEntry(env.(fetch := less), i, e, raw), TrustOfEntry(env, i, e, raw))
  {
    var ts', ts := TrustOfManifests(env.(fetch := less), e, raw), TrustOfManifests(env, e, raw);
    forall k | 0 <= k < |e.manifests| ensures WeakerManifest(ts'[k], ts[k]) {
      ManifestUnderLess(env, less, e, e.manifests[k], k, PayloadAt(raw, k));
    }
    WeakerFlags(ts', ts);
    ArtifactUnderLess(env, less, e);
  }

  /** Over a whole document: the endorsed and the failed entries shrink. */
  lemma FewerAnswers(env: Env, less: Fetcher, d: Served, maxDepth: int, operators: seq<string>)
    requires AnswersLess(less, env.fetch) && d.Aligned()
    ensures var v', v := VerificationOf(env.(fetch := less), d, maxDepth, operators),
            VerificationOf(env, d, maxDepth, operators);
            && v'.validation == v.validation
            && |v'.entries| == |v.entries|
                && (forall i :: 0 <= i < |v.entries| ==> WeakerEntry(v'.entries[i], v.entries[i]))
            && (v'.catalogAuthorized ==> v.catalogAuthorized)
  {
    var ts', ts := TrustOfEntries(env.(fetch := less), d), TrustOfEntries(env, d);
    forall i | 0 <= i < |ts| ensures WeakerEntry(ts'[i], ts[i]) {
      EntryUnderLess(env, less, i, d.c.entries[i], d.manifests[i]);
    }
    if d.c.signature.Some? {
      SignatureUnderLess(env, less, d.c.signature.value, CATALOG_JWS_TYPE, Some(d.document));
    }
  }
}
