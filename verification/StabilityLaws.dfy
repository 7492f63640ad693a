/** When a Trusted verdict survives every further answer of the fetcher. */
module StabilityLaws {
  import opened Json
  import opened Utf8
  import opened Catalog
  import opened Decoding
  import opened Identity
  import opened Rules
  import opened Validation
  import opened Verify
  import opened VerifyLaws
  import opened TrustLaws

  predicate IsTrusted(env: Env, d: Served, maxDepth: int)
    requires d.Aligned()
  {
    VerificationOf(env, d, maxDepth, []).level == Trusted
  }

  /** A manifest of the publisher, in the signer profile, whose signature could not be
      checked. */
  predicate PendingSignature(env: Env, e: Entry, raw: seq<Json>, k: nat) {
    && k < |e.manifests| && OfPublisher(e.identifier, e.manifests[k])
    && e.manifests[k].signature.value.profile == DID_WEB_PROFILE
    && SignatureStatus(env, e.manifests[k].signature.value, MANIFEST_JWS_TYPE, PayloadAt(raw, k)) == Unverifiable
  }

  predicate FetchesArtifact(env: Env, e: Entry) {
    e.data.NoData? && env.resolve(e.url).Some? && env.resolve(e.url).value.scheme == HTTPS
  }

  /** An https artifact of an entry that its publisher accepts, and that could not be
      fetched. */
  ghost predicate PendingArtifact(env: Env, e: Entry, raw: seq<Json>) {
    HasAccepting(env, e, raw) && FetchesArtifact(env, e) && ArtifactStatus(env, e) == Unverifiable
  }

  ghost predicate Pending(env: Env, e: Entry, raw: seq<Json>) {
    PendingArtifact(env, e, raw) || exists k: nat :: PendingSignature(env, e, raw, k)
  }

  ghost predicate PendingAt(env: Env, d: Served, i: nat)
    requires d.Aligned()
  {
    i < |d.c.entries| && Pending(env, d.c.entries[i], d.manifests[i])
  }

  // ---- with more answers ----

  lemma MoreIsLess(env: Env, more: Fetcher)
    ensures env.(fetch := more).(fetch := env.fetch) == env
  {
  }

  lemma SignatureUnderMore(env: Env, more: Fetcher, s: Signature, typ: string, document: Option<Json>)
    requires AnswersLess(env.fetch, more)
    ensures Weaker(SignatureStatus(env, s, typ, document), SignatureStatus(env.(fetch := more), s, typ, document))
    ensures s.profile != DID_WEB_PROFILE ==> SignatureStatus(env.(fetch := more), s, typ, document) == Unverifiable
  {
    MoreIsLess(env, more);
    SignatureUnderLess(env.(fetch := more), env.fetch, s, typ, document);
  }

  lemma ArtifactUnderMore(env: Env, more: Fetcher, e: Entry)
    requires AnswersLess(env.fetch, more)
    ensures Weaker(ArtifactStatus(env, e), ArtifactStatus(env.(fetch := more), e))
    ensures !FetchesArtifact(env, e) ==> ArtifactStatus(env, e) == ArtifactStatus(env.(fetch := more), e)
  {
    MoreIsLess(env, more);
    ArtifactUnderLess(env.(fetch := more), env.fetch, e);
  }

  lemma AcceptingUnderMore(env: Env, more: Fetcher, e: Entry, raw: seq<Json>)
    requires AnswersLess(env.fetch, more) && HasAccepting(env, e, raw)
    ensures HasAccepting(env.(fetch := more), e, raw)
  {
    var k: nat :| PublisherAcceptsAt(env, e, raw, k);
    SignatureUnderMore(env, more, e.manifests[k].signature.value, MANIFEST_JWS_TYPE, PayloadAt(raw, k));
    assert PublisherAcceptsAt(env.(fetch := more), e, raw, k);
  }

  lemma NothingNewAccepted(env: Env, more: Fetcher, e: Entry, raw: seq<Json>)
    requires AnswersLess(env.fetch, more) && !Pending(env, e, raw) && HasAccepting(env.(fetch := more), e, raw)
    ensures HasAccepting(env, e, raw)
  {
    var k: nat :| PublisherAcceptsAt(env.(fetch := more), e, raw, k);
    SignatureUnderMore(env, more, e.manifests[k].signature.value, MANIFEST_JWS_TYPE, PayloadAt(raw, k));
    assert !PendingSignature(env, e, raw, k);
    assert PublisherAcceptsAt(env, e, raw, k);
  }

  lemma NothingNewFails(env: Env, more: Fetcher, e: Entry, raw: seq<Json>)
    requires AnswersLess(env.fetch, more) && !Pending(env, e, raw) && HasFailing(env.(fetch := more), e, raw)
    ensures HasFailing(env, e, raw)
  {
    var k: nat :| PublisherFailsAt(env.(fetch := more), e, raw, k);
    SignatureUnderMore(env, more, e.manifests[k].signature.value, MANIFEST_JWS_TYPE, PayloadAt(raw, k));
    assert !PendingSignature(env, e, raw, k);
    assert PublisherFailsAt(env, e, raw, k);
  }

  lemma EndorsedUnderMore(env: Env, more: Fetcher, d: Served, i: nat)
    requires AnswersLess(env.fetch, more) && d.Aligned() && EndorsedAt(env, d, i)
    ensures EndorsedAt(env.(fetch := more), d, i)
  {
    AcceptingUnderMore(env, more, d.c.entries[i], d.manifests[i]);
    ArtifactUnderMore(env, more, d.c.entries[i]);
  }

  lemma FailedUnderMore(env: Env, more: Fetcher, d: Served, i: nat)
    requires AnswersLess(env.fetch, more) && d.Aligned() && !PendingAt(env, d, i) && FailedAt(env.(fetch := more), d, i)
    ensures FailedAt(env, d, i)
  {
    var e, raw := d.c.entries[i], d.manifests[i];
    if HasFailing(env.(fetch := more), e, raw) {
      NothingNewFails(env, more, e, raw);
    } else {
      NothingNewAccepted(env, more, e, raw);
      ArtifactUnderMore(env, more, e);
    }
  }

  lemma StaysTrusted(env: Env, more: Fetcher, d: Served, maxDepth: int)
    requires AnswersLess(env.fetch, more) && d.Aligned() && IsTrusted(env, d, maxDepth)
    requires forall i: nat :: !PendingAt(env, d, i)
    ensures IsTrusted(env.(fetch := more), d, maxDepth)
  {
    TrustedIff(env, d, maxDepth, []);
    TrustedIff(env.(fetch := more), d, maxDepth, []);
    var i: nat :| EndorsedAt(env, d, i);
    EndorsedUnderMore(env, more, d, i);
    forall j: nat ensures !FailedAt(env.(fetch := more), d, j) {
      if FailedAt(env.(fetch := more), d, j) { FailedUnderMore(env, more, d, j); }
    }
  }

  // ---- an answer that undoes the verdict ----

  function Answering(f: Fetcher, address: string, body: seq<Byte>): Fetcher {
    (a: string) => if a == address then Some(body) else f(a)
  }

  lemma SignatureUndone(env: Env, e: Entry, raw: seq<Json>, k: nat, rejected: seq<Byte>) returns (more: Fetcher)
    requires PendingSignature(env, e, raw, k) && env.parseDid(rejected).None?
    ensures AnswersLess(env.fetch, more) && HasFailing(env.(fetch := more), e, raw)
  {
    var s := e.manifests[k].signature.value;
    var address := UnansweredAddress(env, s, PayloadAt(raw, k));
    more := Answering(env.fetch, address, rejected);
    StatusAtFetch(env.(fetch := more), s, MANIFEST_JWS_TYPE, PayloadAt(raw, k), Some(rejected));
    assert PublisherFailsAt(env.(fetch := more), e, raw, k);
  }

  lemma UnansweredAddress(env: Env, s: Signature, document: Option<Json>) returns (address: string)
    requires s.profile == DID_WEB_PROFILE && SignatureStatus(env, s, MANIFEST_JWS_TYPE, document) == Unverifiable
    ensures ReadyToFetch(env.cfg, s, MANIFEST_JWS_TYPE) && DidDocumentURL(s.signer) == Some(address)
            && env.fetch(address).None?
  {
    address := DidDocumentURL(s.signer).value;
  }

  lemma ArtifactUndone(env: Env, e: Entry, raw: seq<Json>, other: seq<Byte>) returns (more: Fetcher)
    requires PendingArtifact(env, e, raw) && !VerifyDigest(env, e.digest, other)
    ensures AnswersLess(env.fetch, more)
    ensures HasAccepting(env.(fetch := more), e, raw) && ArtifactStatus(env.(fetch := more), e) == Failed
  {
    var address := env.resolve(e.url).value.text;
    UnansweredArtifact(env, e);
    more := Answering(env.fetch, address, other);
    AcceptingUnderMore(env, more, e, raw);
    ArtifactAnswered(env, more, e, other);
  }

  lemma UnansweredArtifact(env: Env, e: Entry)
    requires FetchesArtifact(env, e) && ArtifactStatus(env, e) == Unverifiable
    ensures env.fetch(env.resolve(e.url).value.text).None?
  {
  }

  lemma ArtifactAnswered(env: Env, more: Fetcher, e: Entry, other: seq<Byte>)
    requires FetchesArtifact(env, e) && more(env.resolve(e.url).value.text) == Some(other)
    requires !VerifyDigest(env, e.digest, other)
    ensures ArtifactStatus(env.(fetch := more), e) == Failed
  {
    assert VerifyDigest(env.(fetch := more), e.digest, other) == VerifyDigest(env, e.digest, other);
  }

  lemma Undone(env: Env, d: Served, i: nat, maxDepth: int, rejected: seq<Byte>, other: seq<Byte>)
      returns (more: Fetcher)
    requires d.Aligned() && PendingAt(env, d, i)
    requires env.parseDid(rejected).None? && !VerifyDigest(env, d.c.entries[i].digest, other)
    ensures AnswersLess(env.fetch, more) && !IsTrusted(env.(fetch := more), d, maxDepth)
  {
    var e, raw := d.c.entries[i], d.manifests[i];
    if PendingArtifact(env, e, raw) {
      more := ArtifactUndone(env, e, raw, other);
    } else {
      var k: nat :| PendingSignature(env, e, raw, k);
      more := SignatureUndone(env, e, raw, k, rejected);
    }
    TrustedIff(env.(fetch := more), d, maxDepth, []);
    assert FailedAt(env.(fetch := more), d, i);
  }

  /** Some content does not fit the digest. */
  ghost predicate Misfit(env: Env, digest: string) {
    exists other :: !VerifyDigest(env, digest, other)
  }

  /** Trusted whatever else the fetcher may come to answer. */
  ghost predicate AlwaysTrusted(env: Env, d: Served, maxDepth: int)
    requires d.Aligned()
  {
    forall more: Fetcher :: AnswersLess(env.fetch, more) ==> IsTrusted(env.(fetch := more), d, maxDepth)
  }

  /** A Trusted document stays Trusted under every fetcher that answers more exactly when
      no signature of a publisher and no artifact it accepts is still to be fetched: as
      long as some answer is no DID document and no digest fits every content. */
  lemma TrustIsStableIff(env: Env, d: Served, maxDepth: int, rejected: seq<Byte>)
    requires d.Aligned() && IsTrusted(env, d, maxDepth)
    requires env.parseDid(rejected).None?
    requires forall digest :: Misfit(env, digest)
    ensures AlwaysTrusted(env, d, maxDepth) <==> forall i: nat :: !PendingAt(env, d, i)
  {
    if i: nat :| PendingAt(env, d, i) {
      assert Misfit(env, d.c.entries[i].digest);
      var other :| !VerifyDigest(env, d.c.entries[i].digest, other);
      var more := Undone(env, d, i, maxDepth, rejected, other);
    } else {
      forall more: Fetcher | AnswersLess(env.fetch, more) ensures IsTrusted(env.(fetch := more), d, maxDepth) {
        StaysTrusted(env, more, d, maxDepth);
      }
    }
  }
}
