/** A decoded AI Catalog. Absent strings are "", as the decoder leaves them. */
module Catalog {
  import opened Json

  const HTTPS := "https"
  const MEDIA_TYPE_CATALOG := "application/ai-catalog+json"

  /** time.Parse with the RFC 3339 layout: an instant in seconds since the zero time. */
  type TimeParser = string -> Option<int>

  datatype HostInfo = HostInfo(displayName: string)

  datatype PublisherInfo = PublisherInfo(identifier: string, displayName: string)

  datatype Subject = Subject(identifier: string, version: string, typ: string, digest: string)

  datatype Signature = Signature(signer: string, profile: string, issuedAt: string, expiresAt: string, jws: string)

  datatype TrustSchema = TrustSchema(identifier: string, version: string)

  datatype Attestation = Attestation(typ: string, uri: string, digest: string)

  datatype ProvenanceLink = ProvenanceLink(relation: string, sourceID: string, sourceDigest: string)

  /** Extensions are listed in key order. */
  datatype TrustManifest = TrustManifest(
    contributor: string,
    subject: Option<Subject>,
    signature: Option<Signature>,
    trustSchema: Option<TrustSchema>,
    attestations: seq<Attestation>,
    provenance: seq<ProvenanceLink>,
    extensions: seq<Member>)

  /** Inline data, with the catalog it decodes to if it decodes to one. */
  datatype Data = NoData | Inline(raw: Json, decoded: Option<AICatalog>)

  datatype Entry = Entry(
    identifier: string,
    typ: string,
    url: string,
    data: Data,
    version: string,
    publisher: Option<PublisherInfo>,
    digest: string,
    manifests: seq<TrustManifest>,
    updatedAt: string,
    extensions: seq<Member>)
  {
    predicate IsNestedCatalog() {
      typ == MEDIA_TYPE_CATALOG
    }
  }

  datatype AICatalog = AICatalog(
    specVersion: string,
    host: Option<HostInfo>,
    signature: Option<Signature>,
    entries: seq<Entry>,
    extensions: seq<Member>)

  predicate Holds(e: Entry, id: string, version: string) {
    e.identifier == id && e.version == version
  }

  /** The first position, of those from i on, that holds the identifier and version. */
  function Lookup(es: seq<Entry>, id: string, version: string, i: nat): (r: Option<nat>)
    requires i <= |es|
    ensures r.Some? ==> i <= r.value < |es| && Holds(es[r.value], id, version)
    ensures r.Some? ==> forall j :: i <= j < r.value ==> !Holds(es[j], id, version)
    ensures r.None? ==> forall j :: i <= j < |es| ==> !Holds(es[j], id, version)
    decreases |es| - i
  {
    if i == |es| then None else if Holds(es[i], id, version) then Some(i) else Lookup(es, id, version, i + 1)
  }

  /** Finds the entry with the given identifier and version. */
  method GetByIDAndVersion(c: AICatalog, id: string, version: string) returns (r: Option<nat>)
    ensures r == Lookup(c.entries, id, version, 0)
    ensures r.Some? ==> r.value < |c.entries| && Holds(c.entries[r.value], id, version)
    ensures r.Some? ==> forall i :: 0 <= i < r.value ==> !Holds(c.entries[i], id, version)
    ensures r.None? ==> forall i :: 0 <= i < |c.entries| ==> !Holds(c.entries[i], id, version)
  {
    for i := 0 to |c.entries|
      invariant Lookup(c.entries, id, version, i) == Lookup(c.entries, id, version, 0)
    {
      if c.entries[i].identifier == id && c.entries[i].version == version {
        return Some(i);
      }
    }
    return None;
  }
}

/** Semantic Versioning precedence, as golang.org/x/mod/semver compares. */
module Semver {

  datatype Identifier = Numeric(n: nat) | Text(s: string)

  /** A valid version; release versions have no pre-release identifiers. */
  datatype Version = Version(major: nat, minor: nat, patch: nat, pre: seq<Identifier>, build: string)

  function Sign(n: int): int {
    if n < 0 then -1 else if n > 0 then 1 else 0
  }

  function CompareText(a: string, b: string): int {
    if a == "" then if b == "" then 0 else -1
    else if b == "" then 1
    else if a[0] != b[0] then Sign(a[0] as int - b[0] as int)
    else CompareText(a[1..], b[1..])
  }

  function CompareIdentifier(a: Identifier, b: Identifier): int {
    match (a, b)
    case (Numeric(m), Numeric(n)) => Sign(m - n)
    case (Numeric(_), Text(_)) => -1
    case (Text(_), Numeric(_)) => 1
    case (Text(s), Text(t)) => CompareText(s, t)
  }

  function CompareIdentifiers(a: seq<Identifier>, b: seq<Identifier>): int {
    if a == [] then if b == [] then 0 else -1
    else if b == [] then 1
    else
      var c := CompareIdentifier(a[0], b[0]);
      if c != 0 then c else CompareIdentifiers(a[1..], b[1..])
  }

  /** A version without pre-release identifiers comes after those with them. */
  function ComparePre(a: seq<Identifier>, b: seq<Identifier>): int {
    if a == [] || b == [] then Sign(|b| - |a|) else CompareIdentifiers(a, b)
  }

  function Compare(a: Version, b: Version): int {
    if a.major != b.major then Sign(a.major - b.major)
    else if a.minor != b.minor then Sign(a.minor - b.minor)
    else if a.patch != b.patch then Sign(a.patch - b.patch)
    else ComparePre(a.pre, b.pre)
  }

  lemma {:induction false} TextOrder(a: string, b: string, c: string)
    ensures CompareText(a, b) == -CompareText(b, a)
    ensures CompareText(a, b) == 0 <==> a == b
    ensures CompareText(a, b) <= 0 && CompareText(b, c) <= 0 ==> CompareText(a, c) <= 0
  {
    if a != "" && b != "" {
      TextOrder(a[1..], b[1..], if c == "" then "" else c[1..]);
      assert a == [a[0]] + a[1..] && b == [b[0]] + b[1..];
    }
  }

  lemma IdentifierOrder(a: Identifier, b: Identifier, c: Identifier)
    ensures CompareIdentifier(a, b) == -CompareIdentifier(b, a)
    ensures CompareIdentifier(a, b) == 0 <==> a == b
    ensures CompareIdentifier(a, b) <= 0 && CompareIdentifier(b, c) <= 0 ==> CompareIdentifier(a, c) <= 0
  {
    if a.Text? && b.Text? {
      TextOrder(a.s, b.s, if c.Text? then c.s else "");
    }
  }

  lemma {:induction false} IdentifiersOrder(a: seq<Identifier>, b: seq<Identifier>, c: seq<Identifier>)
    ensures CompareIdentifiers(a, b) == -CompareIdentifiers(b, a)
    ensures CompareIdentifiers(a, b) == 0 <==> a == b
    ensures CompareIdentifiers(a, b) <= 0 && CompareIdentifiers(b, c) <= 0 ==> CompareIdentifiers(a, c) <= 0
  {
    if a != [] && b != [] {
      IdentifierOrder(a[0], b[0], if c == [] then b[0] else c[0]);
      if c != [] { IdentifierOrder(b[0], c[0], a[0]); IdentifierOrder(c[0], a[0], b[0]); }
      IdentifiersOrder(a[1..], b[1..], if c == [] then [] else c[1..]);
      assert a == [a[0]] + a[1..] && b == [b[0]] + b[1..];
    }
  }

  /** Precedence is a total preorder that ignores build metadata and nothing else. */
  lemma PrecedenceOrder(a: Version, b: Version, c: Version)
    ensures Compare(a, b) == -Compare(b, a)
    ensures Compare(a, b) == 0 <==> a.(build := b.build) == b
    ensures Compare(a, b) <= 0 && Compare(b, c) <= 0 ==> Compare(a, c) <= 0
  {
    IdentifiersOrder(a.pre, b.pre, c.pre);
    IdentifiersOrder(b.pre, c.pre, a.pre);
  }

  // ---- the order, rule by rule ----

  /** The first place where the lists differ. */
  predicate Differ<T(==)>(a: seq<T>, b: seq<T>, k: nat) {
    k < |a| && k < |b| && a[..k] == b[..k] && a[k] != b[k]
  }

  /** One list begins the other, or comes before it at the first place where they differ. */
  predicate TextBefore(a: string, b: string) {
    (|a| < |b| && a <= b) || exists k: nat :: k < |a| && Differ(a, b, k) && a[k] < b[k]
  }

  /** Numbers before texts, numbers by value, texts by character. */
  predicate IdentifierBefore(a: Identifier, b: Identifier) {
    match (a, b)
    case (Numeric(m), Numeric(n)) => m < n
    case (Numeric(_), Text(_)) => true
    case (Text(_), Numeric(_)) => false
    case (Text(s), Text(t)) => TextBefore(s, t)
  }

  predicate IdentifiersBefore(a: seq<Identifier>, b: seq<Identifier>) {
    (|a| < |b| && a <= b) || exists k: nat :: k < |a| && Differ(a, b, k) && IdentifierBefore(a[k], b[k])
  }

  /** A version with pre-release identifiers comes before the one without. */
  predicate PreBefore(a: seq<Identifier>, b: seq<Identifier>) {
    if a == [] || b == [] then a != [] && b == [] else IdentifiersBefore(a, b)
  }

  predicate Before(a: Version, b: Version) {
    || a.major < b.major
    || (a.major == b.major && a.minor < b.minor)
    || (a.major == b.major && a.minor == b.minor && a.patch < b.patch)
    || (a.major == b.major && a.minor == b.minor && a.patch == b.patch && PreBefore(a.pre, b.pre))
  }

  lemma DifferCons<T>(a: seq<T>, b: seq<T>, k: nat)
    requires a != [] && b != [] && a[0] == b[0] && Differ(a[1..], b[1..], k)
    ensures Differ(a, b, k + 1)
  {
    assert a[..k + 1] == [a[0]] + a[1..][..k] && b[..k + 1] == [b[0]] + b[1..][..k];
  }

  lemma DifferTail<T>(a: seq<T>, b: seq<T>, k: nat)
    requires a != [] && b != [] && a[0] == b[0] && Differ(a, b, k)
    ensures k > 0 && Differ(a[1..], b[1..], k - 1)
  {
    assert a[1..][..k - 1] == a[..k][1..] && b[1..][..k - 1] == b[..k][1..];
  }

  lemma DifferHere<T>(a: seq<T>, b: seq<T>, k: nat)
    requires a != [] && b != [] && a[0] != b[0]
    ensures Differ(a, b, k) <==> k == 0
  {
    if k > 0 && k <= |a| && k <= |b| {
      assert a[..k][0] != b[..k][0];
    }
  }

  lemma PrefixTail<T>(a: seq<T>, b: seq<T>)
    requires a != [] && b != [] && a[0] == b[0]
    ensures a <= b <==> a[1..] <= b[1..]
  {
    assert a == [a[0]] + a[1..] && b == [b[0]] + b[1..];
  }

  lemma {:induction false} TextBeforeIff(a: string, b: string)
    ensures CompareText(a, b) < 0 <==> TextBefore(a, b)
  {
    if a != "" && b != "" {
      if a[0] == b[0] {
        TextBeforeIff(a[1..], b[1..]);
        PrefixTail(a, b);
        if k: nat :| k < |a[1..]| && Differ(a[1..], b[1..], k) && a[1..][k] < b[1..][k] { DifferCons(a, b, k); }
        if k: nat :| k < |a| && Differ(a, b, k) && a[k] < b[k] {
          DifferTail(a, b, k);
          assert a[1..][k - 1] < b[1..][k - 1];
        }
      } else {
        DifferHere(a, b, 0);
        forall k: nat | Differ(a, b, k) ensures k == 0 { DifferHere(a, b, k); }
      }
    }
  }

  lemma IdentifierBeforeIff(a: Identifier, b: Identifier)
    ensures CompareIdentifier(a, b) < 0 <==> IdentifierBefore(a, b)
    ensures CompareIdentifier(a, b) == 0 <==> a == b
  {
    IdentifierOrder(a, b, a);
    if a.Text? && b.Text? { TextBeforeIff(a.s, b.s); }
  }

  lemma {:induction false} IdentifiersBeforeIff(a: seq<Identifier>, b: seq<Identifier>)
    ensures CompareIdentifiers(a, b) < 0 <==> IdentifiersBefore(a, b)
  {
    if a != [] && b != [] {
      IdentifierBeforeIff(a[0], b[0]);
      if a[0] == b[0] {
        IdentifiersBeforeIff(a[1..], b[1..]);
        PrefixTail(a, b);
        if k: nat :| k < |a[1..]| && Differ(a[1..], b[1..], k) && IdentifierBefore(a[1..][k], b[1..][k]) {
          DifferCons(a, b, k);
        }
        if k: nat :| k < |a| && Differ(a, b, k) && IdentifierBefore(a[k], b[k]) {
          DifferTail(a, b, k);
          assert IdentifierBefore(a[1..][k - 1], b[1..][k - 1]);
        }
      } else {
        DifferHere(a, b, 0);
        forall k: nat | Differ(a, b, k) ensures k == 0 { DifferHere(a, b, k); }
      }
    }
  }

  /** Precedence is the order of section 11 of Semantic Versioning 2.0.0. */
  lemma PrecedenceIff(a: Version, b: Version)
    ensures Compare(a, b) < 0 <==> Before(a, b)
    ensures Compare(a, b) > 0 <==> Before(b, a)
  {
    IdentifiersBeforeIff(a.pre, b.pre);
    IdentifiersBeforeIff(b.pre, a.pre);
    PrecedenceOrder(a, b, a);
  }
}

/** Choosing the latest entry of an identifier. */
module Latest {
  import opened Json
  import opened Catalog
  import opened Text
  import opened Semver

  /** Parses a version in the form x/mod/semver expects, with its leading "v". */
  type VersionParser = string -> Option<Version>

  datatype Key = Key(version: Option<Version>, updated: int)

  function SemverKey(version: string, parse: VersionParser): Option<Version> {
    if version == "" then None else parse("v" + TrimLeft(version, "vV"))
  }

  /** Any number of leading v's is read as one. */
  lemma LeadingVs(vs: string, core: string, parse: VersionParser)
    requires (forall i :: 0 <= i < |vs| ==> vs[i] in "vV") && core != "" && core[0] !in "vV"
    ensures SemverKey(vs + core, parse) == parse("v" + core)
  {
    TrimLeftAll(vs, core);
  }

  lemma {:induction false} TrimLeftAll(vs: string, core: string)
    requires (forall i :: 0 <= i < |vs| ==> vs[i] in "vV") && core != "" && core[0] !in "vV"
    ensures TrimLeft(vs + core, "vV") == core
  {
    if vs == "" {
      assert vs + core == core;
    } else {
      assert (vs + core)[1..] == vs[1..] + core;
      TrimLeftAll(vs[1..], core);
    }
  }

  /** The update time, or the zero time when absent or invalid. */
  function UpdatedAt(e: Entry, instant: TimeParser): int {
    match instant(e.updatedAt) case Some(t) => t case None => 0
  }

  function KeyOf(e: Entry, parse: VersionParser, instant: TimeParser): Key {
    Key(SemverKey(e.version, parse), UpdatedAt(e, instant))
  }

  /** Any valid version above none; then by precedence, then by update time. */
  predicate Above(a: Key, b: Key) {
    match (a.version, b.version)
    case (Some(v), Some(w)) => Compare(v, w) > 0 || (Compare(v, w) == 0 && a.updated > b.updated)
    case (Some(_), None) => true
    case (None, Some(_)) => false
    case (None, None) => a.updated > b.updated
  }

  lemma AboveIsStrictWeakOrder(a: Key, b: Key, c: Key)
    ensures !(Above(a, b) && Above(b, a))
    ensures !Above(a, b) && !Above(b, c) ==> !Above(a, c)
    ensures Above(a, b) && !Above(c, b) ==> Above(a, c)
    ensures !Above(b, a) && Above(b, c) ==> Above(a, c)
  {
    if a.version.Some? && b.version.Some? {
      var v, w := a.version.value, b.version.value;
      var x := if c.version.Some? then c.version.value else v;
      Triple(v, w, x);
      Triple(w, v, x);
      Triple(x, v, w);
      Triple(x, w, v);
      Triple(v, x, w);
      Triple(w, x, v);
    }
  }

  lemma Triple(a: Version, b: Version, c: Version)
    ensures Compare(a, b) == -Compare(b, a)
    ensures Compare(a, b) <= 0 && Compare(b, c) <= 0 ==> Compare(a, c) <= 0
    ensures Compare(a, b) < 0 && Compare(b, c) <= 0 ==> Compare(a, c) < 0
    ensures Compare(a, b) <= 0 && Compare(b, c) < 0 ==> Compare(a, c) < 0
  {
    PrecedenceOrder(a, b, c);
    PrecedenceOrder(b, c, a);
    PrecedenceOrder(c, a, b);
  }

  /** e is later than f: it alone has a valid version, or its version is of higher
      precedence, or they are of the same, or none is valid, and it was updated later. */
  predicate Later(e: Entry, f: Entry, parse: VersionParser, instant: TimeParser) {
    var v, w := SemverKey(e.version, parse), SemverKey(f.version, parse);
    if v.Some? && w.Some? && Before(w.value, v.value) then true
    else if v.Some? && w.Some? && Before(v.value, w.value) then false
    else if v.Some? != w.Some? then v.Some?
    else UpdatedAt(f, instant) < UpdatedAt(e, instant)
  }

  lemma AboveIff(e: Entry, f: Entry, parse: VersionParser, instant: TimeParser)
    ensures Above(KeyOf(e, parse, instant), KeyOf(f, parse, instant)) <==> Later(e, f, parse, instant)
  {
    var v, w := SemverKey(e.version, parse), SemverKey(f.version, parse);
    if v.Some? && w.Some? {
      PrecedenceIff(v.value, w.value);
      PrecedenceIff(w.value, v.value);
    }
  }

  /** The latest entry is the first of those called id that no other is later than. */
  lemma LatestIff(es: seq<Entry>, id: string, i: nat, parse: VersionParser, instant: TimeParser)
    ensures IsLatest(es, id, i, parse, instant) <==>
            && i < |es| && es[i].identifier == id
            && (forall j :: 0 <= j < |es| && es[j].identifier == id ==> !Later(es[j], es[i], parse, instant))
            && (forall j :: 0 <= j < i && es[j].identifier == id ==> Later(es[i], es[j], parse, instant))
  {
    if i < |es| {
      forall j | 0 <= j < |es|
        ensures Above(KeyOf(es[j], parse, instant), KeyOf(es[i], parse, instant)) <==>
                Later(es[j], es[i], parse, instant)
        ensures Above(KeyOf(es[i], parse, instant), KeyOf(es[j], parse, instant)) <==>
                Later(es[i], es[j], parse, instant)
      {
        AboveIff(es[j], es[i], parse, instant);
        AboveIff(es[i], es[j], parse, instant);
      }
    }
  }

  /** i is the first of the entries called id that no other is above. */
  predicate IsLatest(es: seq<Entry>, id: string, i: nat, parse: VersionParser, instant: TimeParser) {
    && i < |es| && es[i].identifier == id
    && (forall j :: 0 <= j < |es| && es[j].identifier == id ==>
        !Above(KeyOf(es[j], parse, instant), KeyOf(es[i], parse, instant)))
    && (forall j :: 0 <= j < i && es[j].identifier == id ==>
        Above(KeyOf(es[i], parse, instant), KeyOf(es[j], parse, instant)))
  }

  /** The positions of the entries called id, in document order. */
  method Versions(c: AICatalog, id: string) returns (r: seq<nat>)
    ensures forall i :: i in r <==> 0 <= i < |c.entries| && c.entries[i].identifier == id
    ensures forall k, l :: 0 <= k < l < |r| ==> r[k] < r[l]
  {
    r := [];
    for i := 0 to |c.entries|
      invariant forall j :: j in r <==> 0 <= j < i && c.entries[j].identifier == id
      invariant forall k, l :: 0 <= k < l < |r| ==> r[k] < r[l]
    {
      if c.entries[i].identifier == id {
        forall k | 0 <= k < |r| ensures r[k] < i { assert r[k] in r; }
        r := r + [i];
      }
    }
  }

  /** best is the first of the candidates seen so far that none is above. */
  ghost predicate Leads(es: seq<Entry>, seen: seq<nat>, best: nat, parse: VersionParser, instant: TimeParser) {
    && best in seen && best < |es|
    && (forall k :: 0 <= k < |seen| && seen[k] < |es| ==>
          !Above(KeyOf(es[seen[k]], parse, instant), KeyOf(es[best], parse, instant)))
    && (forall k :: 0 <= k < |seen| && seen[k] < best ==>
          Above(KeyOf(es[best], parse, instant), KeyOf(es[seen[k]], parse, instant)))
  }

  lemma LeadsNext(es: seq<Entry>, seen: seq<nat>, best: nat, i: nat, parse: VersionParser, instant: TimeParser)
    requires Leads(es, seen, best, parse, instant) && i < |es|
    requires forall k :: 0 <= k < |seen| ==> seen[k] < i
    ensures Above(KeyOf(es[i], parse, instant), KeyOf(es[best], parse, instant)) ==>
              Leads(es, seen + [i], i, parse, instant)
    ensures !Above(KeyOf(es[i], parse, instant), KeyOf(es[best], parse, instant)) ==>
              Leads(es, seen + [i], best, parse, instant)
  {
    var a, b := KeyOf(es[i], parse, instant), KeyOf(es[best], parse, instant);
    assert best in seen && best < i;
    forall k | 0 <= k < |seen| ensures Above(a, b) ==> Above(a, KeyOf(es[seen[k]], parse, instant)) {
      AboveIsStrictWeakOrder(a, b, KeyOf(es[seen[k]], parse, instant));
    }
    forall k | 0 <= k < |seen| ensures Above(a, b) ==> !Above(KeyOf(es[seen[k]], parse, instant), a) {
      AboveIsStrictWeakOrder(a, KeyOf(es[seen[k]], parse, instant), a);
    }
    AboveIsStrictWeakOrder(a, a, a);
  }

  /** seen are the candidates among the first k matches that have a valid version. */
  ghost predicate Scanned(es: seq<Entry>, matches: seq<nat>, k: nat, seen: seq<nat>, parse: VersionParser) {
    && k <= |matches| && (forall l :: 0 <= l < |seen| ==> seen[l] in matches[..k])
    && forall l :: 0 <= l < k && matches[l] < |es| ==>
         (matches[l] in seen <==> SemverKey(es[matches[l]].version, parse).Some?)
  }

  ghost predicate Ascending(es: seq<Entry>, matches: seq<nat>) {
    (forall k :: 0 <= k < |matches| ==> matches[k] < |es|) && forall k, l :: 0 <= k < l < |matches| ==>
        matches[k] < matches[l]
  }

  lemma ScannedNext(es: seq<Entry>, matches: seq<nat>, k: nat, seen: seq<nat>, parse: VersionParser)
    requires Ascending(es, matches) && Scanned(es, matches, k, seen, parse) && k < |matches|
    ensures forall l :: 0 <= l < |seen| ==> seen[l] < matches[k]
    ensures if SemverKey(es[matches[k]].version, parse).Some?
            then Scanned(es, matches, k + 1, seen + [matches[k]], parse)
            else Scanned(es, matches, k + 1, seen, parse)
  {
    assert matches[..k + 1] == matches[..k] + [matches[k]];
    forall l | 0 <= l < |seen| ensures seen[l] < matches[k] {
      assert seen[l] in matches[..k];
    }
    forall l | 0 <= l < k ensures matches[l] in seen + [matches[k]] <==> matches[l] in seen {
    }
    assert matches[k] !in seen;
  }

  method GetLatest(c: AICatalog, id: string, parse: VersionParser, instant: TimeParser) returns (r: Option<nat>)
    ensures r.None? <==> forall i :: 0 <= i < |c.entries| ==> c.entries[i].identifier != id
    ensures r.Some? ==> IsLatest(c.entries, id, r.value, parse, instant)
  {
    var es := c.entries;
    var matches := Versions(c, id);
    if matches == [] {
      return None;
    }
    assert Ascending(es, matches) by {
      assert forall k :: 0 <= k < |matches| ==> matches[k] in matches;
    }
    assert matches[0] in matches;
    var best := BestVersion(es, matches, parse, instant);
    if best.Some? {
      LeadingVersion(es, id, matches, best.value, parse, instant);
      return best;
    }
    var latest := LatestUpdate(es, matches, parse, instant);
    forall j | 0 <= j < |es| && es[j].identifier == id ensures exists k :: 0 <= k < |matches| && matches[k] == j {
      assert j in matches;
    }
    return Some(latest);
  }

  /** The first loop of GetLatest: the best of the matches that have a valid version. */
  method BestVersion(es: seq<Entry>, matches: seq<nat>, parse: VersionParser, instant: TimeParser)
      returns (best: Option<nat>)
    requires Ascending(es, matches)
    ensures best.None? ==> Scanned(es, matches, |matches|, [], parse)
    ensures best.Some? ==>
            exists seen :: Scanned(es, matches, |matches|, seen, parse) && Leads(es, seen, best.value, parse, instant)
  {
    best := None;
    ghost var seen: seq<nat> := [];
    for k := 0 to |matches|
      invariant Scanned(es, matches, k, seen, parse)
      invariant best.None? ==> seen == []
      invariant best.Some? ==> Leads(es, seen, best.value, parse, instant) && best.value < |es| &&
                               SemverKey(es[best.value].version, parse).Some?
    {
      var e := matches[k];
      var key := SemverKey(es[e].version, parse);
      ScannedNext(es, matches, k, seen, parse);
      if key.Some? {
        if best.None? {
          LeadsAlone(es, e, parse, instant);
          best := Some(e);
        } else {
          LeadsNext(es, seen, best.value, e, parse, instant);
          var bestKey := SemverKey(es[best.value].version, parse).value;
          if Compare(key.value, bestKey) > 0 {
            best := Some(e);
          } else if Compare(key.value, bestKey) == 0 && UpdatedAt(es[e], instant) > UpdatedAt(es[best.value], instant) {
            best := Some(e);
          }
        }
        seen := seen + [e];
      }
    }
  }

  lemma LeadsAlone(es: seq<Entry>, e: nat, parse: VersionParser, instant: TimeParser)
    requires e < |es|
    ensures Leads(es, [] + [e], e, parse, instant)
  {
    var key := KeyOf(es[e], parse, instant);
    AboveIsStrictWeakOrder(key, key, key);
  }

  /** The second loop of GetLatest: without a valid version, the latest update. */
  method LatestUpdate(es: seq<Entry>, matches: seq<nat>, parse: VersionParser, instant: TimeParser)
      returns (latest: nat)
    requires Ascending(es, matches) && matches != []
    requires Scanned(es, matches, |matches|, [], parse)
    ensures latest in matches && Leads(es, matches, latest, parse, instant)
  {
    latest := matches[0];
    LeadsAlone(es, latest, parse, instant);
    assert matches[..1] == [] + [latest];
    for k := 1 to |matches|
      invariant latest in matches && latest < |es| && SemverKey(es[latest].version, parse).None?
      invariant Leads(es, matches[..k], latest, parse, instant)
    {
      var e := matches[k];
      LeadsNext(es, matches[..k], latest, e, parse, instant);
      assert matches[..k + 1] == matches[..k] + [e];
      if UpdatedAt(es[e], instant) > UpdatedAt(es[latest], instant) {
        latest := e;
      }
    }
    assert matches[..|matches|] == matches;
  }

  lemma LeadingVersion(es: seq<Entry>, id: string, matches: seq<nat>, best: nat, parse: VersionParser,
      instant: TimeParser)
    requires forall i :: i in matches <==> 0 <= i < |es| && es[i].identifier == id
    requires exists seen :: Scanned(es, matches, |matches|, seen, parse) && Leads(es, seen, best, parse, instant)
    ensures IsLatest(es, id, best, parse, instant)
  {
    var seen :| Scanned(es, matches, |matches|, seen, parse) && Leads(es, seen, best, parse, instant);
    assert matches[..|matches|] == matches;
    assert best in matches;
    forall j | 0 <= j < |es| && es[j].identifier == id
      ensures !Above(KeyOf(es[j], parse, instant), KeyOf(es[best], parse, instant))
      ensures j < best ==> Above(KeyOf(es[best], parse, instant), KeyOf(es[j], parse, instant))
    {
      assert j in matches;
      if SemverKey(es[j].version, parse).Some? {
        assert j in seen;
      }
    }
  }

  // ---- the choice does not depend on the order of entries ----

  /** Reordering the entries may choose another entry, but never one of another rank. */
  lemma LatestOfPermutation(es: seq<Entry>, fs: seq<Entry>, id: string, i: nat, j: nat,
                            parse: VersionParser, instant: TimeParser)
    requires multiset(es) == multiset(fs)
    requires IsLatest(es, id, i, parse, instant) && IsLatest(fs, id, j, parse, instant)
    ensures var a, b := KeyOf(es[i], parse, instant), KeyOf(fs[j], parse, instant);
            && a.updated == b.updated && (a.version.Some? <==> b.version.Some?)
            && (a.version.Some? ==> Compare(a.version.value, b.version.value) == 0)
    ensures es == fs ==> i == j
  {
    var k := Find(es, fs, i);
    var l := Find(fs, es, j);
    var a, b := KeyOf(es[i], parse, instant), KeyOf(fs[j], parse, instant);
    assert !Above(a, b) && !Above(b, a);
    if a.version.Some? && b.version.Some? {
      PrecedenceOrder(a.version.value, b.version.value, a.version.value);
    }
  }

  lemma Find(es: seq<Entry>, fs: seq<Entry>, i: nat) returns (k: nat)
    requires multiset(es) == multiset(fs) && i < |es|
    ensures k < |fs| && fs[k] == es[i]
  {
    assert es[i] in multiset(es);
    assert es[i] in fs;
    k :| 0 <= k < |fs| && fs[k] == es[i];
  }
}
