/** What a repeated list of trust manifests does, under one name or under two that differ
    in letter case. */
module MergeLaws {
  import opened Json
  import opened Text
  import opened Catalog
  import opened Decoding
  import opened ReadingLaws
  import opened DecodingLaws

  // ---- short objects and arrays ----

  function Then<S>(r: Option<S>, step: Step<S>, m: Member): Option<S> {
    match r case None => None case Some(s) => step(s, m)
  }

  lemma OneMember<S>(step: Step<S>, prior: S, a: Member)
    ensures Members(step, prior, [a]) == step(prior, a)
  {
    assert [a][..0] == [];
  }

  lemma TwoMembers<S>(step: Step<S>, prior: S, a: Member, b: Member)
    ensures Members(step, prior, [a, b]) == Then(step(prior, a), step, b)
  {
    OneMember(step, prior, a);
    assert [a, b][..1] == [a];
  }

  lemma ThreeMembers<S>(step: Step<S>, prior: S, a: Member, b: Member, c: Member)
    ensures Members(step, prior, [a, b, c]) == Then(Then(step(prior, a), step, b), step, c)
  {
    TwoMembers(step, prior, a, b);
    assert [a, b, c][..2] == [a, b];
  }

  lemma OneItem<T>(read: Reader<T>, zero: T, room: seq<T>, j: Json)
    ensures Items(read, zero, room, [j]) ==
            match read(if room == [] then zero else room[0], j) case None => None case Some(s) => Some([s])
  {
    var first := read(if room == [] then zero else room[0], j);
    assert [j][..0] == [] && [j][0] == j;
    assert Items(read, zero, room, []) == Some([]);
    if first.Some? {
      assert [] + [first.value] == [first.value];
    }
  }

  /** Names in lower case are their own folds. */
  lemma LowerFold(name: string)
    requires forall c :: c in name ==> FoldChar(c) == c
    ensures Fold(name) == name
  {
  }

  // ---- two lists ----

  /** An entry with two lists of trust manifests. */
  function TwoLists(first: string, earlier: seq<Json>, second: string, later: seq<Json>): Json {
    Obj([Member(first, Arr(earlier)), Member(second, Arr(later))])
  }

  lemma {:induction false} AppendedTo(room: seq<History>, items: seq<Json>)
    ensures Items(Append, [], room, items).Some?
    ensures forall k :: 0 <= k < |items| ==>
      Items(Append, [], room, items).value[k] == (if k < |room| then room[k] else []) + [items[k]]
  {
    if items != [] {
      AppendedTo(room, items[..|items| - 1]);
    }
  }

  /** What the earlier list left in place k, and the later value. */
  function TwoValues(earlier: seq<Json>, later: seq<Json>, k: nat): History
    requires k < |later|
  {
    (if k < |earlier| then [earlier[k]] else []) + [later[k]]
  }

  lemma ListRecorded(hs: Slice<History>, m: Member)
    requires Meets(m, TRUST_MANIFESTS) && m.value.Arr?
    ensures var r := RecordMember(hs, m);
            && r.Some? && |r.value.items| == |m.value.items|
            && (m.value.items == [] ==> r.value == Slice([], []))
            && forall k :: 0 <= k < |m.value.items| ==>
                 r.value.items[k] == (if k < |hs.Room()| then hs.Room()[k] else []) + [m.value.items[k]]
  {
    AppendedTo(hs.Room(), m.value.items);
  }

  lemma FirstListRoom(m: Member)
    requires Meets(m, TRUST_MANIFESTS) && m.value.Arr?
    ensures var r := RecordMember(Slice([], []), m);
            && r.Some? && |r.value.Room()| == |m.value.items|
            && forall k :: 0 <= k < |m.value.items| ==> r.value.Room()[k] == [m.value.items[k]]
  {
    var none: Slice<History> := Slice([], []);
    assert none.Room() == [];
    ListRecorded(none, m);
    var r := RecordMember(none, m).value;
    assert r.spare == [] && r.Room() == r.items;
  }

  lemma TwoListsRecorded(first: string, earlier: seq<Json>, second: string, later: seq<Json>)
    requires Fold(first) == Fold(second) == TRUST_MANIFESTS
    ensures var r := RecordEntry(Slice([], []), TwoLists(first, earlier, second, later));
            && r.Some? && |r.value.items| == |later|
            && forall k :: 0 <= k < |later| ==> r.value.items[k] == TwoValues(earlier, later, k)
  {
    var ms := TwoLists(first, earlier, second, later).members;
    TwoMembers(RecordMember, Slice([], []), ms[0], ms[1]);
    FirstListRoom(ms[0]);
    ListRecorded(RecordMember(Slice([], []), ms[0]).value, ms[1]);
  }

  /** The later manifest gives anew all that the earlier one says. */
  predicate SaysAllOf(later: Json, earlier: Json) {
    var before := ReadStatement(earlier);
    before.Some? && Overrides(later, before.value)
  }

  lemma TwoSettle(a: Json, b: Json)
    ensures Settles([a] + [b]) <==> SaysAllOf(b, a)
  {
    assert ([a] + [b])[..1] == [a] && [a][..0] == [];
    assert ReadAll([]) == Some(UNSTATED) && ReadAll([a]) == ReadStatement(a);
  }

  lemma OneSettles(b: Json)
    ensures Settles([] + [b])
  {
    FreshSettles([] + [b]);
  }

  /** Of an entry with two lists every decoded manifest says what its raw value says,
      exactly when each manifest of the later list gives anew all that the one in its place
      says in the earlier. */
  lemma TwoListsIff(first: string, earlier: seq<Json>, second: string, later: seq<Json>)
    requires Fold(first) == Fold(second) == TRUST_MANIFESTS
    requires ReadEntry(NO_ENTRY, TwoLists(first, earlier, second, later)).Some?
    ensures OwnStatements(ReadEntry(NO_ENTRY, TwoLists(first, earlier, second, later)).value) <==>
            forall k :: 0 <= k < |earlier| && k < |later| ==> SaysAllOf(later[k], earlier[k])
  {
    var entry := TwoLists(first, earlier, second, later);
    TwoListsRecorded(first, earlier, second, later);
    EntryTells(NO_ENTRY, Slice([], []), entry.members);
    EntrySettles(ReadEntry(NO_ENTRY, entry).value, RecordEntry(Slice([], []), entry).value);
    forall k | 0 <= k < |later|
      ensures Settles(TwoValues(earlier, later, k)) <==>
              (k < |earlier| ==> SaysAllOf(later[k], earlier[k]))
    {
      if k < |earlier| { TwoSettle(earlier[k], later[k]); } else { OneSettles(later[k]); }
    }
  }

  // ---- a version from another list ----

  function SubjectObject(identifier: string, typ: string, digest: string): seq<Member> {
    [Member("identifier", Str(identifier)), Member("type", Str(typ)), Member("digest", Str(digest))]
  }

  lemma SubjectNames()
    ensures Fold("identifier") == "identifier" && Fold("type") == "type" && Fold("digest") == "digest"
    ensures Fold("version") == "version"
  {
    LowerFold("identifier");
    LowerFold("type");
    LowerFold("digest");
    LowerFold("version");
  }

  lemma StatementNames()
    ensures Fold("subject") == "subject" && Fold("contributor") == "contributor" && Fold("entries") == ENTRIES
  {
    LowerFold("subject");
    LowerFold("contributor");
    LowerFold("entries");
  }

  lemma ListNames()
    ensures Fold("trustManifests") == Fold("TrustManifests") == TRUST_MANIFESTS
  {
    assert Fold("trustManifests") == TRUST_MANIFESTS;
    assert Fold("TrustManifests") == TRUST_MANIFESTS;
  }

  lemma SubjectInto(prior: Subject, identifier: string, typ: string, digest: string)
    ensures Members(SubjectMember, prior, SubjectObject(identifier, typ, digest)) ==
            Some(Subject(identifier, prior.version, typ, digest))
  {
    var ms := SubjectObject(identifier, typ, digest);
    SubjectNames();
    ThreeMembers(SubjectMember, prior, ms[0], ms[1], ms[2]);
    assert ms == [ms[0], ms[1], ms[2]];
    var one := prior.(identifier := identifier);
    var two := one.(typ := typ);
    assert SubjectMember(prior, ms[0]) == Some(one);
    assert SubjectMember(one, ms[1]) == Some(two);
    assert SubjectMember(two, ms[2]) == Some(two.(digest := digest));
    assert two.(digest := digest) == Subject(identifier, prior.version, typ, digest);
  }

  /** A manifest without a version, and what an earlier list may hold in its place. */
  function Unversioned(contributor: string, identifier: string, typ: string, digest: string): Json {
    Obj([Member("contributor", Str(contributor)), Member("subject", Obj(SubjectObject(identifier, typ, digest)))])
  }

  function VersionAlone(version: string): Json {
    Obj([Member("subject", Obj([Member("version", Str(version))]))])
  }

  lemma UnversionedInto(prior: Option<Subject>, contributor: string, identifier: string, typ: string, digest: string)
    ensures ReadManifest(Statement("", prior, None), Unversioned(contributor, identifier, typ, digest)) ==
            Some(Statement(contributor,
                Some(Subject(identifier, if prior.Some? then prior.value.version else "", typ, digest)), None))
  {
    var ms := Unversioned(contributor, identifier, typ, digest).members;
    StatementNames();
    TwoMembers(StatementMember, Statement("", prior, None), ms[0], ms[1]);
    SubjectInto(if prior.Some? then prior.value else NO_SUBJECT, identifier, typ, digest);
  }

  lemma VersionAloneRead(version: string)
    ensures ReadStatement(VersionAlone(version)) == Some(Statement("", Some(Subject("", version, "", "")), None))
  {
    SubjectNames();
    StatementNames();
    OneMember(SubjectMember, NO_SUBJECT, Member("version", Str(version)));
    OneMember(StatementMember, UNSTATED, VersionAlone(version).members[0]);
  }

  lemma ListRead(v: EntryView, m: Member, j: Json, st: Statement)
    requires Meets(m, TRUST_MANIFESTS) && m.value == Arr([j]) && |v.manifests.Room()| <= 1
    requires ReadManifest(if v.manifests.Room() == [] then UNSTATED else v.manifests.Room()[0], j) == Some(st)
    ensures EntryMember(v, m) == Some(EntryView(Slice([st], []), [j]))
  {
    OneItem(ReadManifest, UNSTATED, v.manifests.Room(), j);
  }

  lemma TwoListsRead(first: string, earlier: Json, second: string, later: Json, before: Statement, after: Statement)
    requires Fold(first) == Fold(second) == TRUST_MANIFESTS
    requires ReadStatement(earlier) == Some(before) && ReadManifest(before, later) == Some(after)
    ensures ReadEntry(NO_ENTRY, TwoLists(first, [earlier], second, [later])) ==
            Some(EntryView(Slice([after], []), [later]))
  {
    var ms := TwoLists(first, [earlier], second, [later]).members;
    ListRead(NO_ENTRY, ms[0], earlier, before);
    ListRead(EntryView(Slice([before], []), [earlier]), ms[1], later, after);
    TwoMembers(EntryMember, NO_ENTRY, ms[0], ms[1]);
  }

  /** A document of one entry. */
  function OneEntry(entry: Json): Json {
    Obj([Member("entries", Arr([entry]))])
  }

  lemma OneEntryRead(entry: Json, v: EntryView)
    requires ReadEntry(NO_ENTRY, entry) == Some(v)
    ensures ReadEntries(OneEntry(entry)) == Some([v])
  {
    var none: Slice<EntryView> := Slice([], []);
    var m := OneEntry(entry).members[0];
    StatementNames();
    assert none.Room() == [];
    OneItem(ReadEntry, NO_ENTRY, none.Room(), entry);
    OneMember(DocumentMember, none, m);
  }

  /** The manifest with any version from an earlier list under first, itself under second. */
  function Merging(first: string, second: string, version: string, manifest: Json): Json {
    OneEntry(TwoLists(first, [VersionAlone(version)], second, [manifest]))
  }

  /** In an entry that repeats its list of trust manifests, what an earlier list says
      stays where the later one is silent, and only the later one is raw: every manifest
      without a version, whatever else it says, can so be decoded with any version. */
  lemma RepeatedListMerges(first: string, second: string, version: string, contributor: string, identifier: string,
      typ: string, digest: string)
    requires Fold(first) == Fold(second) == TRUST_MANIFESTS
    ensures var manifest := Unversioned(contributor, identifier, typ, digest);
            var merged := Statement(contributor, Some(Subject(identifier, version, typ, digest)), None);
            && ReadStatement(manifest) == Some(Statement(contributor, Some(Subject(identifier, "", typ, digest)), None))
            && ReadEntries(Merging(first, second, version, manifest)) ==
               Some([EntryView(Slice([merged], []), [manifest])])
    ensures version != "" ==>
              !Settled(Merging(first, second, version, Unversioned(contributor, identifier, typ, digest)))
  {
    var manifest := Unversioned(contributor, identifier, typ, digest);
    var before := Statement("", Some(Subject("", version, "", "")), None);
    var after := Statement(contributor, Some(Subject(identifier, version, typ, digest)), None);
    UnversionedInto(None, contributor, identifier, typ, digest);
    UnversionedInto(before.subject, contributor, identifier, typ, digest);
    VersionAloneRead(version);
    TwoListsRead(first, VersionAlone(version), second, manifest, before, after);
    var v := EntryView(Slice([after], []), [manifest]);
    OneEntryRead(TwoLists(first, [VersionAlone(version)], second, [manifest]), v);
    StatementsAreServedIff(Merging(first, second, version, manifest));
    assert OwnStatements(v) ==> Some(after) == ReadStatement(v.raw[0]);
    assert [v][0] == v;
  }

  /** No object of such a document need repeat a name: two cases of the name suffice. */
  lemma MixedCaseMerges(version: string, contributor: string, identifier: string, typ: string, digest: string)
    ensures Fold("trustManifests") == Fold("TrustManifests") == TRUST_MANIFESTS
    ensures UniqueNamed(Merging("trustManifests", "TrustManifests", version,
                                Unversioned(contributor, identifier, typ, digest)))
  {
    ListNames();
    SubjectIsUnique(identifier, typ, digest);
    assert "contributor"[0] != "subject"[0];
    PairIsUnique(Member("contributor", Str(contributor)),
        Member("subject", Obj(SubjectObject(identifier, typ, digest))));
    VersionIsUnique(version);
    ListsAreUnique(VersionAlone(version), Unversioned(contributor, identifier, typ, digest));
  }

  lemma VersionIsUnique(version: string)
    ensures UniqueNamed(VersionAlone(version))
  {
    MemberIsUnique(Member("version", Str(version)));
    MemberIsUnique(Member("subject", Obj([Member("version", Str(version))])));
  }

  lemma ListsAreUnique(earlier: Json, later: Json)
    requires UniqueNamed(earlier) && UniqueNamed(later)
    ensures UniqueNamed(OneEntry(TwoLists("trustManifests", [earlier], "TrustManifests", [later])))
  {
    var entry := TwoLists("trustManifests", [earlier], "TrustManifests", [later]);
    assert "trustManifests"[0] != "TrustManifests"[0];
    AloneIsUnique(earlier);
    AloneIsUnique(later);
    PairIsUnique(Member("trustManifests", Arr([earlier])), Member("TrustManifests", Arr([later])));
    AloneIsUnique(entry);
    MemberIsUnique(Member("entries", Arr([entry])));
  }

  lemma AloneIsUnique(j: Json)
    requires UniqueNamed(j)
    ensures UniqueNamed(Arr([j]))
  {
  }

  lemma MemberIsUnique(a: Member)
    requires UniqueNamed(a.value)
    ensures UniqueNamed(Obj([a]))
  {
  }

  lemma PairIsUnique(a: Member, b: Member)
    requires a.name != b.name && UniqueNamed(a.value) && UniqueNamed(b.value)
    ensures UniqueNamed(Obj([a, b]))
  {
  }

  lemma SubjectIsUnique(identifier: string, typ: string, digest: string)
    ensures UniqueNamed(Obj(SubjectObject(identifier, typ, digest)))
  {
    DistinctLengths(SubjectObject(identifier, typ, digest));
  }

  lemma DistinctLengths(ms: seq<Member>)
    requires forall i, j :: 0 <= i < j < |ms| ==> |ms[i].name| != |ms[j].name|
    ensures DistinctNames(ms)
  {
  }
}
