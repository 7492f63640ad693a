/** When the decoded manifests of a document say what their raw values say. */
module DecodingLaws {
  import opened Json
  import opened Text
  import opened Catalog
  import opened Decoding
  import opened ReadingLaws

  // ---- what is written into each place ----

  /** The raw values decoded into one place, in order. */
  type History = seq<Json>

  function Append(h: History, j: Json): Option<History> {
    Some(h + [j])
  }

  function RecordMember(hs: Slice<History>, m: Member): Option<Slice<History>> {
    if Fold(m.name) != TRUST_MANIFESTS then Some(hs) else ReadSlice(Append, [], hs, m.value)
  }

  function RecordEntry(hs: Slice<History>, j: Json): Option<Slice<History>> {
    Object(RecordMember, hs, j)
  }

  function RecordDocument(ds: Slice<Slice<History>>, m: Member): Option<Slice<Slice<History>>> {
    if Fold(m.name) != ENTRIES then Some(ds) else ReadSlice(RecordEntry, Slice([], []), ds, m.value)
  }

  /** For every entry the histories of its trust manifests. */
  function Histories(document: Json): Option<Slice<Slice<History>>> {
    Object(RecordDocument, Slice([], []), document)
  }

  /** The statement a history leaves. */
  function ReadAll(h: History): Option<Statement> {
    if h == [] then Some(UNSTATED)
    else match ReadAll(h[..|h| - 1]) case None => None case Some(st) => ReadManifest(st, h[|h| - 1])
  }

  /** The last value gives anew all that those before it left. */
  predicate Settles(h: History) {
    h != [] && var before := ReadAll(h[..|h| - 1]); before.Some? && Overrides(h[|h| - 1], before.value)
  }

  predicate AllSettle(hs: Slice<History>) {
    forall k :: 0 <= k < |hs.items| ==> Settles(hs.items[k])
  }

  /** In every place of the document the last list says all over again. */
  predicate Settled(document: Json) {
    var ds := Histories(document);
    ds.Some? && forall i :: 0 <= i < |ds.value.items| ==> AllSettle(ds.value.items[i])
  }

  // ---- one decoding follows another ----

  predicate Matches<T, U>(r: (T, U) -> bool, a: Slice<T>, b: Slice<U>) {
    && |a.items| == |b.items| && |a.spare| == |b.spare|
    && forall k :: 0 <= k < |a.Room()| ==> r(a.Room()[k], b.Room()[k])
  }

  /** Readers that keep a relation between what they read into. */
  ghost predicate Follows<T(!new), U(!new)>(read: Reader<T>, zero: T, follow: Reader<U>, start: U, r: (T, U) -> bool) {
    && r(zero, start)
    && forall t, u, j :: r(t, u) && read(t, j).Some? ==> follow(u, j).Some? && r(read(t, j).value, follow(u, j).value)
  }

  predicate Related<T, U>(r: (T, U) -> bool, ts: seq<T>, us: seq<U>) {
    |ts| == |us| && forall k :: 0 <= k < |ts| ==> r(ts[k], us[k])
  }

  lemma {:induction false} ItemsFollow<T(!new), U(!new)>(read: Reader<T>, zero: T, follow: Reader<U>, start: U,
      r: (T, U) -> bool, ts: seq<T>, us: seq<U>, items: seq<Json>)
    requires Follows(read, zero, follow, start, r) && Related(r, ts, us) && Items(read, zero, ts, items).Some?
    ensures Items(follow, start, us, items).Some?
    ensures Related(r, Items(read, zero, ts, items).value, Items(follow, start, us, items).value)
  {
    if items != [] {
      var n := |items| - 1;
      ItemsFollow(read, zero, follow, start, r, ts, us, items[..n]);
      var t, u := if n < |ts| then ts[n] else zero, if n < |us| then us[n] else start;
      assert r(t, u) && read(t, items[n]).Some?;
    }
  }

  lemma SliceFollows<T(!new), U(!new)>(read: Reader<T>, zero: T, follow: Reader<U>, start: U, r: (T, U) -> bool,
      a: Slice<T>, b: Slice<U>, j: Json)
    requires Follows(read, zero, follow, start, r) && Matches(r, a, b) && ReadSlice(read, zero, a, j).Some?
    ensures ReadSlice(follow, start, b, j).Some?
    ensures Matches(r, ReadSlice(read, zero, a, j).value, ReadSlice(follow, start, b, j).value)
  {
    if j.Arr? && j.items != [] {
      ItemsFollow(read, zero, follow, start, r, a.Room(), b.Room(), j.items);
    }
  }

  lemma {:induction false} MembersFollow<T(!new), U(!new)>(step: Step<T>, follow: Step<U>, r: (T, U) -> bool,
      t: T, u: U, ms: seq<Member>)
    requires r(t, u) && Members(step, t, ms).Some?
    requires forall t, u, m ::
      r(t, u) && step(t, m).Some? ==> follow(u, m).Some? && r(step(t, m).value, follow(u, m).value)
    ensures Members(follow, u, ms).Some? && r(Members(step, t, ms).value, Members(follow, u, ms).value)
  {
    if ms != [] {
      MembersFollow(step, follow, r, t, u, ms[..|ms| - 1]);
    }
  }

  // ---- the histories record the decoding ----

  predicate Leaves(st: Statement, h: History) {
    ReadAll(h) == Some(st)
  }

  /** Raw values are the last of their histories. */
  predicate EndsWith(raw: seq<Json>, hs: seq<History>) {
    |raw| == |hs| && forall k :: 0 <= k < |raw| ==> hs[k] != [] && hs[k][|hs[k]| - 1] == raw[k]
  }

  predicate Tells(v: EntryView, hs: Slice<History>) {
    Matches(Leaves, v.manifests, hs) && EndsWith(v.raw, hs.items)
  }

  lemma ManifestFollows()
    ensures Follows(ReadManifest, UNSTATED, Append, [], Leaves)
  {
    forall st: Statement, h: History, j: Json | Leaves(st, h) && ReadManifest(st, j).Some?
      ensures Leaves(ReadManifest(st, j).value, h + [j])
    {
      assert (h + [j])[..|h|] == h;
    }
  }

  lemma {:induction false} Appended(room: seq<History>, items: seq<Json>)
    ensures Items(Append, [], room, items).Some? && EndsWith(items, Items(Append, [], room, items).value)
  {
    if items != [] {
      Appended(room, items[..|items| - 1]);
    }
  }

  lemma EntryStepTells(v: EntryView, hs: Slice<History>, m: Member)
    requires Tells(v, hs) && EntryMember(v, m).Some?
    ensures RecordMember(hs, m).Some? && Tells(EntryMember(v, m).value, RecordMember(hs, m).value)
  {
    if Fold(m.name) == TRUST_MANIFESTS {
      ManifestFollows();
      SliceFollows(ReadManifest, UNSTATED, Append, [], Leaves, v.manifests, hs, m.value);
      if m.value.Arr? { Appended(hs.Room(), m.value.items); }
    }
  }

  lemma {:induction false} EntryTells(v: EntryView, hs: Slice<History>, ms: seq<Member>)
    requires Tells(v, hs) && Members(EntryMember, v, ms).Some?
    ensures Members(RecordMember, hs, ms).Some?
    ensures Tells(Members(EntryMember, v, ms).value, Members(RecordMember, hs, ms).value)
  {
    if ms != [] {
      var most := ms[..|ms| - 1];
      EntryTells(v, hs, most);
      EntryStepTells(Members(EntryMember, v, most).value, Members(RecordMember, hs, most).value, ms[|ms| - 1]);
    }
  }

  lemma EntryFollows()
    ensures Follows(ReadEntry, NO_ENTRY, RecordEntry, Slice([], []), Tells)
  {
    forall v: EntryView, hs: Slice<History>, j: Json | Tells(v, hs) && ReadEntry(v, j).Some?
      ensures RecordEntry(hs, j).Some? && Tells(ReadEntry(v, j).value, RecordEntry(hs, j).value)
    {
      if j.Obj? { EntryTells(v, hs, j.members); }
    }
  }

  lemma DocumentStepTells(vs: Slice<EntryView>, ds: Slice<Slice<History>>, m: Member)
    requires Matches(Tells, vs, ds) && DocumentMember(vs, m).Some?
    ensures RecordDocument(ds, m).Some? && Matches(Tells, DocumentMember(vs, m).value, RecordDocument(ds, m).value)
  {
    if Fold(m.name) == ENTRIES {
      EntryFollows();
      SliceFollows(ReadEntry, NO_ENTRY, RecordEntry, Slice([], []), Tells, vs, ds, m.value);
    }
  }

  lemma {:induction false} MembersTell(vs: Slice<EntryView>, ds: Slice<Slice<History>>, ms: seq<Member>)
    requires Matches(Tells, vs, ds) && Members(DocumentMember, vs, ms).Some?
    ensures Members(RecordDocument, ds, ms).Some?
    ensures Matches(Tells, Members(DocumentMember, vs, ms).value, Members(RecordDocument, ds, ms).value)
  {
    if ms != [] {
      var most := ms[..|ms| - 1];
      MembersTell(vs, ds, most);
      DocumentStepTells(Members(DocumentMember, vs, most).value, Members(RecordDocument, ds, most).value,
          ms[|ms| - 1]);
    }
  }

  /** Every decoded manifest is what its history leaves, and its raw value ends it. */
  lemma HistoriesTell(document: Json)
    requires ReadEntries(document).Some?
    ensures Histories(document).Some? && |Histories(document).value.items| == |ReadEntries(document).value|
    ensures forall i :: 0 <= i < |ReadEntries(document).value| ==>
      Tells(ReadEntries(document).value[i], Histories(document).value.items[i])
  {
    var vs: Slice<EntryView>, ds: Slice<Slice<History>> := Slice([], []), Slice([], []);
    if document.Obj? {
      MembersTell(vs, ds, document.members);
      vs := Members(DocumentMember, vs, document.members).value;
      ds := Members(RecordDocument, ds, document.members).value;
    }
    assert forall i :: 0 <= i < |vs.items| ==> vs.Room()[i] == vs.items[i] && ds.Room()[i] == ds.items[i];
  }

  // ---- where raw manifests and statements belong together ----

  /** Each statement is that of its raw manifest alone. */
  predicate OwnStatements(v: EntryView) {
    |v.manifests.items| == |v.raw| && forall k :: 0 <= k < |v.raw| ==>
        ReadStatement(v.raw[k]) == Some(v.manifests.items[k])
  }

  predicate AllOwn(vs: seq<EntryView>) {
    forall i :: 0 <= i < |vs| ==> OwnStatements(vs[i])
  }

  lemma AloneReadable(st: Statement, j: Json)
    requires ReadManifest(st, j).Some?
    ensures ReadStatement(j).Some?
  {
    if j.Obj? { StatementReadable(st, UNSTATED, j.members); }
  }

  lemma SettlesIff(st: Statement, h: History)
    requires Leaves(st, h) && h != []
    ensures ReadStatement(h[|h| - 1]) == Some(st) <==> Settles(h)
  {
    var before, last := ReadAll(h[..|h| - 1]).value, h[|h| - 1];
    AloneReadable(before, last);
    ReadOverIff(before, last);
  }

  lemma EntrySettles(v: EntryView, hs: Slice<History>)
    requires Tells(v, hs)
    ensures OwnStatements(v) <==> AllSettle(hs)
  {
    forall k | 0 <= k < |v.raw|
      ensures ReadStatement(v.raw[k]) == Some(v.manifests.items[k]) <==> Settles(hs.items[k])
    {
      assert v.manifests.Room()[k] == v.manifests.items[k] && hs.Room()[k] == hs.items[k];
      SettlesIff(v.manifests.items[k], hs.items[k]);
    }
  }

  /** Every decoded manifest says what its raw value alone says, exactly when in each
      place the last list gives anew all that earlier lists left there. */
  lemma StatementsAreServedIff(document: Json)
    requires ReadEntries(document).Some?
    ensures AllOwn(ReadEntries(document).value) <==> Settled(document)
  {
    HistoriesTell(document);
    var vs, ds := ReadEntries(document).value, Histories(document).value.items;
    forall i | 0 <= i < |vs| ensures OwnStatements(vs[i]) <==> AllSettle(ds[i]) {
      EntrySettles(vs[i], ds[i]);
    }
  }

  // ---- lists that are not repeated ----

  predicate Once(ms: seq<Member>, field: string) {
    forall i, j :: 0 <= i < j < |ms| ==> !Meets(ms[i], field) || !Meets(ms[j], field)
  }

  predicate EntryOnce(j: Json) {
    j.Obj? ==> Once(j.members, TRUST_MANIFESTS)
  }

  predicate EntriesOnce(m: Member) {
    Meets(m, ENTRIES) && m.value.Arr? ==> forall i :: 0 <= i < |m.value.items| ==> EntryOnce(m.value.items[i])
  }

  /** Neither the list of entries nor an entry's list of trust manifests is repeated, in
      whatever case. */
  predicate ListsOnce(document: Json) {
    document.Obj? ==>
      Once(document.members, ENTRIES) && forall i :: 0 <= i < |document.members| ==> EntriesOnce(document.members[i])
  }

  /** No object has two names that differ in letter case alone, at any depth. */
  predicate UniqueFolded(j: Json) {
    match j
    case Arr(items) => forall i :: 0 <= i < |items| ==> UniqueFolded(items[i])
    case Obj(ms) =>
      && (forall i, k :: 0 <= i < k < |ms| ==> Fold(ms[i].name) != Fold(ms[k].name))
      && forall i :: 0 <= i < |ms| ==> UniqueFolded(ms[i].value)
    case _ => true
  }

  lemma {:induction false} FoldedIsUnique(j: Json)
    requires UniqueFolded(j)
    ensures UniqueNamed(j)
  {
    match j {
      case Arr(items) =>
        forall i | 0 <= i < |items| ensures UniqueNamed(items[i]) { FoldedIsUnique(items[i]); }
      case Obj(ms) =>
        forall i | 0 <= i < |ms| ensures UniqueNamed(ms[i].value) { FoldedIsUnique(ms[i].value); }
        forall i, k | 0 <= i < k < |ms| ensures ms[i].name != ms[k].name {
          assert Fold(ms[i].name) != Fold(ms[k].name);
        }
      case _ =>
    }
  }

  lemma UniqueListsOnce(document: Json)
    requires UniqueFolded(document)
    ensures ListsOnce(document)
  {
    if document.Obj? {
      forall i | 0 <= i < |document.members| ensures EntriesOnce(document.members[i]) {
        assert UniqueFolded(document.members[i].value);
      }
    }
  }

  lemma OnceInit(ms: seq<Member>, field: string)
    requires ms != [] && Once(ms, field)
    ensures Once(ms[..|ms| - 1], field)
    ensures Meets(ms[|ms| - 1], field) ==> !Gives(ms[..|ms| - 1], field)
  {
  }

  lemma {:induction false} Untouched<S>(step: Step<S>, prior: S, ms: seq<Member>, field: string)
    requires !Gives(ms, field)
    requires forall s, m :: !Meets(m, field) ==> step(s, m) == Some(s)
    ensures Members(step, prior, ms) == Some(prior)
  {
    if ms != [] {
      assert !Meets(ms[|ms| - 1], field);
      assert forall i :: 0 <= i < |ms| - 1 ==> ms[..|ms| - 1][i] == ms[i];
      Untouched(step, prior, ms[..|ms| - 1], field);
    }
  }

  /** Every place was written once. */
  predicate Fresh(hs: Slice<History>) {
    forall k :: 0 <= k < |hs.items| ==> |hs.items[k]| == 1
  }

  lemma {:induction false} FreshItems(items: seq<Json>)
    requires Items(Append, [], [], items).Some?
    ensures forall k :: 0 <= k < |items| ==> |Items(Append, [], [], items).value[k]| == 1
  {
    if items != [] {
      FreshItems(items[..|items| - 1]);
    }
  }

  lemma {:induction false} EntryIsFresh(ms: seq<Member>)
    requires Once(ms, TRUST_MANIFESTS) && Members(RecordMember, Slice([], []), ms).Some?
    ensures Fresh(Members(RecordMember, Slice([], []), ms).value)
  {
    if ms != [] {
      var most, last := ms[..|ms| - 1], ms[|ms| - 1];
      OnceInit(ms, TRUST_MANIFESTS);
      EntryIsFresh(most);
      if Meets(last, TRUST_MANIFESTS) {
        Untouched(RecordMember, Slice([], []), most, TRUST_MANIFESTS);
        if last.value.Arr? && last.value.items != [] {
          FreshRoom();
          FreshItems(last.value.items);
        }
      }
    }
  }

  lemma FreshRoom()
    ensures var none: Slice<History> := Slice([], []); none.Room() == []
  {
  }

  lemma {:induction false} EntriesAreFresh(items: seq<Json>)
    requires Items(RecordEntry, Slice([], []), [], items).Some?
    requires forall i :: 0 <= i < |items| ==> EntryOnce(items[i])
    ensures forall i :: 0 <= i < |items| ==> Fresh(Items(RecordEntry, Slice([], []), [], items).value[i])
  {
    if items != [] {
      var last := items[|items| - 1];
      EntriesAreFresh(items[..|items| - 1]);
      if last.Obj? { EntryIsFresh(last.members); }
    }
  }

  lemma {:induction false} DocumentIsFresh(ms: seq<Member>)
    requires Once(ms, ENTRIES) && (forall i :: 0 <= i < |ms| ==> EntriesOnce(ms[i]))
    requires Members(RecordDocument, Slice([], []), ms).Some?
    ensures var ds := Members(RecordDocument, Slice([], []), ms).value.items;
            forall i :: 0 <= i < |ds| ==> Fresh(ds[i])
  {
    if ms != [] {
      var most, last := ms[..|ms| - 1], ms[|ms| - 1];
      OnceInit(ms, ENTRIES);
      DocumentIsFresh(most);
      if Meets(last, ENTRIES) {
        Untouched(RecordDocument, Slice([], []), most, ENTRIES);
        if last.value.Arr? && last.value.items != [] {
          var none: Slice<Slice<History>> := Slice([], []);
          assert none.Room() == [];
          EntriesAreFresh(last.value.items);
        }
      }
    }
  }

  lemma FreshSettles(h: History)
    requires |h| == 1
    ensures Settles(h)
  {
    assert ReadAll(h[..0]) == Some(UNSTATED);
  }

  /** Where no list is repeated, every decoded manifest says what its raw value says. */
  lemma StatementsAreServed(document: Json)
    requires ListsOnce(document) && ReadEntries(document).Some?
    ensures Settled(document) && AllOwn(ReadEntries(document).value)
  {
    HistoriesTell(document);
    if document.Obj? { DocumentIsFresh(document.members); }
    var ds := Histories(document).value.items;
    forall i, k | 0 <= i < |ds| && 0 <= k < |ds[i].items| ensures Settles(ds[i].items[k]) {
      assert Fresh(ds[i]);
      FreshSettles(ds[i].items[k]);
    }
    StatementsAreServedIff(document);
  }

  // ---- raw manifests of a document without such names ----

  /** Reading values of one kind keeps what is there of one kind. */
  ghost predicate Keeps<T(!new)>(read: Reader<T>, kept: T -> bool, given: Json -> bool) {
    forall t, j :: kept(t) && given(j) && read(t, j).Some? ==> kept(read(t, j).value)
  }

  predicate AllKept<T>(kept: T -> bool, ts: seq<T>) {
    forall k :: 0 <= k < |ts| ==> kept(ts[k])
  }

  lemma {:induction false} ItemsKeep<T(!new)>(read: Reader<T>, zero: T, kept: T -> bool, given: Json -> bool,
      room: seq<T>, items: seq<Json>)
    requires Keeps(read, kept, given) && kept(zero) && AllKept(kept, room)
    requires (forall k :: 0 <= k < |items| ==> given(items[k])) && Items(read, zero, room, items).Some?
    ensures AllKept(kept, Items(read, zero, room, items).value)
  {
    if items != [] {
      var n := |items| - 1;
      ItemsKeep(read, zero, kept, given, room, items[..n]);
      assert given(items[n]);
    }
  }

  predicate FoldedRaw(v: EntryView) {
    forall k :: 0 <= k < |v.raw| ==> UniqueFolded(v.raw[k])
  }

  lemma {:induction false} EntryKeepsFolded(v: EntryView, ms: seq<Member>)
    requires FoldedRaw(v) && Members(EntryMember, v, ms).Some?
    requires forall i :: 0 <= i < |ms| ==> UniqueFolded(ms[i].value)
    ensures FoldedRaw(Members(EntryMember, v, ms).value)
  {
    if ms != [] {
      EntryKeepsFolded(v, ms[..|ms| - 1]);
      assert UniqueFolded(ms[|ms| - 1].value);
    }
  }

  lemma EntriesKeepFolded()
    ensures Keeps(ReadEntry, FoldedRaw, UniqueFolded)
  {
    forall v: EntryView, j: Json | FoldedRaw(v) && UniqueFolded(j) && ReadEntry(v, j).Some?
      ensures FoldedRaw(ReadEntry(v, j).value)
    {
      if j.Obj? { EntryKeepsFolded(v, j.members); }
    }
  }

  lemma {:induction false} DocumentKeepsFolded(ms: seq<Member>)
    requires Members(DocumentMember, Slice([], []), ms).Some?
    requires forall i :: 0 <= i < |ms| ==> UniqueFolded(ms[i].value)
    ensures AllKept(FoldedRaw, Members(DocumentMember, Slice([], []), ms).value.Room())
  {
    if ms != [] {
      var last := ms[|ms| - 1];
      DocumentKeepsFolded(ms[..|ms| - 1]);
      var vs := Members(DocumentMember, Slice([], []), ms[..|ms| - 1]).value;
      if Meets(last, ENTRIES) && last.value.Arr? {
        assert UniqueFolded(last.value);
        EntriesKeepFolded();
        ItemsKeep(ReadEntry, NO_ENTRY, FoldedRaw, UniqueFolded, vs.Room(), last.value.items);
      }
    }
  }

  lemma RawIsFolded(document: Json)
    requires UniqueFolded(document) && ReadEntries(document).Some?
    ensures AllKept(FoldedRaw, ReadEntries(document).value)
  {
    if document.Obj? {
      DocumentKeepsFolded(document.members);
      var vs := Members(DocumentMember, Slice([], []), document.members).value;
      assert forall i :: 0 <= i < |vs.items| ==> vs.Room()[i] == vs.items[i];
    }
  }
}
