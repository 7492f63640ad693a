/** Properties of the validator's reports. */
module ValidatorLaws {
  import opened Json
  import opened Catalog
  import opened Diagnostics
  import opened Rules
  import opened CatalogRules
  import opened ReportLaws
  import opened Validation

  /** A catalog is valid when validating it reports no error. */
  predicate Valid(cfg: Config, c: AICatalog, room: int) {
    Silent(Error, CatalogReport(cfg, c, room))
  }

  // ---- uniqueness ----

  /** Two entries may stand in one catalog: different identifiers, or versions that
      tell them apart. */
  predicate Compatible(e: Entry, f: Entry) {
    e.identifier == f.identifier ==> e.version != "" && f.version != "" && e.version != f.version
  }

  predicate PairwiseCompatible(es: seq<Entry>) {
    forall i, j :: 0 <= i < j < |es| ==> Compatible(es[i], es[j])
  }

  /** The one-pass scan reports nothing exactly when all pairs are compatible. */
  lemma ScanDecidesUniqueness(es: seq<Entry>)
    ensures Findings(Error, Uniqueness(es)) == [] <==> PairwiseCompatible(es)
  {
    SilentIff(Error, Uniqueness(es));
    SilentScan(es);
  }

  lemma SilentScan(es: seq<Entry>)
    ensures Silent(Error, Uniqueness(es)) <==> PairwiseCompatible(es)
  {
    SilentSeries(Error, "entries", ScanParts(es), |es|);
    forall k | 0 <= k < |es| ensures Silent(Error, ScanParts(es)[k]) <==>
        forall j :: 0 <= j < k ==> Compatible(es[j], es[k]) {
      SilentEntry(es, k);
    }
  }

  lemma SilentEntry(es: seq<Entry>, i: nat)
    requires i < |es|
    ensures Silent(Error, EntryUniqueness(es, i)) <==> forall j :: 0 <= j < i ==> Compatible(es[j], es[i])
  {
    var e := es[i];
    if e.version == "" {
      assert HasID(es, i, e.identifier) <==> exists j :: 0 <= j < i && !Compatible(es[j], e);
    } else {
      assert HasPair(es, i, e.identifier, "") || HasPair(es, i, e.identifier, e.version) <==>
             exists j :: 0 <= j < i && !Compatible(es[j], e);
    }
  }

  /** In a catalog the scan passes, looking up the identifier and version of an entry
      finds that very entry. */
  lemma LookupFindsEntry(es: seq<Entry>, i: nat)
    requires i < |es| && Findings(Error, Uniqueness(es)) == []
    ensures Lookup(es, es[i].identifier, es[i].version, 0) == Some(i)
  {
    ScanDecidesUniqueness(es);
    VersionsDiffer(es);
  }

  lemma VersionsDiffer(es: seq<Entry>)
    requires PairwiseCompatible(es)
    ensures forall i, j :: 0 <= i < |es| && 0 <= j < |es| && i != j && es[i].identifier == es[j].identifier ==>
            es[i].version != es[j].version
  {
    forall i, j | 0 <= i < |es| && 0 <= j < |es| && i != j ensures Compatible(es[i], es[j]) {
      assert Compatible(es[if i < j then i else j], es[if i < j then j else i]);
    }
  }

  // ---- the order of entries ----

  lemma RemoveOne(es: seq<Entry>, i: nat)
    requires i < |es|
    ensures multiset(es) - multiset{es[i]} == multiset(es[..i]) + multiset(es[i + 1..])
  {
    assert es == es[..i] + [es[i]] + es[i + 1..];
  }

  ghost predicate AllCompatible(m: multiset<Entry>) {
    forall e, f :: e in m && f in m - multiset{e} ==> Compatible(e, f)
  }

  lemma CompatibleAsMultiset(es: seq<Entry>)
    ensures PairwiseCompatible(es) <==> AllCompatible(multiset(es))
  {
    if PairwiseCompatible(es) {
      forall e, f | e in multiset(es) && f in multiset(es) - multiset{e} ensures Compatible(e, f) {
        var i :| 0 <= i < |es| && es[i] == e;
        RemoveOne(es, i);
        assert f in es[..i] || f in es[i + 1..];
        var k :| 0 <= k < |es| && k != i && es[k] == f;
        assert Compatible(es[if i < k then i else k], es[if i < k then k else i]);
      }
    }
    if AllCompatible(multiset(es)) {
      forall i, j | 0 <= i < j < |es| ensures Compatible(es[i], es[j]) {
        RemoveOne(es, i);
        assert es[i + 1..][j - i - 1] == es[j];
        assert es[j] in multiset(es[i + 1..]);
        assert es[i] in multiset(es);
      }
    }
  }

  /** Every entry by itself is without error. */
  ghost predicate EntriesSilent(cfg: Config, es: seq<Entry>, room: int) {
    forall e :: e in es ==> Silent(Error, EntryReport(cfg, e, room))
  }

  lemma SilentEntries(cfg: Config, es: seq<Entry>, room: int)
    ensures Silent(Error, EntriesReport(cfg, es, room)) <==> EntriesSilent(cfg, es, room)
  {
    SilentSeries(Error, "entries", EntryParts(cfg, es, room), |es|);
    SameParts(cfg, es, EntryParts(cfg, es, room), room);
  }

  lemma SameParts(cfg: Config, es: seq<Entry>, parts: seq<Report>, room: int)
    requires |parts| == |es| && forall k :: 0 <= k < |es| ==> parts[k] == EntryReport(cfg, es[k], room)
    ensures (forall k :: 0 <= k < |es| ==> Silent(Error, parts[k])) <==> EntriesSilent(cfg, es, room)
  {
    if EntriesSilent(cfg, es, room) {
      forall k | 0 <= k < |es| ensures Silent(Error, parts[k]) {
        assert es[k] in es;
      }
    }
  }

  lemma ValidParts(cfg: Config, c: AICatalog, room: int)
    ensures Valid(cfg, c, room) <==>
            && Silent(Error, CatalogHead(cfg, c))
            && PairwiseCompatible(c.entries)
            && EntriesSilent(cfg, c.entries, room)
  {
    var a, b, d := CatalogHead(cfg, c), Uniqueness(c.entries), EntriesReport(cfg, c.entries, room);
    SilentScan(c.entries);
    SilentEntries(cfg, c.entries, room);
    assert CatalogReport(cfg, c, room) == Both(Both(a, b), d);
    SilentBoth(Error, Both(a, b), d);
    SilentBoth(Error, a, b);
  }

  lemma ValidityIgnoresOrder(cfg: Config, c: AICatalog, entries: seq<Entry>, room: int)
    requires multiset(entries) == multiset(c.entries)
    ensures Valid(cfg, c, room) <==> Valid(cfg, c.(entries := entries), room)
  {
    ValidParts(cfg, c, room);
    ValidParts(cfg, c.(entries := entries), room);
    HeadIgnoresEntries(cfg, c, entries);
    CompatibleAsMultiset(c.entries);
    CompatibleAsMultiset(entries);
    assert forall e :: e in entries <==> e in multiset(entries);
    assert forall e :: e in c.entries <==> e in multiset(c.entries);
  }

  lemma HeadIgnoresEntries(cfg: Config, c: AICatalog, entries: seq<Entry>)
    ensures CatalogHead(cfg, c) == CatalogHead(cfg, c.(entries := entries))
  {
  }

  // ---- nested catalogs ----

  lemma FieldsAvoidData(cfg: Config, e: Entry)
    ensures Avoids(EntryFields(cfg, e), Name("data"))
  {
    var s, first := Name("data"),
        RequiredEntryFields(e).Then(ArtifactSource(e)).Then(Timestamp(cfg, e.updatedAt, "updatedAt"));
    AvoidsFour(RequiredEntryFields(e), ArtifactSource(e), Timestamp(cfg, e.updatedAt, "updatedAt"), Nothing, s);
    AvoidsFour(first, EntryExtensions(cfg, e), At([Name("publisher")], PublisherRules(e.publisher)), Nothing, s);
  }

  lemma TrustAvoidsData(cfg: Config, e: Entry)
    ensures Avoids(EntryTrustRules(cfg, e), Name("data"))
  {
    var a, b := At([Name("digest")], DigestRules(e.digest)), ManifestsRules(cfg, e);
    var c := ErrIf(HasSigned(e.manifests, |e.manifests|) && e.digest == "", CodeEntryDigest, [Name("digest")]);
    SeriesAvoids("trustManifests", ManifestParts(cfg, e), |e.manifests|, Name("data"));
    AvoidsFour(a, b, c, Nothing, Name("data"));
  }

  lemma HeadAvoidsItems(cfg: Config, c: AICatalog, i: nat)
    ensures Avoids(CatalogHead(cfg, c), Item("entries", i))
  {
    AvoidsFour(SpecVersion(cfg, c.specVersion), Host(c.host), CatalogSignature(cfg, c), CatalogExtensions(cfg, c),
        Item("entries", i));
  }

  /** What an entry reports under "data" is its nested catalog's own report. */
  lemma UnderEntry(severity: Severity, cfg: Config, e: Entry, room: int)
    requires e.IsNestedCatalog() && e.data.Inline? && e.data.decoded.Some? && room > 0
    ensures Under([Name("data")], Findings(severity, EntryReport(cfg, e, room))) ==
            Moved([Name("data")], Findings(severity, CatalogReport(cfg, e.data.decoded.value, room - 1)))
  {
    FieldsAvoidData(cfg, e);
    TrustAvoidsData(cfg, e);
    Unreported(severity, EntryFields(cfg, e), Name("data"));
    Unreported(severity, EntryTrustRules(cfg, e), Name("data"));
    Unreported(severity, IdentifierForm(e), Name("data"));
    UnderNested(severity, cfg, e, room);
    UnderFour(severity, [Name("data")], EntryFields(cfg, e), EntryTrustRules(cfg, e), NestedReport(cfg, e, room),
        IdentifierForm(e));
  }

  lemma UnderNested(severity: Severity, cfg: Config, e: Entry, room: int)
    requires e.IsNestedCatalog() && e.data.Inline? && e.data.decoded.Some? && room > 0
    ensures Under([Name("data")], Findings(severity, NestedReport(cfg, e, room))) ==
            Moved([Name("data")], Findings(severity, CatalogReport(cfg, e.data.decoded.value, room - 1)))
  {
    UnderPlaced(severity, [Name("data")], CatalogReport(cfg, e.data.decoded.value, room - 1));
  }

  lemma UnderPlaced(severity: Severity, p: Path, part: Report)
    ensures Under(p, Findings(severity, At(p, part))) == Moved(p, Findings(severity, part))
  {
    UnderAll(p, Findings(severity, part));
  }

  lemma UnderScan(severity: Severity, es: seq<Entry>, i: nat)
    requires i < |es|
    ensures Under(Slot(i), Findings(severity, Uniqueness(es))) == []
  {
    UnderSeries(severity, ScanParts(es), |es|, i);
    Unreported(severity, EntryUniqueness(es, i), Name("data"));
  }

  lemma UnderEntries(severity: Severity, cfg: Config, es: seq<Entry>, room: int, i: nat)
    requires i < |es|
    ensures Under(Slot(i), Findings(severity, EntriesReport(cfg, es, room))) ==
            Moved([Item("entries", i)], Under([Name("data")], Findings(severity, EntryReport(cfg, es[i], room))))
  {
    UnderSeries(severity, EntryParts(cfg, es, room), |es|, i);
  }

  /** Everything reported in the slot of an inline catalog is what validating that
      catalog alone, with one level less, reports. */
  lemma NestedReportIsOwnReport(severity: Severity, cfg: Config, c: AICatalog, i: nat, room: int)
    requires Inlined(c, i).Some? && room > 0
    ensures Under(Slot(i), Findings(severity, CatalogReport(cfg, c, room))) ==
            Moved(Slot(i), Findings(severity, CatalogReport(cfg, Inlined(c, i).value, room - 1)))
  {
    var es, own := c.entries, Findings(severity, CatalogReport(cfg, Inlined(c, i).value, room - 1));
    HeadAvoidsItems(cfg, c, i);
    UnderAvoided(severity, CatalogHead(cfg, c), Item("entries", i), [Name("data")]);
    assert [Item("entries", i)] + [Name("data")] == Slot(i);
    UnderScan(severity, es, i);
    CatalogBoth(cfg, c, room);
    UnderFour(severity, Slot(i), CatalogHead(cfg, c), Uniqueness(es), EntriesReport(cfg, es, room), Nothing);
    UnderEntries(severity, cfg, es, room, i);
    UnderEntry(severity, cfg, es[i], room);
    MovedTwice([Item("entries", i)], [Name("data")], own);
  }

  lemma CatalogBoth(cfg: Config, c: AICatalog, room: int)
    ensures CatalogReport(cfg, c, room) ==
            CatalogHead(cfg, c).Then(Uniqueness(c.entries)).Then(EntriesReport(cfg, c.entries, room))
  {
  }

  /** The catalog nested in entry i, if it is inline and decodes. */
  function Inlined(c: AICatalog, i: nat): (r: Option<AICatalog>)
    ensures r.Some? ==> i < |c.entries| && r.value < c
  {
    if i < |c.entries| && c.entries[i].IsNestedCatalog() && c.entries[i].data.Inline? then c.entries[i].data.decoded
        else None
  }

  /** The catalog reached by going down through the entries route. */
  function Reached(c: AICatalog, route: seq<nat>): Option<AICatalog> {
    if route == [] then Some(c)
    else match Inlined(c, route[0]) case None => None case Some(next) => Reached(next, route[1..])
  }

  function Place(route: seq<nat>): Path {
    if route == [] then [] else Slot(route[0]) + Place(route[1..])
  }

  /** In the slot of an inline catalog, own finds what it finds for that catalog. */
  ghost predicate OwnInSlots(own: (AICatalog, int) -> seq<Diagnostic>) {
    forall c: AICatalog, i: nat, room: int :: Inlined(c, i).Some? && room > 0 ==>
      Under(Slot(i), own(c, room)) == Moved(Slot(i), own(Inlined(c, i).value, room - 1))
  }

  lemma {:induction false} OwnAtPlaces(own: (AICatalog, int) -> seq<Diagnostic>, c: AICatalog, route: seq<nat>,
      room: int)
    requires OwnInSlots(own) && Reached(c, route).Some? && |route| <= room
    ensures Under(Place(route), own(c, room)) == Moved(Place(route), own(Reached(c, route).value, room - |route|))
    decreases route
  {
    if route == [] {
      UnderEmpty(own(c, room));
      MovedNowhere(own(c, room));
    } else {
      var next, below := Inlined(c, route[0]).value, route[1..];
      OwnAtPlaces(own, next, below, room - 1);
      UnderWithin(Slot(route[0]), Place(below), own(c, room), own(next, room - 1),
          own(Reached(c, route).value, room - |route|));
    }
  }

  lemma NestedReportsAreOwnReports(severity: Severity, cfg: Config, c: AICatalog, route: seq<nat>, room: int)
    requires Reached(c, route).Some? && |route| <= room
    ensures Under(Place(route), Findings(severity, CatalogReport(cfg, c, room))) ==
            Moved(Place(route), Findings(severity, CatalogReport(cfg, Reached(c, route).value, room - |route|)))
  {
    var own := (c: AICatalog, room: int) => Findings(severity, CatalogReport(cfg, c, room));
    forall c: AICatalog, i: nat, room: int | Inlined(c, i).Some? && room > 0
      ensures Under(Slot(i), own(c, room)) == Moved(Slot(i), own(Inlined(c, i).value, room - 1))
    {
      NestedReportIsOwnReport(severity, cfg, c, i, room);
    }
    OwnAtPlaces(own, c, route, room);
  }

  /** The diagnostics in the place of a nested catalog are those of validating it as a
      document of its own, with the levels above it taken off the limit and its
      place put before its paths. */
  lemma NestedResultIsOwnResult(severity: Severity, c: AICatalog, cfg: Config, maxDepth: int, route: seq<nat>)
    requires Reached(c, route).Some? && |route| <= maxDepth
    ensures var own := Findings(severity, CatalogReport(cfg, Reached(c, route).value, maxDepth - |route|));
            && Reported(severity, Reached(c, route).value, cfg, maxDepth - |route|) == Moved(ROOT, own)
            && Under(ROOT + Place(route), Reported(severity, c, cfg, maxDepth)) == Moved(ROOT + Place(route), own)
  {
    var own := Findings(severity, CatalogReport(cfg, Reached(c, route).value, maxDepth - |route|));
    NestedReportsAreOwnReports(severity, cfg, c, route, maxDepth);
    UnderMoved(ROOT, Place(route), Findings(severity, CatalogReport(cfg, c, maxDepth)));
    MovedTwice(ROOT, Place(route), own);
  }

  lemma ValidResult(c: AICatalog, cfg: Config, maxDepth: int)
    ensures ResultOf(c, cfg, maxDepth).isValid <==> Valid(cfg, c, maxDepth)
  {
    SilentIff(Error, CatalogReport(cfg, c, maxDepth));
    assert |Reported(Error, c, cfg, maxDepth)| == |Findings(Error, CatalogReport(cfg, c, maxDepth))|;
  }

  /** Neither validity nor the level depends on the order of the entries. */
  lemma ResultIgnoresOrder(c: AICatalog, cfg: Config, maxDepth: int, entries: seq<Entry>)
    requires multiset(entries) == multiset(c.entries)
    ensures var r, r' := ResultOf(c, cfg, maxDepth), ResultOf(c.(entries := entries), cfg, maxDepth);
            r.isValid == r'.isValid && r.level == r'.level
  {
    ValidityIgnoresOrder(cfg, c, entries, maxDepth);
    ValidResult(c, cfg, maxDepth);
    ValidResult(c.(entries := entries), cfg, maxDepth);
  }

  lemma {:induction false} ValidInside(cfg: Config, c: AICatalog, room: int, route: seq<nat>)
    requires Valid(cfg, c, room) && Reached(c, route).Some?
    ensures Valid(cfg, Reached(c, route).value, room - |route|)
    decreases route
  {
    if route != [] {
      ValidEntry(cfg, c, room, route[0]);
      ValidInside(cfg, Inlined(c, route[0]).value, room - 1, route[1..]);
    }
  }

  lemma ValidEntry(cfg: Config, c: AICatalog, room: int, i: nat)
    requires Valid(cfg, c, room) && Inlined(c, i).Some?
    ensures Valid(cfg, Inlined(c, i).value, room - 1)
  {
    var e := c.entries[i];
    ValidParts(cfg, c, room);
    assert e in c.entries;
    SilentNested(cfg, e, room);
  }

  lemma SilentNested(cfg: Config, e: Entry, room: int)
    requires Silent(Error, EntryReport(cfg, e, room)) && e.IsNestedCatalog() && e.data.Inline? && e.data.decoded.Some?
    ensures Silent(Error, CatalogReport(cfg, e.data.decoded.value, room - 1))
  {
    SilentFour(Error, EntryFields(cfg, e), EntryTrustRules(cfg, e), NestedReport(cfg, e, room), IdentifierForm(e));
    SilentAt(Error, [Name("data")], CatalogReport(cfg, e.data.decoded.value, room - 1));
  }

  /** A valid catalog has only valid inline catalogs, at every level. */
  lemma ValidAtEveryLevel(c: AICatalog, cfg: Config, maxDepth: int, route: seq<nat>)
    requires ResultOf(c, cfg, maxDepth).isValid && Reached(c, route).Some?
    ensures ResultOf(Reached(c, route).value, cfg, maxDepth - |route|).isValid
  {
    ValidResult(c, cfg, maxDepth);
    ValidInside(cfg, c, maxDepth, route);
    ValidResult(Reached(c, route).value, cfg, maxDepth - |route|);
  }
}
