/** How deep catalogs nest, and what the limit on it means. */
module DepthLaws {
  import opened Json
  import opened Catalog
  import opened Diagnostics
  import opened Identity
  import opened Jws
  import opened Rules
  import opened CatalogRules
  import opened ReportLaws
  import opened PartLaws
  import opened Validation
  import opened ValidatorLaws

  /** The catalog at the end of route holds a nested catalog entry, at position i. */
  predicate NestsAt(c: AICatalog, route: seq<nat>, i: nat) {
    var reached := Reached(c, route);
    reached.Some? && i < |reached.value.entries| && reached.value.entries[i].IsNestedCatalog()
  }

  /** Every nested catalog entry that inline data leads to is less than room levels down. */
  ghost predicate ShallowerThan(c: AICatalog, room: int) {
    forall route: seq<nat>, i: nat :: NestsAt(c, route, i) ==> |route| < room
  }

  /** The same, level by level. */
  predicate Fits(c: AICatalog, room: int) {
    forall i :: 0 <= i < |c.entries| ==> EntryFits(c.entries[i], room)
  }

  predicate EntryFits(e: Entry, room: int) {
    e.IsNestedCatalog() ==>
      room > 0 && (e.data.Inline? && e.data.decoded.Some? ==> Fits(e.data.decoded.value, room - 1))
  }

  lemma {:induction false} FitsBounds(c: AICatalog, room: int, route: seq<nat>, i: nat)
    requires Fits(c, room) && NestsAt(c, route, i)
    ensures |route| < room
    decreases route
  {
    if route == [] {
      assert EntryFits(c.entries[i], room);
    } else {
      assert EntryFits(c.entries[route[0]], room);
      FitsBounds(Inlined(c, route[0]).value, room - 1, route[1..], i);
    }
  }

  lemma {:induction false} ShallowFits(c: AICatalog, room: int)
    requires ShallowerThan(c, room)
    ensures Fits(c, room)
    decreases c
  {
    forall i | 0 <= i < |c.entries| ensures EntryFits(c.entries[i], room) {
      if c.entries[i].IsNestedCatalog() {
        assert NestsAt(c, [], i);
        var inner := Inlined(c, i);
        if inner.Some? {
          forall route: seq<nat>, j: nat | NestsAt(inner.value, route, j) ensures |route| < room - 1 {
            assert ([i] + route)[1..] == route;
            assert NestsAt(c, [i] + route, j);
          }
          ShallowFits(inner.value, room - 1);
        }
      }
    }
  }

  lemma FitsIff(c: AICatalog, room: int)
    ensures Fits(c, room) <==> ShallowerThan(c, room)
  {
    if Fits(c, room) {
      forall route: seq<nat>, i: nat | NestsAt(c, route, i) ensures |route| < room {
        FitsBounds(c, room, route, i);
      }
    }
    if ShallowerThan(c, room) {
      ShallowFits(c, room);
    }
  }

  // ---- depth errors come from nested entries alone ----

  /** No finding is an error about depth. */
  predicate NotDeep(r: Report) {
    !Contains(Error, r, CodeNestedDepth)
  }

  lemma {:induction false} SilentNotDeep(r: Report)
    requires Silent(Error, r)
    ensures NotDeep(r)
  {
    match r {
      case Both(a, b) =>
        SilentNotDeep(a);
        SilentNotDeep(b);
      case At(_, part) => SilentNotDeep(part);
      case _ =>
    }
  }

  lemma ManifestNotDeep(cfg: Config, e: Entry, m: TrustManifest)
    ensures NotDeep(ManifestRules(cfg, e, m))
  {
    var rules := TrustManifestRules(cfg, m).Then(SubjectBinding(e, m));
    ManifestOrdinary(cfg, e, m);
    OrdinaryIs(rules);
    ProfileNoError(cfg, m);
    SilentNotDeep(ManifestProfile(cfg, m));
    ContainsBoth(Error, CodeNestedDepth, rules, ManifestProfile(cfg, m));
  }

  lemma TrustNotDeep(cfg: Config, e: Entry)
    ensures NotDeep(EntryTrustRules(cfg, e))
  {
    var parts := ManifestParts(cfg, e);
    forall k | 0 <= k < |parts| ensures NotDeep(parts[k]) {
      ManifestNotDeep(cfg, e, e.manifests[k]);
    }
    ContainsSeries(Error, "trustManifests", parts, |parts|, CodeNestedDepth);
    ContainsFour(Error, CodeNestedDepth, At([Name("digest")], DigestRules(e.digest)), ManifestsRules(cfg, e),
        ErrIf(HasSigned(e.manifests, |e.manifests|) && e.digest == "", CodeEntryDigest, [Name("digest")]), Nothing);
  }

  // ---- the limit ----

  lemma {:induction false} DeepIff(cfg: Config, c: AICatalog, room: int)
    ensures Contains(Error, CatalogReport(cfg, c, room), CodeNestedDepth) <==> !Fits(c, room)
    decreases c, 1
  {
    var parts := EntryParts(cfg, c.entries, room);
    HeadOrdinary(cfg, c);
    OrdinaryIs(CatalogHead(cfg, c));
    UniquenessOrdinary(c.entries);
    OrdinaryIs(Uniqueness(c.entries));
    ContainsFour(Error, CodeNestedDepth, CatalogHead(cfg, c), Uniqueness(c.entries),
        EntriesReport(cfg, c.entries, room), Nothing);
    ContainsSeries(Error, "entries", parts, |parts|, CodeNestedDepth);
    forall k | 0 <= k < |parts| ensures Contains(Error, parts[k], CodeNestedDepth) <==> !EntryFits(c.entries[k], room) {
      DeepEntryIff(cfg, c.entries[k], room);
    }
  }

  lemma {:induction false} DeepEntryIff(cfg: Config, e: Entry, room: int)
    ensures Contains(Error, EntryReport(cfg, e, room), CodeNestedDepth) <==> !EntryFits(e, room)
    decreases e, 0
  {
    OnlyNestedDeep(cfg, e, room);
    DeepBelow(cfg, e, room);
    if e.IsNestedCatalog() && room > 0 && e.data.Inline? && e.data.decoded.Some? {
      DeepIff(cfg, e.data.decoded.value, room - 1);
    }
  }

  /** An entry is at the limit, or the catalog in it is too deep. */
  lemma DeepBelow(cfg: Config, e: Entry, room: int)
    ensures Contains(Error, NestedReport(cfg, e, room), CodeNestedDepth) <==>
            (e.IsNestedCatalog() && (room <= 0 || (e.data.Inline? && e.data.decoded.Some? &&
              Contains(Error, CatalogReport(cfg, e.data.decoded.value, room - 1), CodeNestedDepth))))
  {
    if e.IsNestedCatalog() && room > 0 && e.data.Inline? && e.data.decoded.Some? {
      var inner := CatalogReport(cfg, e.data.decoded.value, room - 1);
      assert NestedReport(cfg, e, room) == At([Name("data")], inner);
    }
  }

  lemma OnlyNestedDeep(cfg: Config, e: Entry, room: int)
    ensures Contains(Error, EntryReport(cfg, e, room), CodeNestedDepth) <==>
            Contains(Error, NestedReport(cfg, e, room), CodeNestedDepth)
  {
    FieldsOrdinary(cfg, e);
    OrdinaryIs(EntryFields(cfg, e));
    TrustNotDeep(cfg, e);
    ContainsFour(Error, CodeNestedDepth, EntryFields(cfg, e), EntryTrustRules(cfg, e), NestedReport(cfg, e, room),
        IdentifierForm(e));
  }

  /** A depth error is reported exactly when some nested catalog entry that inline data
      leads to is at the limit or below it. */
  lemma DepthErrorIff(c: AICatalog, cfg: Config, maxDepth: int)
    ensures Mentions(ResultOf(c, cfg, maxDepth).errors, CodeNestedDepth) <==> !ShallowerThan(c, maxDepth)
  {
    var r := CatalogReport(cfg, c, maxDepth);
    MentionsMoved(ROOT, Findings(Error, r), CodeNestedDepth);
    ContainsIff(Error, r, CodeNestedDepth);
    DeepIff(cfg, c, maxDepth);
    FitsIff(c, maxDepth);
  }

  lemma {:induction false} SameReport(cfg: Config, c: AICatalog, room: int, more: int)
    requires Fits(c, room) && room <= more
    ensures CatalogReport(cfg, c, room) == CatalogReport(cfg, c, more)
    decreases c, 1
  {
    var parts, parts' := EntryParts(cfg, c.entries, room), EntryParts(cfg, c.entries, more);
    forall k | 0 <= k < |c.entries| ensures parts[k] == parts'[k] {
      assert EntryFits(c.entries[k], room);
      SameEntryReport(cfg, c.entries[k], room, more);
    }
    assert parts == parts';
  }

  lemma {:induction false} SameEntryReport(cfg: Config, e: Entry, room: int, more: int)
    requires EntryFits(e, room) && room <= more
    ensures EntryReport(cfg, e, room) == EntryReport(cfg, e, more)
    decreases e, 1
  {
    SameNestedReport(cfg, e, room, more);
  }

  lemma {:induction false} SameNestedReport(cfg: Config, e: Entry, room: int, more: int)
    requires EntryFits(e, room) && room <= more
    ensures NestedReport(cfg, e, room) == NestedReport(cfg, e, more)
    decreases e, 0
  {
    if e.IsNestedCatalog() && e.data.Inline? && e.data.decoded.Some? {
      SameReport(cfg, e.data.decoded.value, room - 1, more - 1);
    }
  }

  /** Once no depth error is reported, a greater limit changes nothing. */
  lemma GreaterLimitChangesNothing(c: AICatalog, cfg: Config, maxDepth: int, greater: int)
    requires maxDepth <= greater && !Mentions(ResultOf(c, cfg, maxDepth).errors, CodeNestedDepth)
    ensures ResultOf(c, cfg, greater) == ResultOf(c, cfg, maxDepth)
  {
    DepthErrorIff(c, cfg, maxDepth);
    FitsIff(c, maxDepth);
    SameReport(cfg, c, maxDepth, greater);
  }
}
