/** How many errors the uniqueness scan reports, and when their number depends on the
    order of the entries. */
module CountLaws {
  import opened Catalog
  import opened Json
  import opened Diagnostics
  import opened CatalogRules

  function One(b: bool): nat {
    if b then 1 else 0
  }

  /** The errors that entry i adds. */
  function EntryErrors(es: seq<Entry>, i: nat): nat
    requires i < |es|
  {
    var id, version := es[i].identifier, es[i].version;
    if version == "" then One(HasID(es, i, id)) else One(HasPair(es, i, id, "")) + One(HasPair(es, i, id, version))
  }

  function ErrorCount(es: seq<Entry>, n: nat): nat
    requires n <= |es|
  {
    if n == 0 then 0 else ErrorCount(es, n - 1) + EntryErrors(es, n - 1)
  }

  lemma EntryErrorsReported(es: seq<Entry>, i: nat)
    requires i < |es|
    ensures |Findings(Error, EntryUniqueness(es, i))| == EntryErrors(es, i)
  {
  }

  lemma SeriesCount(parts: seq<Report>, i: nat)
    requires i < |parts|
    ensures |Findings(Error, Series("entries", parts, i + 1))| ==
            |Findings(Error, Series("entries", parts, i))| + |Findings(Error, parts[i])|
  {
    var one := At([Item("entries", i)], parts[i]);
    assert Series("entries", parts, i + 1) == Both(Series("entries", parts, i), one);
    assert Findings(Error, one) == Moved([Item("entries", i)], Findings(Error, parts[i]));
  }

  lemma {:induction false} SeriesErrors(es: seq<Entry>, parts: seq<Report>, n: nat)
    requires n <= |es| == |parts| && forall i: nat | i < |es| :: |Findings(Error, parts[i])| == EntryErrors(es, i)
    ensures |Findings(Error, Series("entries", parts, n))| == ErrorCount(es, n)
  {
    if n > 0 {
      SeriesErrors(es, parts, n - 1);
      SeriesCount(parts, n - 1);
    }
  }

  /** The errors the scan reports, counted. */
  lemma ErrorsReported(es: seq<Entry>)
    ensures |Findings(Error, Uniqueness(es))| == ErrorCount(es, |es|)
  {
    forall i: nat | i < |es| ensures |Findings(Error, ScanParts(es)[i])| == EntryErrors(es, i) {
      EntryErrorsReported(es, i);
    }
    SeriesErrors(es, ScanParts(es), |es|);
  }

  // ---- entries that mix versions ----

  /** An unversioned entry and two versioned ones of one identifier. */
  predicate Mixes(u: Entry, v: Entry, w: Entry) {
    u.identifier == v.identifier == w.identifier && u.version == "" && v.version != "" && w.version != ""
  }

  predicate MixedAt(es: seq<Entry>, i: nat, j: nat, k: nat) {
    i < |es| && j < k < |es| && Mixes(es[i], es[j], es[k])
  }

  /** Some identifier occurs without a version, and at least twice with one. */
  ghost predicate MixesVersions(es: seq<Entry>) {
    exists i: nat, j: nat, k: nat :: MixedAt(es, i, j, k)
  }

  ghost predicate MixedIn(m: multiset<Entry>) {
    exists u, v, w :: u in m && v in m && w in m - multiset{v} && Mixes(u, v, w)
  }

  lemma TwoPlaces<T>(s: seq<T>, x: T, y: T) returns (j: nat, k: nat)
    requires x in multiset(s) && y in multiset(s) - multiset{x}
    ensures j < |s| && k < |s| && j != k && s[j] == x && s[k] == y
  {
    j :| 0 <= j < |s| && s[j] == x;
    assert s == s[..j] + [x] + s[j + 1..];
    assert y in multiset(s[..j]) + multiset(s[j + 1..]);
    if y in s[..j] {
      k :| 0 <= k < j && s[..j][k] == y;
    } else {
      var l :| 0 <= l < |s[j + 1..]| && s[j + 1..][l] == y;
      k := j + 1 + l;
    }
  }

  lemma PlacesOfTwo<T>(s: seq<T>, j: nat, k: nat)
    requires j < |s| && k < |s| && j != k
    ensures s[j] in multiset(s) && s[k] in multiset(s) - multiset{s[j]}
  {
    assert s == s[..j] + [s[j]] + s[j + 1..];
    if k < j {
      assert s[..j][k] == s[k];
    } else {
      assert s[j + 1..][k - j - 1] == s[k];
    }
    assert s[k] in multiset(s[..j]) + multiset(s[j + 1..]);
  }

  lemma MixedPlaces(es: seq<Entry>) returns (u: Entry, v: Entry, w: Entry)
    requires MixesVersions(es)
    ensures u in multiset(es) && v in multiset(es) && w in multiset(es) - multiset{v} && Mixes(u, v, w)
  {
    var i: nat, j: nat, k: nat :| MixedAt(es, i, j, k);
    PlacesOfTwo(es, j, k);
    u, v, w := es[i], es[j], es[k];
    assert u in es;
  }

  lemma MixedElements(es: seq<Entry>)
    requires MixedIn(multiset(es))
    ensures MixesVersions(es)
  {
    var u, v, w :| u in multiset(es) && v in multiset(es) && w in multiset(es) - multiset{v} && Mixes(u, v, w);
    var i: nat :| i < |es| && es[i] == u;
    var j, k := TwoPlaces(es, v, w);
    assert MixedAt(es, i, if j < k then j else k, if j < k then k else j);
  }

  /** Mixing versions does not depend on the order of the entries. */
  lemma MixesSame(es: seq<Entry>, fs: seq<Entry>)
    requires multiset(es) == multiset(fs) && MixesVersions(fs)
    ensures MixesVersions(es)
  {
    var u, v, w := MixedPlaces(fs);
    assert MixedIn(multiset(es));
    MixedElements(es);
  }

  // ---- without mixed versions, the count is that of the distinct keys ----

  function Unversioned(es: seq<Entry>): set<string> {
    set e | e in es && e.version == "" :: e.identifier
  }

  /** What an entry must not share with another: its identifier where one of the entries
      is unversioned, its pair otherwise. */
  function Key(unversioned: set<string>, e: Entry): (string, string) {
    (e.identifier, if e.identifier in unversioned then "" else e.version)
  }

  function Keys(unversioned: set<string>, es: seq<Entry>): set<(string, string)> {
    set e | e in es :: Key(unversioned, e)
  }

  lemma UnmixedEntry(es: seq<Entry>, i: nat)
    requires i < |es| && !MixesVersions(es)
    ensures EntryErrors(es, i) == One(Key(Unversioned(es), es[i]) in Keys(Unversioned(es), es[..i]))
  {
    var e, unversioned := es[i], Unversioned(es);
    assert e in es;
    KeyShared(es, i);
    if e.identifier in unversioned {
      var u :| u in es && u.version == "" && u.identifier == e.identifier;
      var k: nat :| k < |es| && es[k] == u;
      forall j: nat | j < i && es[j].identifier == e.identifier && e.version != "" ensures es[j].version == "" {
        assert !MixedAt(es, k, j, i);
      }
    } else {
      forall j: nat | j < i && es[j].identifier == e.identifier ensures es[j].version != "" {
        assert es[j] in es;
      }
    }
  }

  lemma KeyShared(es: seq<Entry>, i: nat)
    requires i < |es|
    ensures Key(Unversioned(es), es[i]) in Keys(Unversioned(es), es[..i]) <==>
            exists j :: 0 <= j < i && Key(Unversioned(es), es[j]) == Key(Unversioned(es), es[i])
  {
    if j :| 0 <= j < i && Key(Unversioned(es), es[j]) == Key(Unversioned(es), es[i]) {
      assert es[..i][j] == es[j] && es[j] in es[..i];
    }
  }

  lemma KeysSnoc(unversioned: set<string>, es: seq<Entry>, n: nat)
    requires n < |es|
    ensures Keys(unversioned, es[..n + 1]) == Keys(unversioned, es[..n]) + {Key(unversioned, es[n])}
  {
    assert es[..n + 1] == es[..n] + [es[n]];
  }

  /** One error for a key that is not new keeps the count of the others. */
  lemma OneMoreKey<T>(count: nat, n: nat, s: set<T>, x: T)
    requires count == n - |s|
    ensures count + One(x in s) == n + 1 - |s + {x}|
  {
    if x in s { assert s + {x} == s; }
  }

  /** Every entry adds an error exactly when its key is not new. */
  ghost predicate OnePerKey(es: seq<Entry>, ids: set<string>) {
    forall i: nat | i < |es| :: EntryErrors(es, i) == One(Key(ids, es[i]) in Keys(ids, es[..i]))
  }

  lemma {:induction false} CountOfKeys(es: seq<Entry>, ids: set<string>, n: nat)
    requires n <= |es| && OnePerKey(es, ids)
    ensures ErrorCount(es, n) == n - |Keys(ids, es[..n])|
  {
    if n > 0 {
      CountOfKeys(es, ids, n - 1);
      KeysSnoc(ids, es, n - 1);
      OneMoreKey(ErrorCount(es, n - 1), n - 1, Keys(ids, es[..n - 1]), Key(ids, es[n - 1]));
    }
  }

  lemma UnmixedCount(es: seq<Entry>)
    requires !MixesVersions(es)
    ensures ErrorCount(es, |es|) == |es| - |Keys(Unversioned(es), es)|
  {
    forall i: nat | i < |es|
        ensures EntryErrors(es, i) == One(Key(Unversioned(es), es[i]) in Keys(Unversioned(es), es[..i])) {
      UnmixedEntry(es, i);
    }
    CountOfKeys(es, Unversioned(es), |es|);
    assert es[..|es|] == es;
  }

  lemma UnmixedSame(es: seq<Entry>, fs: seq<Entry>)
    requires multiset(es) == multiset(fs) && !MixesVersions(es)
    ensures ErrorCount(es, |es|) == ErrorCount(fs, |fs|)
  {
    if MixesVersions(fs) { MixesSame(es, fs); }
    UnmixedCount(es);
    UnmixedCount(fs);
    SameKeys(es, fs);
  }

  lemma SameKeys(es: seq<Entry>, fs: seq<Entry>)
    requires multiset(es) == multiset(fs)
    ensures |es| == |fs| && Keys(Unversioned(es), es) == Keys(Unversioned(fs), fs)
  {
    SameElements(es, fs);
    assert Unversioned(es) == Unversioned(fs);
  }

  lemma SameElements<T>(s: seq<T>, t: seq<T>)
    requires multiset(s) == multiset(t)
    ensures |s| == |t| && forall x :: x in s <==> x in t
  {
    assert |multiset(s)| == |multiset(t)|;
    assert forall x :: x in s <==> x in multiset(s);
    assert forall x :: x in t <==> x in multiset(t);
  }

  // ---- with mixed versions, the unversioned entry first or last makes the difference ----

  /** A list of the elements. */
  lemma Listed<T>(m: multiset<T>) returns (s: seq<T>)
    ensures multiset(s) == m
    decreases |m|
  {
    if m == multiset{} {
      s := [];
    } else {
      var x :| x in m;
      var rest := Listed(m - multiset{x});
      s := [x] + rest;
    }
  }

  lemma SameLookups(es: seq<Entry>, fs: seq<Entry>, i: nat, id: string, version: string)
    requires 3 <= i <= |es| && |es| == |fs| && es[3..] == fs[3..]
    requires forall e :: e in es[..3] <==> e in fs[..3]
    ensures HasID(es, i, id) ==> HasID(fs, i, id)
    ensures HasPair(es, i, id, version) ==> HasPair(fs, i, id, version)
  {
    forall j: nat | j < i ensures exists k :: 0 <= k < i && fs[k] == es[j] {
      if j < 3 {
        assert es[..3][j] in fs[..3];
        var k :| 0 <= k < 3 && fs[..3][k] == es[j];
        assert fs[k] == es[j];
      } else {
        assert es[3..][j - 3] == fs[3..][j - 3];
        assert fs[j] == es[j];
      }
    }
  }

  lemma {:induction false} SameRest(es: seq<Entry>, fs: seq<Entry>, n: nat)
    requires 3 <= n <= |es| && |es| == |fs| && es[3..] == fs[3..]
    requires forall e :: e in es[..3] <==> e in fs[..3]
    ensures ErrorCount(es, n) - ErrorCount(es, 3) == ErrorCount(fs, n) - ErrorCount(fs, 3)
  {
    if n > 3 {
      var i := n - 1;
      SameRest(es, fs, i);
      assert es[3..][i - 3] == fs[3..][i - 3];
      SameLookups(es, fs, i, es[i].identifier, es[i].version);
      SameLookups(fs, es, i, es[i].identifier, es[i].version);
      SameLookups(es, fs, i, es[i].identifier, "");
      SameLookups(fs, es, i, es[i].identifier, "");
    }
  }

  lemma UnversionedFirst(es: seq<Entry>)
    requires |es| >= 3 && Mixes(es[0], es[1], es[2])
    ensures ErrorCount(es, 3) == 2 + One(es[1].version == es[2].version)
  {
    var id := es[0].identifier;
    FirstThree(es);
    assert HasPair(es, 1, id, "") && HasPair(es, 2, id, "");
    assert HasPair(es, 2, id, es[2].version) <==> es[1].version == es[2].version;
  }

  lemma UnversionedLast(es: seq<Entry>)
    requires |es| >= 3 && Mixes(es[2], es[0], es[1])
    ensures ErrorCount(es, 3) == 1 + One(es[0].version == es[1].version)
  {
    var id := es[2].identifier;
    FirstThree(es);
    assert HasID(es, 2, id);
    assert HasPair(es, 1, id, es[1].version) <==> es[0].version == es[1].version;
  }

  lemma FirstThree(es: seq<Entry>)
    requires |es| >= 3
    ensures ErrorCount(es, 3) == EntryErrors(es, 0) + EntryErrors(es, 1) + EntryErrors(es, 2)
    ensures EntryErrors(es, 0) == 0
  {
    assert ErrorCount(es, 1) == ErrorCount(es, 0) + EntryErrors(es, 0);
    assert ErrorCount(es, 2) == ErrorCount(es, 1) + EntryErrors(es, 1);
  }

  lemma RemoveThree<T>(m: multiset<T>, u: T, v: T, w: T)
    requires u in m && v in m && w in m - multiset{v} && u != v && u != w
    ensures m == multiset{u, v, w} + (m - multiset{u, v, w})
  {
  }

  /** Entries that mix versions can be ordered so that one error more or less is reported. */
  lemma MixedOrders(es: seq<Entry>) returns (fs: seq<Entry>, gs: seq<Entry>)
    requires MixesVersions(es)
    ensures multiset(fs) == multiset(es) == multiset(gs)
    ensures ErrorCount(fs, |fs|) == ErrorCount(gs, |gs|) + 1
  {
    var u, v, w := MixedPlaces(es);
    RemoveThree(multiset(es), u, v, w);
    var rest := Listed(multiset(es) - multiset{u, v, w});
    fs, gs := [u, v, w] + rest, [v, w, u] + rest;
    Permuted(u, v, w, rest);
    OneMore(u, v, w, rest);
  }

  lemma Permuted<T>(u: T, v: T, w: T, rest: seq<T>)
    ensures multiset([u, v, w] + rest) == multiset{u, v, w} + multiset(rest)
    ensures multiset([v, w, u] + rest) == multiset{u, v, w} + multiset(rest)
  {
    assert multiset([v, w, u]) == multiset{u, v, w};
  }

  lemma OneMore(u: Entry, v: Entry, w: Entry, rest: seq<Entry>)
    requires Mixes(u, v, w)
    ensures var fs, gs := [u, v, w] + rest, [v, w, u] + rest;
            ErrorCount(fs, |fs|) == ErrorCount(gs, |gs|) + 1
  {
    var fs, gs := [u, v, w] + rest, [v, w, u] + rest;
    UnversionedFirst(fs);
    UnversionedLast(gs);
    assert fs[3..] == rest == gs[3..];
    assert fs[..3] == [u, v, w] && gs[..3] == [v, w, u];
    SameRest(fs, gs, |fs|);
  }

  // ---- the exact condition ----

  ghost predicate CountIgnoresOrder(es: seq<Entry>) {
    forall fs :: multiset(fs) == multiset(es) ==> |Findings(Error, Uniqueness(fs))| == |Findings(Error, Uniqueness(es))|
  }

  /** Every order of the entries is reported with the same number of errors exactly when
      no identifier occurs without a version and at least twice with one. */
  lemma CountIgnoresOrderIff(es: seq<Entry>)
    ensures CountIgnoresOrder(es) <==> !MixesVersions(es)
  {
    if MixesVersions(es) {
      var fs, gs := MixedOrders(es);
      ErrorsReported(fs);
      ErrorsReported(gs);
      assert |Findings(Error, Uniqueness(fs))| != |Findings(Error, Uniqueness(gs))|;
    } else {
      forall fs | multiset(fs) == multiset(es)
        ensures |Findings(Error, Uniqueness(fs))| == |Findings(Error, Uniqueness(es))|
      {
        UnmixedSame(es, fs);
        ErrorsReported(es);
        ErrorsReported(fs);
      }
    }
  }

  function Plain(version: string): Entry {
    Entry("urn:x", "text/plain", "https://x", NoData, version, None, "", [], "", [])
  }

  /** The smallest case: one unversioned entry and one versioned entry twice. */
  lemma ErrorCountDependsOnOrder() returns (es: seq<Entry>, fs: seq<Entry>)
    ensures multiset(es) == multiset(fs) && |es| == 3
    ensures |Findings(Error, Uniqueness(es))| == |Findings(Error, Uniqueness(fs))| + 1
  {
    var u, v := Plain(""), Plain("1");
    es, fs := [u, v, v] + [], [v, v, u] + [];
    Permuted(u, v, v, []);
    OneMore(u, v, v, []);
    ErrorsReported(es);
    ErrorsReported(fs);
  }
}
