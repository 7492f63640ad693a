/** Properties of reports, whatever is reported. */
module ReportLaws {
  import opened Diagnostics

  /** Nothing of this severity is reported. */
  predicate Silent(severity: Severity, r: Report) {
    match r
    case Nothing => true
    case Found(s, _, _) => s != severity
    case Both(a, b) => Silent(severity, a) && Silent(severity, b)
    case At(_, part) => Silent(severity, part)
  }

  lemma {:induction false} SilentIff(severity: Severity, r: Report)
    ensures Silent(severity, r) <==> Findings(severity, r) == []
  {
    match r {
      case Both(a, b) =>
        SilentIff(severity, a);
        SilentIff(severity, b);
      case At(_, part) => SilentIff(severity, part);
      case _ =>
    }
  }

  lemma SilentBoth(severity: Severity, a: Report, b: Report)
    ensures Silent(severity, Both(a, b)) <==> Silent(severity, a) && Silent(severity, b)
  {
  }

  lemma SilentFour(severity: Severity, a: Report, b: Report, c: Report, d: Report)
    ensures Silent(severity, a.Then(b).Then(c).Then(d)) <==>
            Silent(severity, a) && Silent(severity, b) && Silent(severity, c) && Silent(severity, d)
  {
    SilentBoth(severity, Both(Both(a, b), c), d);
    SilentBoth(severity, Both(a, b), c);
  }

  lemma SilentAt(severity: Severity, place: Path, part: Report)
    ensures Silent(severity, At(place, part)) <==> Silent(severity, part)
  {
  }

  // ---- the reports of the entries of a list ----

  lemma {:induction false} SilentSeries(severity: Severity, list: string, parts: seq<Report>, n: nat)
    requires n <= |parts|
    ensures Silent(severity, Series(list, parts, n)) <==> forall k :: 0 <= k < n ==> Silent(severity, parts[k])
  {
    if n > 0 {
      SilentSeries(severity, list, parts, n - 1);
      SilentBoth(severity, Series(list, parts, n - 1), At([Item(list, n - 1)], parts[n - 1]));
      SilentAt(severity, [Item(list, n - 1)], parts[n - 1]);
    }
  }

  // ---- findings below a path ----

  /** The findings at or below a path. */
  function Under(p: Path, ds: seq<Diagnostic>): seq<Diagnostic> {
    if ds == [] then [] else (if p <= ds[0].path then [ds[0]] else []) + Under(p, ds[1..])
  }

  lemma {:induction false} UnderAppend(p: Path, xs: seq<Diagnostic>, ys: seq<Diagnostic>)
    ensures Under(p, xs + ys) == Under(p, xs) + Under(p, ys)
  {
    if xs == [] {
      assert xs + ys == ys;
    } else {
      assert (xs + ys)[1..] == xs[1..] + ys;
      UnderAppend(p, xs[1..], ys);
    }
  }

  lemma {:induction false} UnderMoved(q: Path, p: Path, ds: seq<Diagnostic>)
    ensures Under(q + p, Moved(q, ds)) == Moved(q, Under(p, ds))
  {
    if ds != [] {
      UnderMoved(q, p, ds[1..]);
      var m := Moved(q, ds);
      assert m[1..] == Moved(q, ds[1..]);
      PrefixMoved(q, p, ds[0].path);
      MovedAppend(q, if p <= ds[0].path then [ds[0]] else [], Under(p, ds[1..]));
      assert Moved(q, [ds[0]]) == [m[0]] && Moved(q, []) == [];
    }
  }

  lemma PrefixMoved(q: Path, p: Path, path: Path)
    ensures q + p <= q + path <==> p <= path
  {
    if q + p <= q + path {
      assert forall i :: 0 <= i < |p| ==> path[i] == (q + path)[|q| + i] == (q + p)[|q| + i] == p[i];
    }
    if p <= path {
      assert q + path == q + p + path[|p|..];
    }
  }

  lemma {:induction false} UnderAll(p: Path, ds: seq<Diagnostic>)
    ensures Under(p, Moved(p, ds)) == Moved(p, ds)
  {
    UnderMoved(p, [], ds);
    assert p + [] == p;
    UnderEmpty(ds);
  }

  lemma {:induction false} UnderEmpty(ds: seq<Diagnostic>)
    ensures Under([], ds) == ds
  {
    if ds != [] {
      UnderEmpty(ds[1..]);
    }
  }

  /** No finding's path starts with the segment. */
  predicate Avoids(r: Report, s: Segment) {
    match r
    case Nothing => true
    case Found(_, _, path) => path == [] || path[0] != s
    case Both(a, b) => Avoids(a, s) && Avoids(b, s)
    case At(place, part) => if place == [] then Avoids(part, s) else place[0] != s
  }

  lemma {:induction false} SeriesAvoids(list: string, parts: seq<Report>, n: nat, s: Segment)
    requires n <= |parts| && !s.Item?
    ensures Avoids(Series(list, parts, n), s)
  {
    if n > 0 {
      SeriesAvoids(list, parts, n - 1, s);
    }
  }

  lemma {:induction false} UnderAvoided(severity: Severity, r: Report, s: Segment, p: Path)
    requires Avoids(r, s)
    ensures Under([s] + p, Findings(severity, r)) == []
  {
    match r {
      case Both(a, b) =>
        UnderAvoided(severity, a, s, p);
        UnderAvoided(severity, b, s, p);
        UnderAppend([s] + p, Findings(severity, a), Findings(severity, b));
      case At(place, part) =>
        if place == [] {
          UnderAvoided(severity, part, s, p);
          MovedNowhere(Findings(severity, part));
        } else {
          UnderElsewhere(place, Findings(severity, part), s, p);
        }
      case _ =>
    }
  }

  lemma MovedNowhere(ds: seq<Diagnostic>)
    ensures Moved([], ds) == ds
  {
    assert forall i :: 0 <= i < |ds| ==> [] + ds[i].path == ds[i].path;
  }

  lemma {:induction false} UnderElsewhere(place: Path, ds: seq<Diagnostic>, s: Segment, p: Path)
    requires place != [] && place[0] != s
    ensures Under([s] + p, Moved(place, ds)) == []
  {
    if ds != [] {
      UnderElsewhere(place, ds[1..], s, p);
      assert Moved(place, ds)[1..] == Moved(place, ds[1..]);
      assert (place + ds[0].path)[0] == place[0];
    }
  }

  lemma Unreported(severity: Severity, r: Report, s: Segment)
    requires Avoids(r, s)
    ensures Under([s], Findings(severity, r)) == []
  {
    UnderAvoided(severity, r, s, []);
    assert [s] + [] == [s];
  }

  lemma AvoidsFour(a: Report, b: Report, c: Report, d: Report, s: Segment)
    requires Avoids(a, s) && Avoids(b, s) && Avoids(c, s) && Avoids(d, s)
    ensures Avoids(a.Then(b).Then(c).Then(d), s) && Avoids(a.Then(b).Then(c), s)
  {
    assert Avoids(Both(a, b), s);
    assert Avoids(Both(Both(a, b), c), s);
  }

  lemma UnderFour(severity: Severity, p: Path, a: Report, b: Report, c: Report, d: Report)
    requires Under(p, Findings(severity, a)) == [] && Under(p, Findings(severity, b)) == []
    requires Under(p, Findings(severity, d)) == []
    ensures Under(p, Findings(severity, a.Then(b).Then(c).Then(d))) == Under(p, Findings(severity, c))
    ensures Under(p, Findings(severity, a.Then(b).Then(c))) == Under(p, Findings(severity, c))
  {
    UnderBoth(severity, p, a, b);
    UnderBoth(severity, p, Both(a, b), c);
    UnderBoth(severity, p, Both(Both(a, b), c), d);
  }

  /** Where the nested catalog of entry i is reported. */
  function Slot(i: nat): Path {
    [Item("entries", i), Name("data")]
  }

  lemma UnderItem(severity: Severity, i: nat, r: Report)
    ensures Under(Slot(i), Findings(severity, At([Item("entries", i)], r))) ==
            Moved([Item("entries", i)], Under([Name("data")], Findings(severity, r)))
  {
    UnderMoved([Item("entries", i)], [Name("data")], Findings(severity, r));
    assert [Item("entries", i)] + [Name("data")] == Slot(i);
  }

  lemma UnderOther(severity: Severity, i: nat, k: nat, r: Report)
    requires i != k
    ensures Under(Slot(i), Findings(severity, At([Item("entries", k)], r))) == []
  {
    UnderElsewhere([Item("entries", k)], Findings(severity, r), Item("entries", i), [Name("data")]);
    assert [Item("entries", i)] + [Name("data")] == Slot(i);
  }

  lemma UnderBoth(severity: Severity, p: Path, a: Report, b: Report)
    ensures Under(p, Findings(severity, Both(a, b))) ==
            Under(p, Findings(severity, a)) + Under(p, Findings(severity, b))
  {
    UnderAppend(p, Findings(severity, a), Findings(severity, b));
  }

  /** What the first n parts report in slot i. */
  function InSlot(severity: Severity, parts: seq<Report>, n: nat, i: nat): seq<Diagnostic>
    requires n <= |parts|
  {
    Under(Slot(i), Findings(severity, Series("entries", parts, n)))
  }

  lemma {:induction false} SlotStillEmpty(severity: Severity, parts: seq<Report>, n: nat, i: nat)
    requires n <= |parts| && n <= i
    ensures InSlot(severity, parts, n, i) == []
  {
    if n > 0 {
      SlotStillEmpty(severity, parts, n - 1, i);
      SlotUnchanged(severity, parts, n - 1, i);
    }
  }

  lemma SlotUnchanged(severity: Severity, parts: seq<Report>, k: nat, i: nat)
    requires k < |parts| && k != i
    ensures InSlot(severity, parts, k + 1, i) == InSlot(severity, parts, k, i)
  {
    UnderBoth(severity, Slot(i), Series("entries", parts, k), At([Item("entries", k)], parts[k]));
    UnderOther(severity, i, k, parts[k]);
  }

  lemma SlotFilled(severity: Severity, parts: seq<Report>, i: nat)
    requires i < |parts|
    ensures InSlot(severity, parts, i + 1, i) ==
            Moved([Item("entries", i)], Under([Name("data")], Findings(severity, parts[i])))
  {
    SlotStillEmpty(severity, parts, i, i);
    UnderBoth(severity, Slot(i), Series("entries", parts, i), At([Item("entries", i)], parts[i]));
    UnderItem(severity, i, parts[i]);
  }

  /** A series reports in slot i what part i reports under "data". */
  lemma {:induction false} UnderSeries(severity: Severity, parts: seq<Report>, n: nat, i: nat)
    requires i < n <= |parts|
    ensures InSlot(severity, parts, n, i) ==
            Moved([Item("entries", i)], Under([Name("data")], Findings(severity, parts[i])))
  {
    if n == i + 1 {
      SlotFilled(severity, parts, i);
    } else {
      UnderSeries(severity, parts, n - 1, i);
      SlotUnchanged(severity, parts, n - 1, i);
    }
  }

  /** What is below q within what is below p. */
  lemma UnderWithin(p: Path, q: Path, all: seq<Diagnostic>, below: seq<Diagnostic>, own: seq<Diagnostic>)
    requires Under(p, all) == Moved(p, below) && Under(q, below) == Moved(q, own)
    ensures Under(p + q, all) == Moved(p + q, own)
  {
    UnderTwice(p, q, all);
    UnderMoved(p, q, below);
    MovedTwice(p, q, own);
  }

  lemma {:induction false} UnderTwice(p: Path, q: Path, ds: seq<Diagnostic>)
    ensures Under(p + q, ds) == Under(p + q, Under(p, ds))
  {
    if ds != [] {
      var rest := Under(p, ds[1..]);
      UnderTwice(p, q, ds[1..]);
      if p <= ds[0].path {
        assert ([ds[0]] + rest)[1..] == rest;
      } else {
        if p + q <= ds[0].path { LongerPrefix(p, q, ds[0].path); }
        assert [] + rest == rest;
      }
    }
  }

  lemma LongerPrefix(p: Path, q: Path, path: Path)
    requires p + q <= path
    ensures p <= path
  {
    assert forall i :: 0 <= i < |p| ==> p[i] == (p + q)[i] == path[i];
  }

  // ---- which codes a report contains ----

  predicate Contains(severity: Severity, r: Report, code: Code) {
    match r
    case Nothing => false
    case Found(s, c, _) => s == severity && c == code
    case Both(a, b) => Contains(severity, a, code) || Contains(severity, b, code)
    case At(_, part) => Contains(severity, part, code)
  }

  predicate Mentions(ds: seq<Diagnostic>, code: Code) {
    exists i :: 0 <= i < |ds| && ds[i].code == code
  }

  lemma MentionsAppend(xs: seq<Diagnostic>, ys: seq<Diagnostic>, code: Code)
    ensures Mentions(xs + ys, code) <==> Mentions(xs, code) || Mentions(ys, code)
  {
    if Mentions(xs, code) {
      var i :| 0 <= i < |xs| && xs[i].code == code;
      assert (xs + ys)[i].code == code;
    }
    if Mentions(ys, code) {
      var i :| 0 <= i < |ys| && ys[i].code == code;
      assert (xs + ys)[|xs| + i].code == code;
    }
  }

  lemma MentionsMoved(p: Path, ds: seq<Diagnostic>, code: Code)
    ensures Mentions(Moved(p, ds), code) <==> Mentions(ds, code)
  {
    if Mentions(ds, code) {
      var i :| 0 <= i < |ds| && ds[i].code == code;
      assert Moved(p, ds)[i].code == code;
    }
  }

  lemma {:induction false} ContainsIff(severity: Severity, r: Report, code: Code)
    ensures Contains(severity, r, code) <==> Mentions(Findings(severity, r), code)
  {
    match r {
      case Both(a, b) =>
        ContainsIff(severity, a, code);
        ContainsIff(severity, b, code);
        MentionsAppend(Findings(severity, a), Findings(severity, b), code);
      case At(place, part) =>
        ContainsIff(severity, part, code);
        MentionsMoved(place, Findings(severity, part), code);
      case Found(s, c, path) =>
        assert s == severity ==> Findings(severity, r)[0].code == c;
      case Nothing =>
    }
  }

  lemma ContainsFour(severity: Severity, code: Code, a: Report, b: Report, c: Report, d: Report)
    ensures Contains(severity, a.Then(b).Then(c).Then(d), code) <==>
            Contains(severity, a, code) || Contains(severity, b, code) || Contains(severity, c, code)
                || Contains(severity, d, code)
    ensures Contains(severity, a.Then(b).Then(c), code) <==>
            Contains(severity, a, code) || Contains(severity, b, code) || Contains(severity, c, code)
  {
    ContainsBoth(severity, code, a, b);
    ContainsBoth(severity, code, Both(a, b), c);
    ContainsBoth(severity, code, Both(Both(a, b), c), d);
  }

  lemma ContainsBoth(severity: Severity, code: Code, a: Report, b: Report)
    ensures Contains(severity, Both(a, b), code) <==> Contains(severity, a, code) || Contains(severity, b, code)
  {
  }

  lemma {:induction false} ContainsSeries(severity: Severity, list: string, parts: seq<Report>, n: nat, code: Code)
    requires n <= |parts|
    ensures Contains(severity, Series(list, parts, n), code) <==>
            exists k :: 0 <= k < n && Contains(severity, parts[k], code)
  {
    if n > 0 {
      ContainsSeries(severity, list, parts, n - 1, code);
      assert Series(list, parts, n) == Both(Series(list, parts, n - 1), At([Item(list, n - 1)], parts[n - 1]));
    }
  }
}
