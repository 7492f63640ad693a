/** JSON documents, their RFC 8785 (JCS) form and the text it is written as. */
module Json {

  datatype Option<+T> = None | Some(value: T)

  predicate NumberChar(c: char) {
    '0' <= c <= '9' || c in "+-.eE"
  }

  /** The text of a number, taken as already in the one form JCS writes it in. */
  type NumberToken = s: string | s != "" && forall c :: c in s ==> NumberChar(c) witness "0"

  /** A decoded document. Members keep their order and may repeat a name. */
  datatype Json =
    | Null
    | Bool(b: bool)
    | Num(token: NumberToken)
    | Str(text: string)
    | Arr(items: seq<Json>)
    | Obj(members: seq<Member>)

  datatype Member = Member(name: string, value: Json)

  predicate DistinctNames(ms: seq<Member>) {
    forall i, j :: 0 <= i < j < |ms| ==> ms[i].name != ms[j].name
  }

  /** No object repeats a member name, at any depth. */
  predicate UniqueNamed(j: Json) {
    match j
    case Arr(items) => forall i :: 0 <= i < |items| ==> UniqueNamed(items[i])
    case Obj(ms) => DistinctNames(ms) && forall i :: 0 <= i < |ms| ==> UniqueNamed(ms[i].value)
    case _ => true
  }

  function Names(ms: seq<Member>): set<string> {
    set m | m in ms :: m.name
  }

  /** Equality up to the order of members, at every depth. */
  ghost predicate Same(a: Json, b: Json)
    decreases a
  {
    match (a, b)
    case (Arr(xs), Arr(ys)) => |xs| == |ys| && forall i :: 0 <= i < |xs| ==> Same(xs[i], ys[i])
    case (Obj(ms), Obj(ns)) => Names(ms) == Names(ns) && forall i :: 0 <= i < |ms| ==> HasSame(ms[i], ns)
    case _ => a == b
  }

  /** Some member of ns has the name of m and the same value. */
  ghost predicate HasSame(m: Member, ns: seq<Member>)
    decreases m
  {
    exists j :: 0 <= j < |ns| && m.name == ns[j].name && Same(m.value, ns[j].value)
  }

  // ---- member order (section 3.2.3 of RFC 8785) ----

  /** Orders characters as their UTF-16 code units do: characters beyond the basic
      plane are surrogate pairs, which sort below U+E000. */
  function Rank(c: char): int {
    var n := c as int;
    if 0xE000 <= n < 0x1_0000 then n + 0x20_0000 else n
  }

  predicate Less(a: string, b: string) {
    b != "" &&
    (a == "" || Rank(a[0]) < Rank(b[0]) || (a[0] == b[0] && Less(a[1..], b[1..])))
  }

  function Insert(m: Member, ms: seq<Member>): seq<Member> {
    if ms == [] || Less(m.name, ms[0].name) then [m] + ms else [ms[0]] + Insert(m, ms[1..])
  }

  function Sort(ms: seq<Member>): seq<Member> {
    if ms == [] then [] else Insert(ms[0], Sort(ms[1..]))
  }

  function CanonMembers(ms: seq<Member>): (r: seq<Member>)
    ensures |r| == |ms|
    ensures forall i :: 0 <= i < |ms| ==> r[i] == Member(ms[i].name, Canon(ms[i].value))
  {
    seq(|ms|, i requires 0 <= i < |ms| => Member(ms[i].name, Canon(ms[i].value)))
  }

  /** The document with the members of every object in order. */
  function Canon(j: Json): Json {
    match j
    case Arr(items) => Arr(seq(|items|, i requires 0 <= i < |items| => Canon(items[i])))
    case Obj(ms) => Obj(Sort(CanonMembers(ms)))
    case _ => j
  }

  ghost predicate Sorted(ms: seq<Member>) {
    forall i, j :: 0 <= i < j < |ms| ==> Less(ms[i].name, ms[j].name)
  }

  // ---- the order is total ----

  lemma {:induction false} LessIsTotal(a: string, b: string)
    ensures a == b || Less(a, b) || Less(b, a)
    ensures !Less(a, a)
    ensures !(Less(a, b) && Less(b, a))
  {
    if a != "" {
      LessIsTotal(a[1..], if b != "" then b[1..] else "");
      if b != "" && a[0] == b[0] && a[1..] == b[1..] {
        assert a == [a[0]] + a[1..] == b;
      }
    }
  }

  lemma {:induction false} LessIsTransitive(a: string, b: string, c: string)
    requires Less(a, b) && Less(b, c)
    ensures Less(a, c)
  {
    if a != "" && a[0] == b[0] == c[0] {
      LessIsTransitive(a[1..], b[1..], c[1..]);
    }
  }

  // ---- sorting ----

  lemma {:induction false} InsertFacts(m: Member, ms: seq<Member>)
    ensures multiset(Insert(m, ms)) == multiset{m} + multiset(ms)
    ensures Sorted(ms) && (forall i :: 0 <= i < |ms| ==> ms[i].name != m.name) ==> Sorted(Insert(m, ms))
  {
    if ms == [] {
    } else if Less(m.name, ms[0].name) {
      if Sorted(ms) {
        forall i | 0 <= i < |ms| ensures Less(m.name, ms[i].name) {
          if i > 0 { LessIsTransitive(m.name, ms[0].name, ms[i].name); }
        }
      }
    } else {
      InsertFacts(m, ms[1..]);
      var rest := Insert(m, ms[1..]);
      assert ms == [ms[0]] + ms[1..];
      if Sorted(ms) && (forall i :: 0 <= i < |ms| ==> ms[i].name != m.name) {
        LessIsTotal(m.name, ms[0].name);
        forall i | 0 <= i < |rest| ensures Less(ms[0].name, rest[i].name) {
          assert rest[i] in multiset(rest);
          assert rest[i] == m || rest[i] in ms[1..];
        }
      }
    }
  }

  lemma {:induction false} SortFacts(ms: seq<Member>)
    ensures multiset(Sort(ms)) == multiset(ms)
    ensures DistinctNames(ms) ==> Sorted(Sort(ms))
  {
    if ms != [] {
      SortFacts(ms[1..]);
      InsertFacts(ms[0], Sort(ms[1..]));
      assert ms == [ms[0]] + ms[1..];
      if DistinctNames(ms) {
        forall i | 0 <= i < |Sort(ms[1..])| ensures Sort(ms[1..])[i].name != ms[0].name {
          assert Sort(ms[1..])[i] in multiset(Sort(ms[1..]));
          assert Sort(ms[1..])[i] in ms[1..];
        }
      }
    }
  }

  lemma {:induction false} SortedUnique(xs: seq<Member>, ys: seq<Member>)
    requires Sorted(xs) && Sorted(ys) && forall m :: m in xs <==> m in ys
    ensures xs == ys
  {
    assert xs != [] ==> xs[0] in ys;
    assert ys != [] ==> ys[0] in xs;
    if xs != [] && ys != [] {
      LessIsTotal(xs[0].name, ys[0].name);
      assert xs[0] == ys[0];
      forall m ensures m in xs[1..] <==> m in ys[1..] {
        InTail(xs, m);
        InTail(ys, m);
      }
      SortedUnique(xs[1..], ys[1..]);
      assert xs == [xs[0]] + xs[1..] && ys == [ys[0]] + ys[1..];
    }
  }

  lemma InTail(xs: seq<Member>, m: Member)
    requires xs != [] && Sorted(xs)
    ensures m in xs[1..] <==> m in xs && m != xs[0]
  {
    LessIsTotal(xs[0].name, xs[0].name);
    assert xs == [xs[0]] + xs[1..];
  }

  lemma SortKeepsMembers(ms: seq<Member>, m: Member)
    ensures m in Sort(ms) <==> m in ms
  {
    SortFacts(ms);
    assert m in Sort(ms) <==> m in multiset(Sort(ms));
    assert m in ms <==> m in multiset(ms);
  }

  lemma SortEqual(xs: seq<Member>, ys: seq<Member>)
    requires DistinctNames(xs) && DistinctNames(ys) && forall m :: m in xs <==> m in ys
    ensures Sort(xs) == Sort(ys)
  {
    SortFacts(xs);
    SortFacts(ys);
    forall m ensures m in Sort(xs) <==> m in Sort(ys) {
      SortKeepsMembers(xs, m);
      SortKeepsMembers(ys, m);
    }
    SortedUnique(Sort(xs), Sort(ys));
  }

  /** Objects with the same members, canonical value by value, have the same form. */
  lemma CanonMembersEqual(ms: seq<Member>, ns: seq<Member>)
    requires DistinctNames(ms) && DistinctNames(ns)
    requires forall m :: m in CanonMembers(ms) <==> m in CanonMembers(ns)
    ensures Canon(Obj(ms)) == Canon(Obj(ns))
  {
    SortEqual(CanonMembers(ms), CanonMembers(ns));
  }

  // ---- the canonical form decides sameness ----

  /** Two documents have the same canonical form exactly when they are equal up to
      member order. */
  lemma CanonDecidesSame(a: Json, b: Json)
    requires UniqueNamed(a) && UniqueNamed(b)
    ensures Canon(a) == Canon(b) <==> Same(a, b)
  {
    if Canon(a) == Canon(b) {
      SameIfCanonEqual(a, b);
    }
    if Same(a, b) {
      CanonEqualIfSame(a, b);
    }
  }

  lemma {:induction false} SameIfCanonEqual(a: Json, b: Json)
    requires Canon(a) == Canon(b)
    ensures Same(a, b)
    decreases a
  {
    match (a, b) {
      case (Arr(xs), Arr(ys)) =>
        forall i | 0 <= i < |xs| ensures |xs| == |ys| && Same(xs[i], ys[i]) {
          assert Canon(a).items[i] == Canon(b).items[i];
          SameIfCanonEqual(xs[i], ys[i]);
        }
      case (Obj(ms), Obj(ns)) =>
        forall i | 0 <= i < |ms| ensures HasSame(ms[i], ns) {
          var j := Partner(ms, ns, i);
          SameIfCanonEqual(ms[i].value, ns[j].value);
        }
        forall name ensures name in Names(ms) <==> name in Names(ns) {
          NamesOfCanon(ms, name);
          NamesOfCanon(ns, name);
        }
      case _ =>
    }
  }

  lemma NamesOfCanon(ms: seq<Member>, name: string)
    ensures name in Names(ms) <==> exists m :: m in Canon(Obj(ms)).members && m.name == name
  {
    var cm := CanonMembers(ms);
    if name in Names(ms) {
      var i :| 0 <= i < |ms| && ms[i].name == name;
      SortKeepsMembers(cm, cm[i]);
      assert cm[i] in Canon(Obj(ms)).members;
    }
    if exists m :: m in Canon(Obj(ms)).members && m.name == name {
      var m :| m in Canon(Obj(ms)).members && m.name == name;
      SortKeepsMembers(cm, m);
      var i :| 0 <= i < |cm| && cm[i] == m;
      assert ms[i] in ms;
    }
  }

  lemma Partner(ms: seq<Member>, ns: seq<Member>, i: nat) returns (j: nat)
    requires i < |ms| && Canon(Obj(ms)) == Canon(Obj(ns))
    ensures j < |ns| && ms[i].name == ns[j].name && Canon(ms[i].value) == Canon(ns[j].value)
  {
    var m := CanonMembers(ms)[i];
    SortKeepsMembers(CanonMembers(ms), m);
    SortKeepsMembers(CanonMembers(ns), m);
    j :| 0 <= j < |ns| && CanonMembers(ns)[j] == m;
  }

  lemma {:induction false} CanonEqualIfSame(a: Json, b: Json)
    requires UniqueNamed(a) && UniqueNamed(b) && Same(a, b)
    ensures Canon(a) == Canon(b)
    decreases a
  {
    match (a, b) {
      case (Arr(xs), Arr(ys)) =>
        forall i | 0 <= i < |xs| ensures Canon(xs[i]) == Canon(ys[i]) {
          CanonEqualIfSame(xs[i], ys[i]);
        }
      case (Obj(ms), Obj(ns)) =>
        forall i | 0 <= i < |ms| ensures CanonMembers(ms)[i] in CanonMembers(ns) {
          assert HasSame(ms[i], ns);
          var j :| 0 <= j < |ns| && ms[i].name == ns[j].name && Same(ms[i].value, ns[j].value);
          CanonEqualIfSame(ms[i].value, ns[j].value);
          assert CanonMembers(ns)[j] == CanonMembers(ms)[i];
        }
        SameNamesSameMembers(CanonMembers(ms), CanonMembers(ns), ms, ns);
        CanonMembersEqual(ms, ns);
      case _ =>
    }
  }

  /** With distinct names and the same name set, inclusion is equality. */
  lemma SameNamesSameMembers(cm: seq<Member>, cn: seq<Member>, ms: seq<Member>, ns: seq<Member>)
    requires cm == CanonMembers(ms) && cn == CanonMembers(ns)
    requires DistinctNames(ns) && Names(ms) == Names(ns)
    requires forall i :: 0 <= i < |cm| ==> cm[i] in cn
    ensures forall m :: m in cm <==> m in cn
  {
    forall j | 0 <= j < |cn| ensures cn[j] in cm {
      assert ns[j].name in Names(ns);
      var i :| 0 <= i < |ms| && ms[i].name == ns[j].name;
      assert cm[i] in cn;
      var k :| 0 <= k < |cn| && cn[k] == cm[i];
      assert ns[k].name == ns[j].name;
    }
  }

  lemma {:induction false} CanonFacts(j: Json)
    requires UniqueNamed(j)
    ensures UniqueNamed(Canon(j)) && Canon(Canon(j)) == Canon(j)
  {
    match j {
      case Arr(items) =>
        forall i | 0 <= i < |items|
          ensures UniqueNamed(Canon(items[i])) && Canon(Canon(items[i])) == Canon(items[i])
        {
          CanonFacts(items[i]);
        }
      case Obj(ms) =>
        var cm := CanonMembers(ms);
        forall i | 0 <= i < |ms|
          ensures UniqueNamed(cm[i].value) && Canon(cm[i].value) == cm[i].value
        {
          CanonFacts(ms[i].value);
        }
        SortedCanon(cm);
      case _ =>
    }
  }

  /** The canonical form is the same document up to member order. */
  lemma CanonIsSame(j: Json)
    requires UniqueNamed(j)
    ensures Same(Canon(j), j)
  {
    CanonFacts(j);
    CanonDecidesSame(Canon(j), j);
  }

  /** Sorting members whose values are canonical gives a canonical object. */
  lemma SortedCanon(cm: seq<Member>)
    requires DistinctNames(cm)
    requires forall i :: 0 <= i < |cm| ==> UniqueNamed(cm[i].value) && Canon(cm[i].value) == cm[i].value
    ensures UniqueNamed(Obj(Sort(cm))) && Canon(Obj(Sort(cm))) == Obj(Sort(cm))
  {
    var s := Sort(cm);
    SortFacts(cm);
    forall i | 0 <= i < |s| ensures UniqueNamed(s[i].value) && Canon(s[i].value) == s[i].value {
      assert s[i] in s;
      SortKeepsMembers(cm, s[i]);
    }
    forall i, k | 0 <= i < k < |s| ensures s[i].name != s[k].name {
      LessIsTotal(s[i].name, s[i].name);
    }
    assert CanonMembers(s) == s;
    SortFacts(s);
    forall m ensures m in Sort(s) <==> m in s {
      SortKeepsMembers(s, m);
    }
    SortedUnique(Sort(s), s);
  }

  // ---- objects as maps ----

  /** A decoded object; later members win, as in a Go map. */
  function ToMap(ms: seq<Member>): (r: map<string, Json>)
    ensures forall name :: name in r ==> exists i :: 0 <= i < |ms| && ms[i].name == name
  {
    if ms == [] then map[] else ToMap(ms[..|ms| - 1])[ms[|ms| - 1].name := ms[|ms| - 1].value]
  }

  /** ms lists exactly the entries of m, each once. */
  ghost predicate Lists(ms: seq<Member>, m: map<string, Json>) {
    DistinctNames(ms) && forall x: Member :: x in ms <==> x.name in m && m[x.name] == x.value
  }

  lemma {:induction false} ListsToMap(ms: seq<Member>)
    requires DistinctNames(ms)
    ensures Lists(ms, ToMap(ms))
  {
    if ms != [] {
      var most, last := ms[..|ms| - 1], ms[|ms| - 1];
      ListsToMap(most);
      assert ms == most + [last];
      ListsSnoc(most, ToMap(most), last);
    }
  }

  lemma ListsSnoc(most: seq<Member>, m: map<string, Json>, last: Member)
    requires Lists(most, m) && DistinctNames(most + [last])
    ensures Lists(most + [last], m[last.name := last.value])
  {
    NewName(most, last);
    ListedName(most, m, last.name);
    forall x: Member ensures x in most + [last] <==>
        x.name in m[last.name := last.value] && m[last.name := last.value][x.name] == x.value {
      assert x in most ==> x.name != last.name;
    }
  }

  lemma ListedName(ms: seq<Member>, m: map<string, Json>, name: string)
    requires Lists(ms, m)
    ensures name in m ==> exists x :: x in ms && x.name == name
  {
    if name in m { assert Member(name, m[name]) in ms; }
  }

  lemma NewName(most: seq<Member>, last: Member)
    requires DistinctNames(most + [last])
    ensures forall x :: x in most ==> x.name != last.name
  {
    var all := most + [last];
    forall i | 0 <= i < |most| ensures most[i].name != last.name {
      assert all[i] == most[i] && all[|most|] == last;
    }
  }
}
