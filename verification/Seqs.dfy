/** Laws of sequences. */
module Seqs {

  lemma Regroup<T>(a: seq<T>, b: seq<T>, c: seq<T>, d: seq<T>)
    ensures a + b + c + d == a + (b + (c + d))
  {
  }

  lemma Regroup2<T>(a: seq<T>, b: seq<T>, c: seq<T>, d: seq<T>)
    ensures a + (b + c) + d == a + (b + (c + d))
  {
  }

  lemma Associate<T>(a: seq<T>, b: seq<T>, c: seq<T>)
    ensures a + b + c == a + (b + c)
  {
  }

  lemma ConsAppend<T>(x: T, xs: seq<T>, ys: seq<T>)
    ensures [x] + (xs + ys) == ([x] + xs) + ys
  {
  }

  lemma ConsDiffers<T>(x: T, xs: seq<T>, y: T, ys: seq<T>)
    requires x != y || xs != ys
    ensures [x] + xs != [y] + ys
  {
    assert ([x] + xs)[0] == x && ([y] + ys)[0] == y;
    assert ([x] + xs)[1..] == xs && ([y] + ys)[1..] == ys;
  }

  /** The elements that satisfy f, in order. */
  function Filter<T>(f: T -> bool, s: seq<T>): seq<T> {
    if s == [] then [] else (if f(s[0]) then [s[0]] else []) + Filter(f, s[1..])
  }

  lemma {:induction false} FilterAppend<T>(f: T -> bool, a: seq<T>, b: seq<T>)
    ensures Filter(f, a + b) == Filter(f, a) + Filter(f, b)
  {
    if a == [] {
      assert a + b == b;
    } else {
      FilterAppend(f, a[1..], b);
      FilterPrepend(f, a[0], a[1..], b);
      assert a == [a[0]] + a[1..];
    }
  }

  lemma FilterPrepend<T>(f: T -> bool, x: T, a: seq<T>, b: seq<T>)
    requires Filter(f, a + b) == Filter(f, a) + Filter(f, b)
    ensures Filter(f, [x] + a + b) == Filter(f, [x] + a) + Filter(f, b)
  {
    ConsAppend(x, a, b);
    FilterCons(f, x, a + b);
    FilterCons(f, x, a);
    Associate(if f(x) then [x] else [], Filter(f, a), Filter(f, b));
  }

  lemma FilterCons<T>(f: T -> bool, x: T, rest: seq<T>)
    ensures Filter(f, [x] + rest) == (if f(x) then [x] else []) + Filter(f, rest)
  {
    assert ([x] + rest)[1..] == rest;
  }

  lemma FilterSnoc<T>(f: T -> bool, s: seq<T>, i: nat)
    requires i < |s|
    ensures Filter(f, s[..i + 1]) == Filter(f, s[..i]) + if f(s[i]) then [s[i]] else []
  {
    FilterAppend(f, s[..i], [s[i]]);
    assert s[..i + 1] == s[..i] + [s[i]];
  }

  lemma {:induction false} FilterNone<T>(f: T -> bool, s: seq<T>)
    ensures Filter(f, s) == [] <==> forall j :: 0 <= j < |s| ==> !f(s[j])
  {
    if s != [] {
      FilterNone(f, s[1..]);
      assert forall j :: 0 < j < |s| ==> s[j] == s[1..][j - 1];
    }
  }

  /** A single element satisfies f. */
  lemma {:induction false} FilterOnce<T>(f: T -> bool, s: seq<T>) returns (i: nat)
    requires |Filter(f, s)| == 1
    ensures i < |s| && Filter(f, s) == [s[i]] && forall j :: 0 <= j < |s| ==> (f(s[j]) <==> j == i)
  {
    assert forall j :: 0 < j < |s| ==> s[j] == s[1..][j - 1];
    if f(s[0]) {
      FilterNone(f, s[1..]);
      i := 0;
    } else {
      var k := FilterOnce(f, s[1..]);
      i := k + 1;
    }
  }

  lemma {:induction false} FilterAlone<T>(f: T -> bool, s: seq<T>, i: nat)
    requires i < |s| && forall j :: 0 <= j < |s| ==> (f(s[j]) <==> j == i)
    ensures Filter(f, s) == [s[i]]
  {
    assert forall j :: 0 < j < |s| ==> s[j] == s[1..][j - 1];
    if i == 0 {
      FilterNone(f, s[1..]);
    } else {
      FilterAlone(f, s[1..], i - 1);
    }
  }

  lemma {:induction false} FilterMultiset<T>(f: T -> bool, s: seq<T>, x: T)
    ensures multiset(Filter(f, s))[x] == if f(x) then multiset(s)[x] else 0
  {
    if s != [] {
      FilterMultiset(f, s[1..], x);
      assert s == [s[0]] + s[1..];
    }
  }

  /** A change that f does not notice can be made before or after filtering. */
  lemma {:induction false} FilterChanged<T>(f: T -> bool, g: T -> T, s: seq<T>, t: seq<T>)
    requires |t| == |s| && forall i :: 0 <= i < |s| ==> t[i] == g(s[i]) && (f(t[i]) <==> f(s[i]))
    ensures |Filter(f, t)| == |Filter(f, s)|
    ensures forall i :: 0 <= i < |Filter(f, s)| ==> Filter(f, t)[i] == g(Filter(f, s)[i])
  {
    if s != [] {
      assert t[0] == g(s[0]);
      FilterChanged(f, g, s[1..], t[1..]);
    }
  }
}
