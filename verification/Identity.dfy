/** Regular expressions with their meaning: which whole texts they match. */
module Regex {
  import opened Text

  datatype Re =
    | Class(accepts: char -> bool)
    | Cat(first: Re, second: Re)
    | Opt(body: Re)
    | Star(body: Re)

  ghost predicate Matches(re: Re, s: string)
    decreases re, |s|
  {
    match re
    case Class(accepts) => |s| == 1 && accepts(s[0])
    case Cat(a, b) => exists i :: 0 <= i <= |s| && Matches(a, s[..i]) && Matches(b, s[i..])
    case Opt(a) => s == "" || Matches(a, s)
    case Star(a) => s == "" || exists i :: 0 < i <= |s| && Matches(a, s[..i]) && Matches(re, s[i..])
  }

  predicate All(accepts: char -> bool, s: string) {
    forall i :: 0 <= i < |s| ==> accepts(s[i])
  }

  lemma {:induction false} StarOfClass(accepts: char -> bool, s: string)
    ensures Matches(Star(Class(accepts)), s) <==> All(accepts, s)
    decreases |s|
  {
    if s != "" {
      StarOfClass(accepts, s[1..]);
      assert Matches(Class(accepts), s[..1]) <==> accepts(s[0]);
      forall i | 0 < i <= |s| && Matches(Class(accepts), s[..i]) ensures i == 1 {
      }
      assert s == [s[0]] + s[1..];
    }
  }

  /** A character of a class, then the rest. */
  lemma ClassFirst(accepts: char -> bool, b: Re, s: string)
    ensures Matches(Cat(Class(accepts), b), s) <==> s != "" && accepts(s[0]) && Matches(b, s[1..])
  {
    if Matches(Cat(Class(accepts), b), s) {
      var i :| 0 <= i <= |s| && Matches(Class(accepts), s[..i]) && Matches(b, s[i..]);
      assert i == 1 && s[..i][0] == s[0];
    }
    if s != "" && accepts(s[0]) && Matches(b, s[1..]) {
      assert Matches(Class(accepts), s[..1]);
    }
  }

  lemma ClassLast(a: Re, accepts: char -> bool, s: string)
    ensures Matches(Cat(a, Class(accepts)), s) <==> s != "" && accepts(s[|s| - 1]) && Matches(a, s[..|s| - 1])
  {
    if Matches(Cat(a, Class(accepts)), s) {
      var i :| 0 <= i <= |s| && Matches(a, s[..i]) && Matches(Class(accepts), s[i..]);
      assert i == |s| - 1 && s[i..][0] == s[i];
    }
    if s != "" && accepts(s[|s| - 1]) && Matches(a, s[..|s| - 1]) {
      assert Matches(Class(accepts), s[|s| - 1..]);
    }
  }

  lemma CatAt(a: Re, b: Re, s: string, i: nat)
    requires i <= |s| && Matches(a, s[..i]) && Matches(b, s[i..])
    ensures Matches(Cat(a, b), s)
  {
  }

  lemma StarAt(a: Re, s: string, i: nat)
    requires 0 < i <= |s| && Matches(a, s[..i]) && Matches(Star(a), s[i..])
    ensures Matches(Star(a), s)
  {
  }
}

/** The identifiers of publishers and signers. */
module Identity {
  import opened Json
  import opened Text
  import opened Regex

  const URN_AIR := "urn:air:"
  const DID_WEB := "did:web:"

  predicate Alnum(c: char) {
    'a' <= c <= 'z' || '0' <= c <= '9'
  }

  predicate LabelChar(c: char) {
    Alnum(c) || c == '-'
  }

  predicate Dot(c: char) {
    c == '.'
  }

  // The expression ^L(\.L)*$ with L = [a-z0-9]([a-z0-9-]*[a-z0-9])?
  const LABEL: Re := Cat(Class(Alnum), Opt(Cat(Star(Class(LabelChar)), Class(Alnum))))
  const DOTTED_LABEL: Re := Cat(Class(Dot), LABEL)
  const DOMAIN: Re := Cat(LABEL, Star(DOTTED_LABEL))

  const MAX_NAME := 253
  const MAX_LABEL := 63

  /** A decimal octet without leading zeros. */
  predicate Octet(s: string) {
    && 1 <= |s| <= 3 && (forall i :: 0 <= i < |s| ==> '0' <= s[i] <= '9')
    && (|s| > 1 ==> s[0] != '0')
    && (|s| == 3 ==> s[0] < '2' || (s[0] == '2' && (s[1] < '5' || (s[1] == '5' && s[2] <= '5'))))
  }

  /** The texts without a colon that parse as an IP address. */
  predicate IsIPv4(s: string) {
    var parts := Split(s, '.');
    |parts| == 4 && forall p :: p in parts ==> Octet(p)
  }

  /** The rule as the code checks it: the expression, then the label lengths, then
      that the text is not an address. */
  ghost predicate PassesChecks(publisher: string) {
    && |publisher| <= MAX_NAME && Matches(DOMAIN, publisher)
    && (forall l :: l in Split(publisher, '.') ==> |l| <= MAX_LABEL)
    && !IsIPv4(publisher)
  }

  /** Letters, digits and inner hyphens. */
  predicate LabelText(l: string) {
    l != "" && Alnum(l[0]) && Alnum(l[|l| - 1]) && forall i :: 0 <= i < |l| ==> LabelChar(l[i])
  }

  /** A lowercase DNS name that is not an address. */
  predicate ValidPublisher(publisher: string) {
    && |publisher| <= MAX_NAME
    && (forall l :: l in Split(publisher, '.') ==> 1 <= |l| <= MAX_LABEL && LabelText(l))
    && !IsIPv4(publisher)
  }

  function CutPrefix(s: string, prefix: string): Option<string> {
    if prefix <= s then Some(s[|prefix|..]) else None
  }

  /** The publisher component of a urn:air identifier. */
  function Publisher(identifier: string): Option<string> {
    match CutPrefix(identifier, URN_AIR)
    case None => None
    case Some(rest) =>
      var publisher := rest[..Span(rest, ":")];
      if publisher == "" then None else Some(publisher)
  }

  function DID(publisher: string): string {
    DID_WEB + publisher
  }

  predicate RootDIDWeb(value: string) {
    var publisher := CutPrefix(value, DID_WEB);
    publisher.Some? && ValidPublisher(publisher.value)
  }

  /** signer is the did:web identity of the publisher the identifier names. */
  predicate IsPublisher(identifier: string, signer: string) {
    var publisher := Publisher(identifier);
    publisher.Some? && ValidPublisher(publisher.value) && signer == DID(publisher.value)
  }

  /** Where the DID document of a root did:web signer is. */
  function DidDocumentURL(did: string): Option<string> {
    match CutPrefix(did, DID_WEB)
    case None => None
    case Some(domain) =>
      if RootDIDWeb(did) then Some("https://" + domain + "/.well-known/did.json") else None
  }

  // ---- absolute URIs: ^[A-Za-z][A-Za-z0-9+.\-]*:\S+$ ----

  predicate Letter(c: char) {
    'a' <= c <= 'z' || 'A' <= c <= 'Z'
  }

  predicate SchemeChar(c: char) {
    Letter(c) || '0' <= c <= '9' || c in "+.-"
  }

  predicate Colon(c: char) {
    c == ':'
  }

  /** What \S matches: \s leaves out the vertical tab. */
  predicate NonSpace(c: char) {
    c !in "\t\n\U{0C}\r "
  }

  const AFTER_COLON: Re := Cat(Class(NonSpace), Star(Class(NonSpace)))
  const AFTER_LETTER: Re := Cat(Star(Class(SchemeChar)), Cat(Class(Colon), AFTER_COLON))
  const ABSOLUTE_URI: Re := Cat(Class(Letter), AFTER_LETTER)

  predicate IsAbsoluteURI(value: string) {
    var n := Span(value, ":");
    && 0 < n < |value| - 1
    && Letter(value[0]) && All(SchemeChar, value[..n]) && All(NonSpace, value[n + 1..])
  }

  // ---- the expressions mean what the rules say ----

  lemma LabelMatches(s: string)
    ensures Matches(LABEL, s) <==> LabelText(s)
  {
    var inner := Cat(Star(Class(LabelChar)), Class(Alnum));
    ClassFirst(Alnum, Opt(inner), s);
    if |s| > 1 {
      var t := s[1..];
      var middle := t[..|t| - 1];
      ClassLast(Star(Class(LabelChar)), Alnum, t);
      StarOfClass(LabelChar, middle);
      assert t[|t| - 1] == s[|s| - 1];
      assert forall j :: 0 < j < |s| - 1 ==> s[j] == middle[j - 1];
      assert forall j :: 0 <= j < |middle| ==> middle[j] == s[j + 1];
    } else if |s| == 1 {
      assert s[1..] == "";
    }
  }

  lemma DottedLabelMatches(s: string)
    ensures Matches(DOTTED_LABEL, s) <==> s != "" && s[0] == '.' && LabelText(s[1..])
  {
    ClassFirst(Dot, LABEL, s);
    if s != "" {
      LabelMatches(s[1..]);
    }
  }

  predicate AllLabels(s: string) {
    forall l :: l in Split(s, '.') ==> LabelText(l)
  }

  /** Nothing, or a dot and labels. */
  predicate DottedLabels(s: string) {
    s == "" || (s[0] == '.' && AllLabels(s[1..]))
  }

  lemma LabelThenRest(l: string, rest: string)
    requires '.' !in l && (rest == "" || rest[0] == '.')
    ensures AllLabels(l + rest) <==> LabelText(l) && DottedLabels(rest)
  {
    if rest == "" {
      assert l + rest == l;
      NoneIn(l, '.');
    } else {
      SplitCons(l, rest[1..], '.');
      assert l + "." + rest[1..] == l + rest;
      assert Split(l + rest, '.') == [l] + Split(rest[1..], '.');
      assert forall p :: p in Split(l + rest, '.') <==> p == l || p in Split(rest[1..], '.');
    }
  }

  lemma NoDot(l: string)
    requires LabelText(l)
    ensures '.' !in l
  {
    forall i | 0 <= i < |l| ensures l[i] != '.' {
      assert LabelChar(l[i]);
    }
  }

  lemma {:induction false} TailMatches(s: string)
    ensures Matches(Star(DOTTED_LABEL), s) <==> DottedLabels(s)
    decreases |s|, 1
  {
    if s != "" && Matches(Star(DOTTED_LABEL), s) {
      var i :| 0 < i <= |s| && Matches(DOTTED_LABEL, s[..i]) && Matches(Star(DOTTED_LABEL), s[i..]);
      TailMatches(s[i..]);
      DottedLabelMatches(s[..i]);
      NoDot(s[..i][1..]);
      LabelThenRest(s[..i][1..], s[i..]);
      assert s[..i][1..] + s[i..] == s[1..];
    }
    if s != "" && DottedLabels(s) {
      LabelsMatchTail(s);
    }
  }

  lemma {:induction false} LabelsMatchTail(s: string)
    requires s != "" && DottedLabels(s)
    ensures Matches(Star(DOTTED_LABEL), s)
    decreases |s|, 0
  {
    var i := FirstLabel(s);
    TailMatches(s[i..]);
    StarAt(DOTTED_LABEL, s, i);
  }

  lemma FirstLabel(s: string) returns (i: nat)
    requires s != "" && DottedLabels(s)
    ensures 0 < i <= |s| && Matches(DOTTED_LABEL, s[..i]) && DottedLabels(s[i..])
  {
    var t := s[1..];
    var n := Span(t, ".");
    NoDotBefore(t, n);
    LabelThenRest(t[..n], t[n..]);
    assert t[..n] + t[n..] == t;
    i := n + 1;
    assert s[..i][1..] == t[..n] && s[i..] == t[n..];
    DottedLabelMatches(s[..i]);
  }

  lemma NoDotBefore(t: string, n: nat)
    requires n == Span(t, ".")
    ensures '.' !in t[..n] && (t[n..] == "" || t[n..][0] == '.')
  {
  }

  lemma DomainMatches(s: string)
    ensures Matches(DOMAIN, s) <==> AllLabels(s)
  {
    if Matches(DOMAIN, s) {
      MatchedDomain(s);
    }
    if AllLabels(s) {
      var n := Span(s, ".");
      NoDotBefore(s, n);
      LabelThenRest(s[..n], s[n..]);
      assert s[..n] + s[n..] == s;
      LabelMatches(s[..n]);
      TailMatches(s[n..]);
      CatAt(LABEL, Star(DOTTED_LABEL), s, n);
    }
  }

  lemma MatchedDomain(s: string)
    requires Matches(DOMAIN, s)
    ensures AllLabels(s)
  {
    var i :| 0 <= i <= |s| && Matches(LABEL, s[..i]) && Matches(Star(DOTTED_LABEL), s[i..]);
    LabelMatches(s[..i]);
    TailMatches(s[i..]);
    NoDot(s[..i]);
    LabelThenRest(s[..i], s[i..]);
    assert s[..i] + s[i..] == s;
  }

  /** The checks accept exactly the names the rule describes. */
  lemma ChecksDecideValidPublisher(publisher: string)
    ensures PassesChecks(publisher) <==> ValidPublisher(publisher)
  {
    DomainMatches(publisher);
  }

  lemma AfterColonMatches(u: string)
    ensures Matches(Cat(Class(Colon), AFTER_COLON), u) <==> |u| > 1 && u[0] == ':' && All(NonSpace, u[1..])
  {
    ClassFirst(Colon, AFTER_COLON, u);
    if u != "" {
      var v := u[1..];
      ClassFirst(NonSpace, Star(Class(NonSpace)), v);
      if v != "" {
        StarOfClass(NonSpace, v[1..]);
        assert v == [v[0]] + v[1..];
      }
    }
  }

  lemma AbsoluteURIMatches(s: string)
    ensures Matches(ABSOLUTE_URI, s) <==> IsAbsoluteURI(s)
  {
    ClassFirst(Letter, AFTER_LETTER, s);
    if Matches(ABSOLUTE_URI, s) {
      MatchedURI(s);
    }
    if IsAbsoluteURI(s) {
      URIMatches(s);
    }
  }

  lemma URIMatches(s: string)
    requires IsAbsoluteURI(s)
    ensures Matches(ABSOLUTE_URI, s)
  {
    var n := Span(s, ":");
    var t := s[1..];
    ClassFirst(Letter, AFTER_LETTER, s);
    assert t[n - 1..] == s[n..] && s[n..][1..] == s[n + 1..] && t[..n - 1] == s[..n][1..];
    AfterColonMatches(s[n..]);
    StarOfClass(SchemeChar, t[..n - 1]);
    CatAt(Star(Class(SchemeChar)), Cat(Class(Colon), AFTER_COLON), t, n - 1);
  }

  lemma MatchedURI(s: string)
    requires s != "" && Letter(s[0]) && Matches(AFTER_LETTER, s[1..])
    ensures IsAbsoluteURI(s)
  {
    var t := s[1..];
    var k := SchemeEnd(t);
    StarOfClass(SchemeChar, t[..k]);
    AfterColonMatches(t[k..]);
    assert t[k..][1..] == s[k + 2..] && s[k + 1] == t[k..][0];
    forall m | 0 < m < k + 1 ensures SchemeChar(s[m]) {
      assert s[m] == t[..k][m - 1];
    }
    URIText(s, k + 1);
  }

  lemma SchemeEnd(t: string) returns (k: nat)
    requires Matches(AFTER_LETTER, t)
    ensures k <= |t| && Matches(Star(Class(SchemeChar)), t[..k]) && Matches(Cat(Class(Colon), AFTER_COLON), t[k..])
  {
    k :| 0 <= k <= |t| && Matches(Star(Class(SchemeChar)), t[..k])
      && Matches(Cat(Class(Colon), AFTER_COLON), t[k..]);
  }

  lemma URIText(s: string, n: nat)
    requires n < |s| && s[n] == ':' && s[0] != ':' && forall m :: 0 < m < n ==> SchemeChar(s[m])
    ensures Span(s, ":") == n
  {
    forall m | 0 <= m < n ensures s[m] !in ":" {
      assert m > 0 ==> SchemeChar(s[m]);
    }
  }

  // ---- how the identifiers fit together ----

  lemma PublisherText(p: string)
    requires ValidPublisher(p)
    ensures p != "" && forall i :: 0 <= i < |p| ==> LabelChar(p[i]) || p[i] == '.'
  {
    assert Split("", '.') == [""] && "" in Split("", '.');
    LabelsText(p);
  }

  lemma {:induction false} LabelsText(p: string)
    requires AllLabels(p)
    ensures forall i :: 0 <= i < |p| ==> LabelChar(p[i]) || p[i] == '.'
    decreases |p|
  {
    var n := Span(p, ".");
    NoDotBefore(p, n);
    LabelThenRest(p[..n], p[n..]);
    assert p[..n] + p[n..] == p;
    if n < |p| {
      assert p[n..][1..] == p[n + 1..];
      LabelsText(p[n + 1..]);
    }
    forall i | 0 <= i < |p| ensures LabelChar(p[i]) || p[i] == '.' {
      if i < n { assert p[i] == p[..n][i]; }
      if n < i { assert p[i] == p[n + 1..][i - n - 1]; }
    }
  }

  /** A signer is the root did:web identity of exactly the valid publishers, whose DID
      document is on their own host. */
  lemma RootOfPublisher(p: string)
    ensures RootDIDWeb(DID(p)) <==> ValidPublisher(p)
    ensures ValidPublisher(p) ==> DidDocumentURL(DID(p)) == Some("https://" + p + "/.well-known/did.json")
  {
    assert DID(p)[|DID_WEB|..] == p;
  }

  /** An identifier that names a valid publisher gives it back, whatever follows. */
  lemma PublisherNamed(p: string, rest: string)
    requires ValidPublisher(p)
    ensures Publisher(URN_AIR + p + ":" + rest) == Some(p) && Publisher(URN_AIR + p) == Some(p)
  {
    PublisherBefore(p, ":" + rest);
    PublisherBefore(p, "");
    assert URN_AIR + p + ":" + rest == URN_AIR + (p + (":" + rest));
    assert URN_AIR + p == URN_AIR + (p + "");
  }

  lemma PublisherBefore(p: string, rest: string)
    requires ValidPublisher(p) && (rest == "" || rest[0] == ':')
    ensures Publisher(URN_AIR + (p + rest)) == Some(p)
  {
    PublisherText(p);
    forall i | 0 <= i < |p| ensures p[i] !in ":" {
      assert LabelChar(p[i]) || p[i] == '.';
    }
    SpanAppend(p, rest, ":");
    PrefixCut(URN_AIR, p + rest);
    assert (p + rest)[..|p|] == p;
  }

  lemma PrefixCut(prefix: string, rest: string)
    ensures CutPrefix(prefix + rest, prefix) == Some(rest)
  {
    assert (prefix + rest)[|prefix|..] == rest;
  }

  /** At most one signer speaks for the publisher of an identifier, and it is a root
      did:web identity. */
  lemma OnePublisher(identifier: string, s: string, t: string)
    requires IsPublisher(identifier, s)
    ensures RootDIDWeb(s)
    ensures IsPublisher(identifier, t) <==> s == t
  {
    RootOfPublisher(Publisher(identifier).value);
  }

  lemma RootIsAbsolute(s: string)
    requires RootDIDWeb(s)
    ensures IsAbsoluteURI(s) && s != "" && s[0] != '#'
  {
    var p := s[|DID_WEB|..];
    PublisherText(p);
    WebText(p);
    assert s == DID_WEB + p;
    assert DID_WEB + p == "did" + ":" + ("web:" + p);
    SchemeThenText("did", "web:" + p);
  }

  lemma WebText(p: string)
    requires forall i :: 0 <= i < |p| ==> LabelChar(p[i]) || p[i] == '.'
    ensures All(NonSpace, "web:" + p)
  {
    forall i | 0 <= i < |p| ensures NonSpace(p[i]) {
      assert LabelChar(p[i]) || p[i] == '.';
    }
  }

  /** A scheme, a colon and some visible text. */
  lemma SchemeThenText(scheme: string, text: string)
    requires scheme != "" && Letter(scheme[0]) && All(SchemeChar, scheme) && text != "" && All(NonSpace, text)
    ensures IsAbsoluteURI(scheme + ":" + text)
  {
    var s, n := scheme + ":" + text, |scheme|;
    forall m | 0 < m < n ensures SchemeChar(s[m]) {
      assert s[m] == scheme[m];
    }
    assert s[0] == scheme[0] && s[..n] == scheme && s[n + 1..] == text;
    URIText(s, n);
  }

  // ---- what an identifier names, in terms of its text ----

  /** The name stands after "urn:air:", up to a colon or the end. */
  predicate NamesPublisher(identifier: string, p: string) {
    identifier == "urn:air:" + p || "urn:air:" + p + ":" <= identifier
  }

  /** A signer is the publisher of an identifier if and only if a valid name follows
      "did:web:" in the one and stands in the other. */
  lemma IsPublisherIff(identifier: string, signer: string)
    ensures IsPublisher(identifier, signer) <==>
            exists p :: ValidPublisher(p) && signer == "did:web:" + p && NamesPublisher(identifier, p)
  {
    if IsPublisher(identifier, signer) {
      PublisherNames(identifier);
    }
    if p :| ValidPublisher(p) && signer == "did:web:" + p && NamesPublisher(identifier, p) {
      NamedPublisher(identifier, p);
    }
  }

  lemma PublisherNames(identifier: string)
    requires Publisher(identifier).Some?
    ensures NamesPublisher(identifier, Publisher(identifier).value)
  {
    var rest := identifier[|URN_AIR|..];
    var n := Span(rest, ":");
    var p, after := rest[..n], rest[n..];
    assert rest == p + after && identifier == URN_AIR + rest;
    if after == "" {
      assert p + after == p;
    } else {
      assert after == ":" + after[1..];
      AppendedTail(p, after[1..]);
    }
  }

  lemma AppendedTail(p: string, tail: string)
    ensures "urn:air:" + p + ":" <= URN_AIR + (p + (":" + tail))
  {
    assert URN_AIR + (p + (":" + tail)) == "urn:air:" + p + ":" + tail;
  }

  lemma NamedPublisher(identifier: string, p: string)
    requires ValidPublisher(p) && NamesPublisher(identifier, p)
    ensures Publisher(identifier) == Some(p)
  {
    if identifier == "urn:air:" + p {
      PublisherNamed(p, "");
    } else {
      var tail := identifier[|"urn:air:" + p + ":"|..];
      assert identifier == "urn:air:" + p + ":" + tail;
      PublisherNamed(p, tail);
    }
  }

  /** A valid name has at most 253 characters, in labels of 1 to 63 letters, digits and
      inner hyphens, and is not an address (section 2.3.4 of RFC 1035). */
  lemma ValidPublisherIff(p: string)
    ensures ValidPublisher(p) <==>
            && |p| <= 253 && !IsIPv4(p)
            && forall l :: l in Split(p, '.') ==>
                 && 1 <= |l| <= 63 && l[0] != '-' && l[|l| - 1] != '-'
                 && forall i :: 0 <= i < |l| ==> 'a' <= l[i] <= 'z' || '0' <= l[i] <= '9' || l[i] == '-'
  {
    forall l ensures LabelText(l) <==>
        l != "" && l[0] != '-' && l[|l| - 1] != '-'
        && forall i :: 0 <= i < |l| ==> 'a' <= l[i] <= 'z' || '0' <= l[i] <= '9' || l[i] == '-'
    {
      LabelIff(l);
    }
  }

  lemma LabelIff(l: string)
    ensures LabelText(l) <==>
            l != "" && l[0] != '-' && l[|l| - 1] != '-'
            && forall i :: 0 <= i < |l| ==> 'a' <= l[i] <= 'z' || '0' <= l[i] <= '9' || l[i] == '-'
  {
    if l != "" && forall i :: 0 <= i < |l| ==> LabelChar(l[i]) {
      assert LabelChar(l[0]) && LabelChar(l[|l| - 1]);
    }
  }

  // ---- addresses ----

  function DigitOf(n: int): char
    requires 0 <= n < 10
  {
    ('0' as int + n) as char
  }

  function Decimal(n: nat): string {
    if n < 10 then [DigitOf(n)] else Decimal(n / 10) + [DigitOf(n % 10)]
  }

  ghost predicate IsByte(s: string) {
    exists n: nat :: n < 256 && s == Decimal(n)
  }

  lemma DecimalOfThree(n: nat)
    requires n < 256
    ensures n >= 100 ==> Decimal(n) == [DigitOf(n / 100), DigitOf(n / 10 % 10), DigitOf(n % 10)]
    ensures 10 <= n < 100 ==> Decimal(n) == [DigitOf(n / 10), DigitOf(n % 10)]
    ensures n < 10 ==> Decimal(n) == [DigitOf(n)]
  {
    if n >= 100 {
      assert Decimal(n / 100) == [DigitOf(n / 100)] && n / 10 / 10 == n / 100;
      assert Decimal(n / 10) == Decimal(n / 100) + [DigitOf(n / 10 % 10)];
    }
  }

  function ValueOf(s: string): int {
    if s == "" then 0 else ValueOf(s[..|s| - 1]) * 10 + (s[|s| - 1] as int - '0' as int)
  }

  lemma ValueOfThree(s: string)
    ensures |s| == 1 ==> ValueOf(s) == s[0] as int - '0' as int
    ensures |s| == 2 ==> ValueOf(s) == (s[0] as int - '0' as int) * 10 + (s[1] as int - '0' as int)
    ensures |s| == 3 ==>
      ValueOf(s) == (s[0] as int - '0' as int) * 100 + (s[1] as int - '0' as int) * 10 + (s[2] as int - '0' as int)
  {
    if 1 <= |s| <= 3 {
      assert s[..1][..0] == "" && ValueOf(s[..1]) == s[0] as int - '0' as int;
      if |s| == 1 {
        assert s[..1] == s;
      } else {
        assert s[..2][..1] == s[..1] && ValueOf(s[..2]) == ValueOf(s[..1]) * 10 + (s[1] as int - '0' as int);
        if |s| == 2 { assert s[..2] == s; }
      }
    }
  }

  /** An octet is the decimal text of a number below 256. */
  lemma OctetIff(s: string)
    ensures Octet(s) <==> IsByte(s)
  {
    if Octet(s) {
      OctetText(s);
    }
    if n: nat :| n < 256 && s == Decimal(n) {
      DecimalOfThree(n);
    }
  }

  lemma OctetText(s: string)
    requires Octet(s)
    ensures 0 <= ValueOf(s) < 256 && s == Decimal(ValueOf(s))
  {
    ValueOfThree(s);
    DecimalOfThree(ValueOf(s));
  }

  /** The texts taken for addresses are four such numbers between dots. */
  lemma AddressIff(s: string)
    ensures IsIPv4(s) <==>
            exists a, b, c, d :: IsByte(a) && IsByte(b) && IsByte(c) && IsByte(d) && s == Join([a, b, c, d], ".")
  {
    var parts := Split(s, '.');
    if IsIPv4(s) {
      JoinOfSplit(s, '.');
      forall p | p in parts ensures IsByte(p) { OctetIff(p); }
      assert parts == [parts[0], parts[1], parts[2], parts[3]];
      assert IsByte(parts[0]) && IsByte(parts[1]) && IsByte(parts[2]) && IsByte(parts[3]);
    }
    if a, b, c, d :| IsByte(a) && IsByte(b) && IsByte(c) && IsByte(d) && s == Join([a, b, c, d], ".") {
      forall p | p in [a, b, c, d] ensures Octet(p) && '.' !in p {
        OctetIff(p);
      }
      SplitOfJoin([a, b, c, d], '.');
    }
  }
}
