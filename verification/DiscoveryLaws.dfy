/** What a discovery asks, what it finds, and what it reports when it finds nothing. */
module DiscoveryLaws {
  import opened Json
  import opened Text
  import opened Utf8
  import opened Catalog
  import opened Discovery
  import LinkGrammar

  // ---- the input ----

  lemma Prefixed(t: string)
    requires t != "" && t[|t| - 1] !in SPACE
    ensures TrimSpace("https://" + t) == "https://" + t && HasSchemeSeparator("https://" + t)
  {
    var s := "https://" + t;
    assert s[0] == 'h' && s[|s| - 1] == t[|t| - 1];
    assert s[5] == ':' && s[6] == '/' && s[7] == '/';
  }

  /** A bare domain stands for its https URL, and white space around it for nothing. */
  lemma BareDomainIsHTTPS(w: Web, input: string)
    ensures ParseInput(w, TrimSpace(input)) == ParseInput(w, input)
    ensures TrimSpace(input) != "" && !HasSchemeSeparator(TrimSpace(input)) ==>
              ParseInput(w, input) == ParseInput(w, "https://" + TrimSpace(input))
  {
    TrimSpaceFacts(input);
    if TrimSpace(input) != "" { Prefixed(TrimSpace(input)); }
  }

  lemma ColonAt(host: string, n: nat)
    requires n < |host| && host[n] == ':' && forall i :: n < i < |host| ==> host[i] != ':'
    ensures LastColon(host) == n
  {
  }

  lemma {:induction false} NoColon(host: string)
    requires ':' !in host
    ensures LastColon(host) == |host|
  {
    assert forall i :: 0 <= i < |host| ==> host[i] in host;
  }

  lemma WithPort(h: string, port: string)
    requires IsPort(port)
    ensures var host := h + ":" + port; LastColon(host) == |h| && host[..|h|] == h && host[|h| + 1..] == port
  {
    forall i | 0 <= i < |port| ensures port[i] != ':' {}
    ColonAt(h + ":" + port, |h|);
  }

  /** The host name of a name is itself, with or without a port. */
  lemma HostnameOfName(name: string, port: string)
    requires IsPort(port) && ':' !in name && (name == "" || name[0] != '[')
    ensures Hostname(name) == name && Hostname(name + ":" + port) == name
  {
    WithPort(name, port);
    NoColon(name);
  }

  /** The host name of a bracketed address with a port is the address. */
  lemma HostnameOfAddress(address: string, port: string)
    requires IsPort(port)
    ensures Hostname("[" + address + "]" + ":" + port) == address
  {
    var h := "[" + address + "]";
    WithPort(h, port);
    assert h[1..|h| - 1] == address;
  }

  /** The input without white space around it, as a URL: https if it names no scheme. */
  ghost predicate Spells(w: Web, input: string, u: Url) {
    var t := TrimSpace(input);
    && t != ""
    && ((exists a, b :: t == a + "://" + b) ==> w.parseUrl(t) == Some(u))
    && (!(exists a, b :: t == a + "://" + b) ==> w.parseUrl("https://" + t) == Some(u))
  }

  lemma SeparatorIff(t: string)
    ensures HasSchemeSeparator(t) <==> exists a, b :: t == a + "://" + b
  {
    if HasSchemeSeparator(t) {
      var i :| 0 <= i <= |t| - 3 && t[i] == ':' && t[i + 1] == '/' && t[i + 2] == '/';
      assert t[i..i + 3] == "://";
      assert t == t[..i] + "://" + t[i + 3..];
    }
    if a, b :| t == a + "://" + b {
      assert t[|a|] == ':' && t[|a| + 1] == '/' && t[|a| + 2] == '/';
    }
  }

  /** The start is the https URL that the input spells, if it has a host; an empty path
      is written out. */
  lemma InputIff(w: Web, input: string, u: Url)
    ensures ParseInput(w, input) == Some(u) <==>
            exists v :: Spells(w, input, v) && v.scheme == "https" && Hostname(v.host) != ""
                        && u == v.(path := if v.path == "" then "/" else v.path)
  {
    var t := TrimSpace(input);
    SeparatorIff(t);
    if t != "" {
      var parsed := w.parseUrl(if HasSchemeSeparator(t) then t else "https://" + t);
      if parsed.Some? { assert Spells(w, input, parsed.value); }
    }
  }

  // ---- what every run keeps ----

  /** The URLs are one request: they differ at most in their fragments. */
  predicate Agree(u: Url, v: Url) {
    && u.scheme == v.scheme && u.user == v.user && u.host == v.host && u.path == v.path && u.query == v.query
  }

  lemma KeyIff(u: Url, v: Url)
    ensures RequestKey(u) == RequestKey(v) <==> Agree(u, v)
  {
  }

  predicate Asked(fetched: seq<Url>, u: Url) {
    exists i :: 0 <= i < |fetched| && Agree(fetched[i], u)
  }

  /** Everything fetched is https, no two requests are for the same thing, and exactly
      the requests made are remembered. */
  ghost predicate Consistent(st: Memory) {
    && (forall i :: 0 <= i < |st.fetched| ==> st.fetched[i].scheme == "https")
    && (forall i, j :: 0 <= i < j < |st.fetched| ==> !Agree(st.fetched[i], st.fetched[j]))
    && (forall u :: RequestKey(u) in st.requested <==> Asked(st.fetched, u))
  }

  lemma AskedMore(fetched: seq<Url>, u: Url, v: Url)
    ensures Asked(fetched + [u], v) <==> Asked(fetched, v) || Agree(u, v)
  {
    var more := fetched + [u];
    if i :| 0 <= i < |fetched| && Agree(fetched[i], v) { assert more[i] == fetched[i]; }
    if Agree(u, v) { assert more[|fetched|] == u; }
  }

  lemma FetchKeeps(st: Memory, u: Url, attempts: seq<Attempt>)
    requires Consistent(st) && u.scheme == HTTPS && RequestKey(u) !in st.requested
    ensures Consistent(Memory(st.requested + {RequestKey(u)}, attempts, st.fetched + [u]))
  {
    var more := st.fetched + [u];
    assert !Asked(st.fetched, u);
    forall i, j | 0 <= i < j < |more| ensures !Agree(more[i], more[j]) {
      assert more[i] == st.fetched[i];
    }
    forall v ensures RequestKey(v) in st.requested + {RequestKey(u)} <==> Asked(more, v) {
      AskedMore(st.fetched, u, v);
      KeyIff(u, v);
    }
  }

  lemma StepKeeps(w: Web, st: Memory, c: Candidate)
    requires Consistent(st)
    ensures Consistent(Step(w, st, c).memory)
  {
    if c.url.scheme == HTTPS && RequestKey(c.url) !in st.requested {
      FetchKeeps(st, c.url, Step(w, st, c).memory.attempts);
    }
  }

  lemma {:induction false} WalkKeeps(w: Web, st: Memory, cs: seq<Candidate>)
    requires Consistent(st)
    ensures Consistent(Walk(w, st, cs).0)
    decreases |cs|
  {
    if cs != [] {
      StepKeeps(w, st, cs[0]);
      WalkKeeps(w, Step(w, st, cs[0]).memory, cs[1..]);
    }
  }

  /** Every run asks only https URLs, and none twice. */
  lemma RunIsConsistent(w: Web, input: string)
    requires ParseInput(w, input).Some?
    ensures Consistent(Run(w, ParseInput(w, input).value).0)
  {
    var start := ParseInput(w, input).value;
    var t := Step(w, START, Candidate(start, Direct));
    StepKeeps(w, START, Candidate(start, Direct));
    WalkKeeps(w, t.memory, Candidates(w, start, t.response));
  }

  // ---- the account of a run that finds nothing ----

  function NotHTTPS(cs: seq<Candidate>): nat {
    if cs == [] then 0 else (if cs[0].url.scheme != HTTPS then 1 else 0) + NotHTTPS(cs[1..])
  }

  lemma StepCount(w: Web, st: Memory, c: Candidate)
    requires Step(w, st, c).found.None?
    ensures var st' := Step(w, st, c).memory;
            |st'.attempts| - |st.attempts| == |st'.fetched| - |st.fetched| + if c.url.scheme != HTTPS then 1 else 0
    ensures |Step(w, st, c).memory.fetched| <= |st.fetched| + 1
  {
  }

  lemma {:induction false} WalkCount(w: Web, st: Memory, cs: seq<Candidate>)
    requires Walk(w, st, cs).1.None?
    ensures var st' := Walk(w, st, cs).0;
            |st'.attempts| - |st.attempts| == |st'.fetched| - |st.fetched| + NotHTTPS(cs)
    ensures |Walk(w, st, cs).0.fetched| <= |st.fetched| + |cs|
    decreases |cs|
  {
    if cs != [] {
      StepCount(w, st, cs[0]);
      WalkCount(w, Step(w, st, cs[0]).memory, cs[1..]);
    }
  }

  /** The response to the first request of a run. */
  function FirstResponse(w: Web, start: Url): Option<Response> {
    w.fetch(0, start)
  }

  /** When nothing is found, the attempts are the fetches and the candidates that are not
      https, and there are at most as many fetches as candidates and one more. */
  lemma NothingFoundAccount(w: Web, input: string)
    requires ParseInput(w, input).Some? && Run(w, ParseInput(w, input).value).1.None?
    ensures var start := ParseInput(w, input).value;
            var memory, cs := Run(w, start).0, Candidates(w, start, FirstResponse(w, start));
            && |memory.attempts| == |memory.fetched| + NotHTTPS(cs)
            && 1 <= |memory.fetched| <= 1 + |cs|
  {
    var start := ParseInput(w, input).value;
    var t := Trying(w, START, Candidate(start, Direct));
    WalkCount(w, t.memory, Candidates(w, start, t.response));
    WalkGrows(w, t.memory, Candidates(w, start, t.response));
  }

  lemma {:induction false} WalkGrows(w: Web, st: Memory, cs: seq<Candidate>)
    ensures st.requested <= Walk(w, st, cs).0.requested
    ensures |st.fetched| <= |Walk(w, st, cs).0.fetched|
    decreases |cs|
  {
    if cs != [] {
      WalkGrows(w, Step(w, st, cs[0]).memory, cs[1..]);
    }
  }

  lemma {:induction false} WalkAsksAll(w: Web, st: Memory, cs: seq<Candidate>, i: nat)
    requires Walk(w, st, cs).1.None? && i < |cs| && cs[i].url.scheme == HTTPS
    ensures RequestKey(cs[i].url) in Walk(w, st, cs).0.requested
    decreases |cs|
  {
    var st' := Step(w, st, cs[0]).memory;
    if i == 0 {
      WalkGrows(w, st', cs[1..]);
    } else {
      WalkAsksAll(w, st', cs[1..], i - 1);
    }
  }

  /** When nothing is found, every https candidate has been asked. */
  lemma NothingLeftOut(w: Web, input: string, c: Candidate)
    requires ParseInput(w, input).Some? && Run(w, ParseInput(w, input).value).1.None?
    requires var start := ParseInput(w, input).value; c in Candidates(w, start, FirstResponse(w, start))
    requires c.url.scheme == "https"
    ensures Asked(Run(w, ParseInput(w, input).value).0.fetched, c.url)
  {
    var start := ParseInput(w, input).value;
    var t := Trying(w, START, Candidate(start, Direct));
    var cs := Candidates(w, start, t.response);
    var i :| 0 <= i < |cs| && cs[i] == c;
    WalkAsksAll(w, t.memory, cs, i);
    RunIsConsistent(w, input);
  }

  // ---- what there is to try ----

  /** The page is HTML by its media type. */
  predicate Page(w: Web, r: Response) {
    w.mediaType(r.contentType) == Some("text/html") || w.mediaType(r.contentType) == Some("application/xhtml+xml")
  }

  /** The base element of a page counts if it resolves. */
  function BaseOf(w: Web, r: Response): Url {
    var base := w.htmlLinks(r.body, "ai-catalog").base;
    if base != "" && w.resolve(r.url, base).Some? then w.resolve(r.url, base).value else r.url
  }

  /** The same scheme and host, its own well-known path, and no query. */
  function WellKnownAt(u: Url): Url {
    Url(u.scheme, u.user, u.host, "/.well-known/ai-catalog.json", "", "")
  }

  /** The response came from another host, or by another scheme. */
  predicate Elsewhere(start: Url, reached: Url) {
    reached.scheme != start.scheme || reached.host != start.host
  }

  predicate ByHeader(w: Web, r: Response, c: Candidate) {
    && 200 <= r.statusCode < 300 && c.means == LinkHeader
    && exists t :: t in LinkGrammar.Targets(r.linkHeaders, "ai-catalog") && w.resolve(r.url, t) == Some(c.url)
  }

  predicate ByPage(w: Web, r: Response, c: Candidate) {
    && 200 <= r.statusCode < 300 && c.means == HTMLLink && Page(w, r)
    && exists t :: t in w.htmlLinks(r.body, "ai-catalog").hrefs && w.resolve(BaseOf(w, r), t) == Some(c.url)
  }

  lemma {:induction false} ResolvedIff(w: Web, base: Url, references: seq<string>, m: Method, c: Candidate)
    ensures c in ResolveAll(w, base, references, m) <==>
            (c.means == m && exists t :: t in references && w.resolve(base, t) == Some(c.url))
  {
    if references != [] {
      ResolvedIff(w, base, references[1..], m, c);
      assert references == [references[0]] + references[1..];
    }
  }

  lemma LinkIff(w: Web, r: Response, c: Candidate)
    requires r.Success()
    ensures c in LinksOf(w, r) <==> ByHeader(w, r, c) || ByPage(w, r, c)
  {
    var links := w.htmlLinks(r.body, LINK_RELATION);
    ResolvedIff(w, r.url, LinkGrammar.Targets(r.linkHeaders, LINK_RELATION), LinkHeader, c);
    ResolvedIff(w, HTMLBase(w, r, links), links.hrefs, HTMLLink, c);
    PageIff(w, r);
  }

  lemma PageIff(w: Web, r: Response)
    ensures IsHTML(w, r) <==> Page(w, r)
    ensures HTMLBase(w, r, w.htmlLinks(r.body, LINK_RELATION)) == BaseOf(w, r)
  {
  }

  /** What is tried after the first request: the resolved targets of the Link headers and
      of the page of a successful response, the well-known URI of the host that was asked,
      and that of the host that was reached if it is another. */
  lemma CandidateIff(w: Web, start: Url, response: Option<Response>, c: Candidate)
    ensures c in Candidates(w, start, response) <==>
            || (response.Some? && (ByHeader(w, response.value, c) || ByPage(w, response.value, c)))
            || c == Candidate(WellKnownAt(start), WellKnown)
            || (response.Some? && Elsewhere(start, response.value.url)
                && c == Candidate(WellKnownAt(response.value.url), WellKnown))
  {
    if response.Some? && response.value.Success() { LinkIff(w, response.value, c); }
    WellKnownIff(start, response, c);
  }

  lemma WellKnownIff(start: Url, response: Option<Response>, c: Candidate)
    ensures c in WellKnownsOf(Bases(start, response)) <==>
            || c == Candidate(WellKnownAt(start), WellKnown)
            || (response.Some? && Elsewhere(start, response.value.url)
                && c == Candidate(WellKnownAt(response.value.url), WellKnown))
  {
    var bases := Bases(start, response);
    assert forall i :: 0 <= i < |bases| ==> WellKnownsOf(bases)[i] == Candidate(WellKnownAt(bases[i]), WellKnown);
    assert WellKnownsOf(bases)[|bases| - 1] == Candidate(WellKnownAt(start), WellKnown);
    if response.Some? && Elsewhere(start, response.value.url) {
      assert WellKnownsOf(bases)[0] == Candidate(WellKnownAt(response.value.url), WellKnown);
    }
  }

  // ---- remembering requests changes no result ----

  /** The fetcher answers by what is requested alone. */
  ghost predicate ByKeyAlone(w: Web) {
    forall m: nat, n: nat, u: Url, v: Url :: Agree(u, v) ==> w.fetch(m, u) == w.fetch(n, v)
  }

  /** A success whose body is a catalog with a specVersion. */
  function CatalogIn(w: Web, r: Response): Option<AICatalog> {
    var c := w.decode(r.body);
    if 200 <= r.statusCode < 300 && c.Some? && TrimSpace(c.value.specVersion) != "" then c else None
  }

  /** The catalog a candidate leads to, asked in isolation. */
  function CatalogAt(w: Web, c: Candidate): Option<Found> {
    var r := w.fetch(0, c.url);
    if r.Some? && CatalogIn(w, r.value).Some?
    then Some(Found(r.value.url, c.means, CatalogIn(w, r.value).value, r.value.body)) else None
  }

  /** The first catalog an https reference leads to. */
  function FirstReference(w: Web, base: Url, references: seq<string>, m: Method): Option<Found> {
    if references == [] then None
    else
      var u := w.resolve(base, references[0]);
      var found := if u.Some? && u.value.scheme == "https" then CatalogAt(w, Candidate(u.value, m)) else None;
      OrElse(found, FirstReference(w, base, references[1..], m))
  }

  function OrElse(a: Option<Found>, b: Option<Found>): Option<Found> {
    if a.Some? then a else b
  }

  function LinkHeaderCatalog(w: Web, r: Response): Option<Found> {
    if 200 <= r.statusCode < 300
    then FirstReference(w, r.url, LinkGrammar.Targets(r.linkHeaders, "ai-catalog"), LinkHeader) else None
  }

  function HTMLLinkCatalog(w: Web, r: Response): Option<Found> {
    if 200 <= r.statusCode < 300 && Page(w, r)
    then FirstReference(w, BaseOf(w, r), w.htmlLinks(r.body, "ai-catalog").hrefs, HTMLLink) else None
  }

  function WellKnownCatalog(w: Web, base: Url): Option<Found> {
    if base.scheme == "https" then CatalogAt(w, Candidate(WellKnownAt(base), WellKnown)) else None
  }

  /** The search without a memory: the URL itself, the Link headers, the HTML links, the
      well-known URI of the host that was reached and of the host that was asked. */
  function Search(w: Web, start: Url): Option<Found> {
    var direct, asked := CatalogAt(w, Candidate(start, Direct)), WellKnownCatalog(w, start);
    match FirstResponse(w, start)
    case None => asked
    case Some(r) =>
      var reached := if Elsewhere(start, r.url) then WellKnownCatalog(w, r.url) else None;
      OrElse(direct, OrElse(LinkHeaderCatalog(w, r), OrElse(HTMLLinkCatalog(w, r), OrElse(reached, asked))))
  }

  // ---- the run is the search ----

  /** The first catalog an https candidate leads to. */
  function FirstCatalog(w: Web, cs: seq<Candidate>): Option<Found> {
    if cs == [] then None
    else if cs[0].url.scheme == HTTPS && CatalogAt(w, cs[0]).Some? then CatalogAt(w, cs[0])
    else FirstCatalog(w, cs[1..])
  }

  lemma {:induction false} FirstOfReferences(w: Web, base: Url, references: seq<string>, m: Method)
    ensures FirstCatalog(w, ResolveAll(w, base, references, m)) == FirstReference(w, base, references, m)
  {
    if references != [] {
      FirstOfReferences(w, base, references[1..], m);
      var u := w.resolve(base, references[0]);
      if u.Some? {
        var c := Candidate(u.value, m);
        assert ([c] + ResolveAll(w, base, references[1..], m))[1..] == ResolveAll(w, base, references[1..], m);
      } else {
        assert [] + ResolveAll(w, base, references[1..], m) == ResolveAll(w, base, references[1..], m);
      }
    }
  }

  lemma {:induction false} FirstCatalogAppend(w: Web, a: seq<Candidate>, b: seq<Candidate>)
    ensures FirstCatalog(w, a + b) == OrElse(FirstCatalog(w, a), FirstCatalog(w, b))
  {
    if a == [] {
      assert a + b == b;
    } else {
      assert (a + b)[1..] == a[1..] + b;
      FirstCatalogAppend(w, a[1..], b);
    }
  }

  lemma FirstOfWellKnowns(w: Web, start: Url, r: Response)
    ensures FirstCatalog(w, WellKnownsOf(Bases(start, Some(r)))) ==
            OrElse(if Elsewhere(start, r.url) then WellKnownCatalog(w, r.url) else None, WellKnownCatalog(w, start))
    ensures FirstCatalog(w, WellKnownsOf(Bases(start, None))) == WellKnownCatalog(w, start)
  {
    FirstOfOne(w, start);
    if !SameOrigin(r.url, start) {
      var first, second := Candidate(WellKnownOf(r.url), WellKnown), Candidate(WellKnownOf(start), WellKnown);
      FirstOfOne(w, r.url);
      FirstCatalogAppend(w, [first], [second]);
      assert WellKnownsOf(Bases(start, Some(r))) == [first] + [second];
    } else {
      assert WellKnownsOf(Bases(start, Some(r))) == WellKnownsOf([start]);
    }
  }

  lemma FirstOfOne(w: Web, base: Url)
    ensures WellKnownsOf([base]) == [Candidate(WellKnownOf(base), WellKnown)]
    ensures FirstCatalog(w, [Candidate(WellKnownOf(base), WellKnown)]) == WellKnownCatalog(w, base)
  {
    assert [Candidate(WellKnownOf(base), WellKnown)][1..] == [];
  }

  lemma FirstOfLinks(w: Web, r: Response)
    requires r.Success()
    ensures FirstCatalog(w, LinksOf(w, r)) == OrElse(LinkHeaderCatalog(w, r), HTMLLinkCatalog(w, r))
  {
    var links := w.htmlLinks(r.body, LINK_RELATION);
    var targets := LinkGrammar.Targets(r.linkHeaders, LINK_RELATION);
    PageIff(w, r);
    FirstOfReferences(w, r.url, targets, LinkHeader);
    FirstOfReferences(w, BaseOf(w, r), links.hrefs, HTMLLink);
    FirstCatalogAppend(w, ResolveAll(w, r.url, targets, LinkHeader),
                       if IsHTML(w, r) then ResolveAll(w, HTMLBase(w, r, links), links.hrefs, HTMLLink) else []);
  }

  /** Trying the candidates in order is trying the stages in order. */
  lemma SearchIsInOrder(w: Web, start: Url)
    ensures Search(w, start) ==
            OrElse(CatalogAt(w, Candidate(start, Direct)),
                FirstCatalog(w, Candidates(w, start, FirstResponse(w, start))))
  {
    match FirstResponse(w, start) {
      case None =>
        FirstOfOne(w, start);
        assert Candidates(w, start, None) == WellKnownsOf([start]);
      case Some(r) =>
        FirstOfWellKnowns(w, start, r);
        FirstCatalogAppend(w, if r.Success() then LinksOf(w, r) else [], WellKnownsOf(Bases(start, Some(r))));
        if r.Success() {
          FirstOfLinks(w, r);
        }
    }
  }

  /** Nothing asked so far held a catalog. */
  ghost predicate NoneSoFar(w: Web, st: Memory) {
    forall c: Candidate :: RequestKey(c.url) in st.requested ==> CatalogAt(w, c).None?
  }

  lemma StepFinds(w: Web, st: Memory, c: Candidate)
    requires ByKeyAlone(w) && NoneSoFar(w, st)
    ensures Step(w, st, c).found == if c.url.scheme == HTTPS then CatalogAt(w, c) else None
    ensures Step(w, st, c).found.None? ==> NoneSoFar(w, Step(w, st, c).memory)
  {
    assert w.fetch(|st.fetched|, c.url) == w.fetch(0, c.url);
    if c.url.scheme == HTTPS && RequestKey(c.url) !in st.requested && Step(w, st, c).found.None? {
      forall d: Candidate | RequestKey(d.url) in st.requested + {RequestKey(c.url)} ensures CatalogAt(w, d).None? {
        assert RequestKey(d.url) == RequestKey(c.url) ==> w.fetch(0, d.url) == w.fetch(0, c.url);
      }
    }
  }

  lemma {:induction false} WalkFinds(w: Web, st: Memory, cs: seq<Candidate>)
    requires ByKeyAlone(w) && NoneSoFar(w, st)
    ensures Walk(w, st, cs).1 == FirstCatalog(w, cs)
    decreases |cs|
  {
    if cs != [] {
      StepFinds(w, st, cs[0]);
      if Step(w, st, cs[0]).found.None? {
        WalkFinds(w, Step(w, st, cs[0]).memory, cs[1..]);
      }
    }
  }

  /** A run finds what the search without a memory finds: the same catalog, at the same
      URL, by the same method, or nothing. */
  lemma RunFindsWhatSearchFinds(w: Web, input: string)
    requires ByKeyAlone(w) && ParseInput(w, input).Some?
    ensures Run(w, ParseInput(w, input).value).1 == Search(w, ParseInput(w, input).value)
  {
    var start := ParseInput(w, input).value;
    var t := Step(w, START, Candidate(start, Direct));
    SearchIsInOrder(w, start);
    StepFinds(w, START, Candidate(start, Direct));
    if t.found.None? {
      WalkFinds(w, t.memory, Candidates(w, start, t.response));
    }
  }

  // ---- the list of attempts ----

  /** What goes wrong with each candidate in order: it is not https, or it is asked and
      there is no catalog; what has been asked is not asked again. The attempt names the
      URL that answered. */
  function Failures(w: Web, asked: seq<Url>, cs: seq<Candidate>): seq<Attempt>
    decreases |cs|
  {
    if cs == [] then []
    else
      var c := cs[0];
      if c.url.scheme != "https" then [Attempt(c.url, c.means)] + Failures(w, asked, cs[1..])
      else if Asked(asked, c.url) then Failures(w, asked, cs[1..])
      else
        var r := w.fetch(|asked|, c.url);
        [Attempt(if r.Some? then r.value.url else c.url, c.means)] + Failures(w, asked + [c.url], cs[1..])
  }

  lemma {:induction false} WalkFails(w: Web, st: Memory, cs: seq<Candidate>)
    requires Consistent(st) && Walk(w, st, cs).1.None?
    ensures Walk(w, st, cs).0.attempts == st.attempts + Failures(w, st.fetched, cs)
    decreases |cs|
  {
    if cs == [] {
      assert st.attempts + [] == st.attempts;
    } else {
      StepKeeps(w, st, cs[0]);
      var st' := Step(w, st, cs[0]).memory;
      WalkFails(w, st', cs[1..]);
      StepFails(w, st, cs[0], cs[1..]);
    }
  }

  lemma StepFails(w: Web, st: Memory, c: Candidate, rest: seq<Candidate>)
    requires Consistent(st) && Step(w, st, c).found.None?
    ensures var st' := Step(w, st, c).memory;
            st'.attempts + Failures(w, st'.fetched, rest) == st.attempts + Failures(w, st.fetched, [c] + rest)
  {
    assert ([c] + rest)[1..] == rest;
    var st' := Step(w, st, c).memory;
    if |st'.attempts| > |st.attempts| {
      var last := st'.attempts[|st.attempts|];
      assert st'.attempts == st.attempts + [last];
      Regroup(st.attempts, last, Failures(w, st'.fetched, rest));
    }
  }

  lemma Regroup(a: seq<Attempt>, x: Attempt, b: seq<Attempt>)
    ensures (a + [x]) + b == a + ([x] + b)
  {
  }

  /** When nothing is found, the attempts are exactly the failures of the URL itself and
      of the candidates, in order. */
  lemma NothingFoundLists(w: Web, input: string)
    requires ParseInput(w, input).Some? && Run(w, ParseInput(w, input).value).1.None?
    ensures var start := ParseInput(w, input).value;
            Run(w, start).0.attempts ==
            Failures(w, [], [Candidate(start, Direct)] + Candidates(w, start, FirstResponse(w, start)))
  {
    var start := ParseInput(w, input).value;
    var first := Candidate(start, Direct);
    var t := Step(w, START, first);
    var cs := Candidates(w, start, t.response);
    assert Consistent(START);
    StepKeeps(w, START, first);
    WalkFails(w, t.memory, cs);
    StepFails(w, START, first, cs);
    assert [] + Failures(w, [], [first] + cs) == Failures(w, [], [first] + cs);
  }
}
