/** Finding the catalog of a site. */
module Discovery {
  import opened Json
  import opened Text
  import opened Utf8
  import opened Catalog
  import LinkGrammar
  import LinkScanner

  const LINK_RELATION := "ai-catalog"
  const WELL_KNOWN_PATH := "/.well-known/ai-catalog.json"

  /** A URL by the parts its text spells. */
  datatype Url = Url(scheme: string, user: string, host: string, path: string, query: string, fragment: string)

  datatype Method = Direct | LinkHeader | HTMLLink | WellKnown

  datatype Response = Response(url: Url, statusCode: int, contentType: string, linkHeaders: seq<string>,
      body: seq<Byte>) {
    predicate Success() {
      200 <= statusCode < 300
    }
  }

  datatype HTMLLinks = HTMLLinks(base: string, hrefs: seq<string>)

  /** The nth request of a run and its answer; None is a request without a response. */
  type Fetcher = (nat, Url) -> Option<Response>

  /** The library functions discovery rests on, and the fetcher. */
  datatype Web = Web(
    fetch: Fetcher,
    parseUrl: string -> Option<Url>,
    resolve: (Url, string) -> Option<Url>,
    decode: seq<Byte> -> Option<AICatalog>,
    mediaType: string -> Option<string>,
    htmlLinks: (seq<Byte>, string) -> HTMLLinks)

  datatype Found = Found(url: Url, means: Method, catalog: AICatalog, raw: seq<Byte>)

  datatype Attempt = Attempt(url: Url, means: Method)

  datatype Candidate = Candidate(url: Url, means: Method)

  datatype Outcome = FoundCatalog(found: Found) | NotFound(attempts: seq<Attempt>) | InvalidInput

  /** The URL without its fragment, which no request carries. */
  function RequestKey(u: Url): Url {
    u.(fragment := "")
  }

  predicate SameOrigin(a: Url, b: Url) {
    a.scheme == b.scheme && a.host == b.host
  }

  function WellKnownOf(base: Url): Url {
    base.(path := WELL_KNOWN_PATH, query := "", fragment := "")
  }

  predicate IsHTML(w: Web, r: Response) {
    var mediaType := w.mediaType(r.contentType);
    mediaType.Some? && mediaType.value in ["text/html", "application/xhtml+xml"]
  }

  /** A response that succeeded and holds a catalog that names its specVersion. */
  function AsCatalog(w: Web, r: Response): Option<AICatalog> {
    if !r.Success() then None
    else
      match w.decode(r.body)
      case None => None
      case Some(c) => if TrimSpace(c.specVersion) == "" then None else Some(c)
  }

  // ---- the input ----

  predicate HasSchemeSeparator(s: string) {
    exists i :: 0 <= i <= |s| - 3 && s[i] == ':' && s[i + 1] == '/' && s[i + 2] == '/'
  }

  predicate IsPort(s: string) {
    forall i :: 0 <= i < |s| ==> '0' <= s[i] <= '9'
  }

  /** The index of the last colon, or the length. */
  function LastColon(host: string): (n: nat)
    ensures n <= |host| && (n < |host| ==> host[n] == ':')
    ensures forall i :: n < i < |host| ==> host[i] != ':'
  {
    if host == "" then 0
    else
      var last := |host| - 1;
      if host[last] == ':' then last
      else
        var n := LastColon(host[..last]);
        if n == last then |host| else n
  }

  /** The host without its port and without the brackets of an IPv6 address. */
  function Hostname(host: string): string {
    var n := LastColon(host);
    var h := if n < |host| && IsPort(host[n + 1..]) then host[..n] else host;
    if |h| > 1 && h[0] == '[' && h[|h| - 1] == ']' then h[1..|h| - 1] else h
  }

  /** The URL to start from: https, with a host and a path. */
  function ParseInput(w: Web, input: string): (r: Option<Url>)
    ensures r.Some? ==> r.value.scheme == HTTPS && Hostname(r.value.host) != "" && r.value.path != ""
  {
    var trimmed := TrimSpace(input);
    if trimmed == "" then None
    else
      match w.parseUrl(if HasSchemeSeparator(trimmed) then trimmed else "https://" + trimmed)
      case None => None
      case Some(u) =>
        if u.scheme != HTTPS || Hostname(u.host) == "" then None
        else Some(if u.path == "" then u.(path := "/") else u)
  }

  // ---- where a response points ----

  function ResolveAll(w: Web, base: Url, references: seq<string>, m: Method): seq<Candidate> {
    if references == [] then []
    else
      (match w.resolve(base, references[0]) case Some(u) => [Candidate(u, m)] case None => []) +
      ResolveAll(w, base, references[1..], m)
  }

  /** The URL the references of an HTML page resolve against. */
  function HTMLBase(w: Web, r: Response, links: HTMLLinks): Url {
    if links.base == "" then r.url else match w.resolve(r.url, links.base) case Some(u) => u case None => r.url
  }

  /** First the targets of the Link headers, then those of the HTML link elements. */
  function LinksOf(w: Web, r: Response): seq<Candidate> {
    var links := w.htmlLinks(r.body, LINK_RELATION);
    ResolveAll(w, r.url, LinkGrammar.Targets(r.linkHeaders, LINK_RELATION), LinkHeader) +
    if IsHTML(w, r) then ResolveAll(w, HTMLBase(w, r, links), links.hrefs, HTMLLink) else []
  }

  /** Whose well-known URIs to try: the host that was reached, if it is another one,
      then the host that was asked. */
  function Bases(start: Url, response: Option<Response>): seq<Url> {
    if response.Some? && !SameOrigin(response.value.url, start) then [response.value.url, start] else [start]
  }

  function WellKnownsOf(bases: seq<Url>): seq<Candidate> {
    seq(|bases|, i requires 0 <= i < |bases| => Candidate(WellKnownOf(bases[i]), WellKnown))
  }

  /** Everything to try after the first request, in order. */
  function Candidates(w: Web, start: Url, response: Option<Response>): seq<Candidate> {
    (if response.Some? && response.value.Success() then LinksOf(w, response.value) else []) +
    WellKnownsOf(Bases(start, response))
  }

  // ---- a run ----

  /** What a run remembers, and all it has fetched. */
  datatype Memory = Memory(requested: set<Url>, attempts: seq<Attempt>, fetched: seq<Url>)

  const START := Memory({}, [], [])

  datatype Tried = Tried(memory: Memory, found: Option<Found>, response: Option<Response>)

  /** One request, unless it was made already. */
  function Trying(w: Web, st: Memory, c: Candidate): Tried {
    if RequestKey(c.url) in st.requested then Tried(st, None, None)
    else
      var asked := st.(requested := st.requested + {RequestKey(c.url)}, fetched := st.fetched + [c.url]);
      match w.fetch(|st.fetched|, c.url)
      case None => Tried(asked.(attempts := st.attempts + [Attempt(c.url, c.means)]), None, None)
      case Some(r) =>
        match AsCatalog(w, r)
        case None => Tried(asked.(attempts := st.attempts + [Attempt(r.url, c.means)]), None, Some(r))
        case Some(catalog) => Tried(asked, Some(Found(r.url, c.means, catalog, r.body)), Some(r))
  }

  /** Trying one candidate, or noting that it is not https. */
  function Step(w: Web, st: Memory, c: Candidate): Tried {
    if c.url.scheme != HTTPS then Tried(st.(attempts := st.attempts + [Attempt(c.url, c.means)]), None, None)
    else Trying(w, st, c)
  }

  function Walk(w: Web, st: Memory, cs: seq<Candidate>): (Memory, Option<Found>)
    decreases |cs|
  {
    if cs == [] then (st, None)
    else
      var t := Step(w, st, cs[0]);
      if t.found.Some? then (t.memory, t.found) else Walk(w, t.memory, cs[1..])
  }

  /** The whole run from a start URL. */
  function Run(w: Web, start: Url): (Memory, Option<Found>) {
    var t := Trying(w, START, Candidate(start, Direct));
    if t.found.Some? then (t.memory, t.found) else Walk(w, t.memory, Candidates(w, start, t.response))
  }

  /** The state of one Discover call, with the history of its requests. */
  class Discoverer {
    const w: Web
    var requested: set<Url>
    var attempts: seq<Attempt>
    var fetched: seq<Url>

    function Remembered(): Memory
      reads this
    {
      Memory(requested, attempts, fetched)
    }

    constructor (w: Web)
      ensures this.w == w && Remembered() == START
    {
      this.w := w;
      requested, attempts, fetched := {}, [], [];
    }

    method Fail(u: Url, m: Method)
      modifies this`attempts
      ensures attempts == old(attempts) + [Attempt(u, m)]
    {
      attempts := attempts + [Attempt(u, m)];
    }

    method Try(u: Url, m: Method) returns (found: Option<Found>, response: Option<Response>)
      modifies this
      ensures Tried(Remembered(), found, response) == Trying(w, old(Remembered()), Candidate(u, m))
    {
      var key := RequestKey(u);
      if key in requested {
        return None, None;
      }
      requested := requested + {key};
      response := w.fetch(|fetched|, u);
      fetched := fetched + [u];
      if response.None? {
        Fail(u, m);
        return None, None;
      }
      var catalog := AsCatalog(w, response.value);
      if catalog.None? {
        Fail(response.value.url, m);
        return None, response;
      }
      found := Some(Found(response.value.url, m, catalog.value, response.value.body));
    }

    /** The loop of Discover. */
    method TryAll(cs: seq<Candidate>) returns (found: Option<Found>)
      modifies this
      ensures (Remembered(), found) == Walk(w, old(Remembered()), cs)
    {
      ghost var all := Walk(w, Remembered(), cs);
      found := None;
      assert cs[0..] == cs;
      for i := 0 to |cs|
        invariant found.None? && Walk(w, Remembered(), cs[i..]) == all
      {
        assert cs[i..][0] == cs[i] && cs[i..][1..] == cs[i + 1..];
        if cs[i].url.scheme != HTTPS {
          Fail(cs[i].url, cs[i].means);
        } else {
          var result, _ := Try(cs[i].url, cs[i].means);
          if result.Some? {
            return result;
          }
        }
      }
    }
  }

  lemma {:induction false} ResolveAppend(w: Web, base: Url, a: seq<string>, b: seq<string>, m: Method)
    ensures ResolveAll(w, base, a + b, m) == ResolveAll(w, base, a, m) + ResolveAll(w, base, b, m)
  {
    if a == [] {
      assert a + b == b;
    } else {
      assert (a + b)[1..] == a[1..] + b;
      ResolveAppend(w, base, a[1..], b, m);
    }
  }

  lemma ResolveSnoc(w: Web, base: Url, references: seq<string>, i: nat, m: Method)
    requires i < |references|
    ensures ResolveAll(w, base, references[..i + 1], m) ==
            ResolveAll(w, base, references[..i], m) +
            match w.resolve(base, references[i]) case Some(u) => [Candidate(u, m)] case None => []
  {
    assert references[..i + 1] == references[..i] + [references[i]];
    ResolveAppend(w, base, references[..i], [references[i]], m);
  }

  /** The candidates of a list of references that resolve, in order. */
  method ResolveReferences(w: Web, base: Url, references: seq<string>, m: Method) returns (cs: seq<Candidate>)
    ensures cs == ResolveAll(w, base, references, m)
  {
    cs := [];
    for i := 0 to |references|
      invariant cs == ResolveAll(w, base, references[..i], m)
    {
      ResolveSnoc(w, base, references, i, m);
      var u := w.resolve(base, references[i]);
      if u.Some? {
        cs := cs + [Candidate(u.value, m)];
      }
    }
    assert references[..|references|] == references;
  }

  method LinkCandidates(w: Web, r: Response) returns (cs: seq<Candidate>)
    ensures cs == LinksOf(w, r)
  {
    var targets := LinkScanner.TargetsWithRel(r.linkHeaders, LINK_RELATION);
    cs := ResolveReferences(w, r.url, targets, LinkHeader);
    if !IsHTML(w, r) {
      return;
    }
    var links := w.htmlLinks(r.body, LINK_RELATION);
    var base := r.url;
    if links.base != "" {
      var u := w.resolve(r.url, links.base);
      if u.Some? {
        base := u.value;
      }
    }
    var more := ResolveReferences(w, base, links.hrefs, HTMLLink);
    cs := cs + more;
  }

  /** The part of Discover that lists what to try after the first request. */
  method ListCandidates(w: Web, start: Url, response: Option<Response>) returns (cs: seq<Candidate>)
    ensures cs == Candidates(w, start, response)
  {
    var bases := [start];
    cs := [];
    if response.Some? {
      if !SameOrigin(response.value.url, start) {
        bases := [response.value.url, start];
      }
      if response.value.Success() {
        cs := LinkCandidates(w, response.value);
      }
    }
    ghost var links := cs;
    for i := 0 to |bases|
      invariant cs == links + WellKnownsOf(bases[..i])
    {
      cs := cs + [Candidate(WellKnownOf(bases[i]), WellKnown)];
    }
  }

  /** Finds the catalog of a URL or a bare domain, and tells what was fetched on the way. */
  method Discover(w: Web, input: string) returns (outcome: Outcome, fetched: seq<Url>)
    ensures ParseInput(w, input).None? ==> outcome == InvalidInput && fetched == []
    ensures ParseInput(w, input).Some? ==>
              var (memory, found) := Run(w, ParseInput(w, input).value);
              && outcome == (if found.Some? then FoundCatalog(found.value) else NotFound(memory.attempts))
              && fetched == memory.fetched
  {
    var start := ParseInput(w, input);
    if start.None? {
      return InvalidInput, [];
    }
    var d := new Discoverer(w);
    var found, response := d.Try(start.value, Direct);
    if found.Some? {
      return FoundCatalog(found.value), d.fetched;
    }
    var cs := ListCandidates(w, start.value, response);
    found := d.TryAll(cs);
    outcome, fetched := if found.Some? then FoundCatalog(found.value) else NotFound(d.attempts), d.fetched;
  }
}
