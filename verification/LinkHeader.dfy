/** The grammar that the Link header scanner accepts, as functions over the text
    still to be read. Every function returns what it read and the rest. */
module LinkGrammar {
  import opened Text

  datatype Param = Param(name: string, value: string)

  /** A link before its parameters are interpreted. */
  datatype RawLink = RawLink(target: string, params: seq<Param>)

  /** A link with its lowercased relation types. */
  datatype Link = Link(target: string, rel: seq<string>)

  const BLANK := " \t"
  const BETWEEN_LINKS := " \t,"
  const NAME_STOP := "=;, \t"
  const TOKEN_STOP := "; \t,"

  /** Reads a quoted string whose opening quote has been consumed. */
  function ReadQuoted(q: string): (r: (string, string))
    ensures |r.1| <= |q|
  {
    if q == "" || q == "\\" then ("", "")
    else if q[0] == '"' then ("", q[1..])
    else if q[0] == '\\' then
      var (v, rest) := ReadQuoted(q[2..]);
      ([q[1]] + v, rest)
    else
      var (v, rest) := ReadQuoted(q[1..]);
      ([q[0]] + v, rest)
  }

  function ReadValue(input: string): (r: (string, string))
    ensures |r.1| <= |input|
  {
    if input != "" && input[0] == '"' then ReadQuoted(input[1..])
    else
      var n := Span(input, TOKEN_STOP);
      (input[..n], input[n..])
  }

  /** Reads the name of a parameter whose semicolon has been consumed. */
  function ReadName(after: string): (r: (string, string))
    ensures |r.1| <= |after|
  {
    var text := TrimLeft(after, BLANK);
    var n := Span(text, NAME_STOP);
    (ToLower(text[..n]), TrimLeft(text[n..], BLANK))
  }

  function ReadParam(after: string): (r: (Param, string))
    ensures |r.1| <= |after|
  {
    var (name, rest) := ReadName(after);
    if rest != "" && rest[0] == '=' then
      var (value, rest') := ReadValue(TrimLeft(rest[1..], BLANK));
      (Param(name, value), rest')
    else (Param(name, ""), rest)
  }

  function Named(p: Param): seq<Param> {
    if p.name == "" then [] else [p]
  }

  /** Reads parameters up to the comma that ends the link. */
  function ReadParams(text: string): (r: (seq<Param>, string))
    ensures |r.1| <= |text|
    ensures r.1 == "" || r.1[0] == ','
    decreases |text|, 1
  {
    ParamsAt(TrimLeft(text, BLANK))
  }

  function ParamsAt(rest: string): (r: (seq<Param>, string))
    ensures |r.1| <= |rest|
    ensures r.1 == "" || r.1[0] == ','
    decreases |rest|, 0
  {
    if rest != "" && rest[0] == ';' then
      var (p, rest') := ReadParam(rest[1..]);
      var (ps, end) := ReadParams(rest');
      (Named(p) + ps, end)
    else ([], rest[Span(rest, ",")..])
  }

  /** All links of a header field value, with every parameter. */
  function RawLinks(value: string): seq<RawLink>
    decreases |value|, 1
  {
    LinksAt(TrimLeft(value, BETWEEN_LINKS))
  }

  /** RawLinks where the text before the next link has been skipped. */
  function LinksAt(rest: string): seq<RawLink>
    requires rest == "" || rest[0] !in BETWEEN_LINKS
    decreases |rest|, 0
  {
    if rest != "" && rest[0] == '<' then
      var n := Span(rest, ">");
      if n == |rest| then []
      else
        var (ps, rest') := ReadParams(rest[n + 1..]);
        [RawLink(TrimSpace(rest[1..n]), ps)] + RawLinks(rest')
    else
      var i := Span(rest, ",");
      if i == |rest| then [] else RawLinks(rest[i..])
  }

  predicate Has(ps: seq<Param>, name: string) {
    exists i :: 0 <= i < |ps| && ps[i].name == name
  }

  /** The value of the first parameter called name. */
  function First(ps: seq<Param>, name: string): string
    requires Has(ps, name)
  {
    if ps[0].name == name then ps[0].value else First(ps[1..], name)
  }

  /** The relation types of a rel parameter. */
  function RelTypes(rel: string): seq<string> {
    LowerAll(Fields(rel))
  }

  function LowerAll(fs: seq<string>): (r: seq<string>)
    ensures |r| == |fs|
    ensures forall i :: 0 <= i < |fs| ==> r[i] == ToLower(fs[i])
  {
    seq(|fs|, i requires 0 <= i < |fs| => ToLower(fs[i]))
  }

  predicate Kept(l: RawLink) {
    Has(l.params, "rel") && !Has(l.params, "anchor")
  }

  function Interpret(ls: seq<RawLink>): seq<Link> {
    if ls == [] then []
    else if Kept(ls[0]) then [Link(ls[0].target, RelTypes(First(ls[0].params, "rel")))] + Interpret(ls[1..])
    else Interpret(ls[1..])
  }

  function Links(value: string): seq<Link> {
    Interpret(RawLinks(value))
  }

  function Select(ls: seq<Link>, rel: string): seq<string> {
    if ls == [] then []
    else (if rel in ls[0].rel then [ls[0].target] else []) + Select(ls[1..], rel)
  }

  /** The targets with relation type rel over a list of field lines. */
  function Targets(headers: seq<string>, rel: string): seq<string> {
    if headers == [] then [] else Select(Links(headers[0]), rel) + Targets(headers[1..], rel)
  }

  // ---- where a scan runs off the end inside a link ----

  predicate QuoteCloses(q: string) {
    q != "" && q != "\\" &&
    (q[0] == '"' || QuoteCloses(if q[0] == '\\' then q[2..] else q[1..]))
  }

  predicate ParamCloses(after: string) {
    var rest := ReadName(after).1;
    rest != "" && rest[0] == '=' ==>
      var input := TrimLeft(rest[1..], BLANK);
      input != "" && input[0] == '"' ==> QuoteCloses(input[1..])
  }

  predicate ParamsClose(text: string)
    decreases |text|, 1
  {
    ParamsAtClose(TrimLeft(text, BLANK))
  }

  predicate ParamsAtClose(rest: string)
    decreases |rest|, 0
  {
    rest != "" && rest[0] == ';' ==> ParamCloses(rest[1..]) && ParamsClose(ReadParam(rest[1..]).1)
  }

  /** The value does not end inside a target or a quoted string. */
  predicate Closed(value: string)
    decreases |value|, 1
  {
    ClosedAt(TrimLeft(value, BETWEEN_LINKS))
  }

  predicate ClosedAt(rest: string)
    requires rest == "" || rest[0] !in BETWEEN_LINKS
    decreases |rest|, 0
  {
    if rest != "" && rest[0] == '<' then
      var n := Span(rest, ">");
      n < |rest| && ParamsClose(rest[n + 1..]) && Closed(ReadParams(rest[n + 1..]).1)
    else
      var i := Span(rest, ",");
      i < |rest| ==> Closed(rest[i..])
  }

  // ---- printing ----

  function EscapeChar(c: char): string {
    if c == '"' || c == '\\' then ['\\', c] else [c]
  }

  function Escape(v: string): string {
    if v == "" then "" else EscapeChar(v[0]) + Escape(v[1..])
  }

  function PrintParam(p: Param): string {
    "; " + p.name + "=\"" + Escape(p.value) + "\""
  }

  function PrintParams(ps: seq<Param>): string {
    if ps == [] then "" else PrintParam(ps[0]) + PrintParams(ps[1..])
  }

  function PrintLink(l: RawLink): string {
    "<" + l.target + ">" + PrintParams(l.params)
  }

  function PrintLinks(ls: seq<RawLink>): string {
    if ls == [] then ""
    else if |ls| == 1 then PrintLink(ls[0])
    else PrintLink(ls[0]) + ", " + PrintLinks(ls[1..])
  }

  /** The raw form of an interpreted link: only its rel parameter. */
  function RelOnly(l: Link): RawLink {
    RawLink(l.target, [Param("rel", Join(l.rel, " "))])
  }

  function RelOnlyAll(ls: seq<Link>): seq<RawLink> {
    seq(|ls|, i requires 0 <= i < |ls| => RelOnly(ls[i]))
  }

  predicate WellFormedParam(p: Param) {
    p.name != "" && ToLower(p.name) == p.name && forall c :: c in p.name ==> c !in NAME_STOP
  }

  /** A link that can be written in a header: a trimmed target without ">" and
      lowercase parameter names. The parameter values are arbitrary text. */
  predicate WellFormed(l: RawLink) {
    '>' !in l.target && TrimSpace(l.target) == l.target &&
    forall i :: 0 <= i < |l.params| ==> WellFormedParam(l.params[i])
  }

  predicate AllWellFormed(ls: seq<RawLink>) {
    forall i :: 0 <= i < |ls| ==> WellFormed(ls[i])
  }
}

/** The scanner itself: loops that advance over the text, proved against the grammar. */
module LinkScanner {
  import opened Text
  import opened LinkGrammar

  lemma QuotedStep(q: string, i: nat)
    requires i < |q|
    ensures ReadQuoted(q[i..]) ==
            if q[i] == '"' then ("", q[i + 1..])
            else if q[i] != '\\' then ([q[i]] + ReadQuoted(q[i + 1..]).0, ReadQuoted(q[i + 1..]).1)
            else if i + 1 == |q| then ("", "")
            else ([q[i + 1]] + ReadQuoted(q[i + 2..]).0, ReadQuoted(q[i + 2..]).1)
  {
    var here := q[i..];
    assert here[1..] == q[i + 1..];
    if i + 1 < |q| {
      assert here[2..] == q[i + 2..];
    } else {
      assert here == [q[i]];
    }
  }

  /** The value read so far, followed by what the rest of the scan yields, is the whole value. */
  ghost predicate Reading(whole: (string, string), value: string, rest: (string, string)) {
    whole.0 == value + rest.0 && whole.1 == rest.1
  }

  lemma ReadingStep(whole: (string, string), value: string, c: char, rest: (string, string))
    requires Reading(whole, value, ([c] + rest.0, rest.1))
    ensures Reading(whole, value + [c], rest)
  {
  }

  method ParseQuoted(quoted: string) returns (value: string, rest: string)
    ensures (value, rest) == ReadQuoted(quoted)
  {
    value := "";
    var i := 0;
    assert quoted[0..] == quoted;
    while i < |quoted|
      invariant i <= |quoted| ==> Reading(ReadQuoted(quoted), value, ReadQuoted(quoted[i..]))
      invariant i > |quoted| ==> Reading(ReadQuoted(quoted), value, ("", ""))
    {
      QuotedStep(quoted, i);
      if quoted[i] == '"' {
        assert value + "" == value;
        return value, quoted[i + 1..];
      } else if quoted[i] == '\\' {
        i := i + 1;
        if i < |quoted| {
          ReadingStep(ReadQuoted(quoted), value, quoted[i], ReadQuoted(quoted[i + 1..]));
          value := value + [quoted[i]];
        }
      } else {
        ReadingStep(ReadQuoted(quoted), value, quoted[i], ReadQuoted(quoted[i + 1..]));
        value := value + [quoted[i]];
      }
      i := i + 1;
    }
    assert value + "" == value;
    return value, "";
  }

  method ParseLinkValue(input: string) returns (value: string, rest: string)
    ensures (value, rest) == ReadValue(input)
  {
    if input == "" || input[0] != '"' {
      var end := Span(input, TOKEN_STOP);
      return input[..end], input[end..];
    }
    value, rest := ParseQuoted(input[1..]);
  }

  ghost predicate Scanning(whole: (seq<Param>, string), params: seq<Param>, rest: (seq<Param>, string)) {
    whole.0 == params + rest.0 && whole.1 == rest.1
  }

  lemma ScanningStep(whole: (seq<Param>, string), params: seq<Param>, before: string, p: Param, rest: string)
    requires Scanning(whole, params, ReadParams(before))
    requires var t := TrimLeft(before, BLANK); t != "" && t[0] == ';' && ReadParam(t[1..]) == (p, rest)
    ensures Scanning(whole, params + Named(p), ReadParams(rest))
  {
    ParamsUnfold(before, p, rest);
    ScanningNamed(whole, params, p, ReadParams(before), ReadParams(rest));
  }

  lemma ParamsUnfold(before: string, p: Param, rest: string)
    requires var t := TrimLeft(before, BLANK); t != "" && t[0] == ';' && ReadParam(t[1..]) == (p, rest)
    ensures ReadParams(before) == (Named(p) + ReadParams(rest).0, ReadParams(rest).1)
  {
  }

  lemma ScanningNamed(whole: (seq<Param>, string), params: seq<Param>, p: Param,
                      before: (seq<Param>, string), rest: (seq<Param>, string))
    requires Scanning(whole, params, before)
    requires before == (Named(p) + rest.0, rest.1)
    ensures Scanning(whole, params + Named(p), rest)
  {
    assert params + (Named(p) + rest.0) == (params + Named(p)) + rest.0;
  }

  method ParseLinkParams(text: string) returns (params: seq<Param>, rest: string)
    ensures (params, rest) == ReadParams(text)
  {
    params, rest := [], text;
    while true
      invariant Scanning(ReadParams(text), params, ReadParams(rest))
      decreases |rest|
    {
      ghost var before := rest;
      rest := TrimLeft(rest, BLANK);
      if rest == "" || rest[0] != ';' {
        var i := Span(rest, ",");
        assert ParamsAt(rest) == ([], rest[i..]) && params + [] == params;
        return params, rest[i..];
      }
      rest := TrimLeft(rest[1..], BLANK);
      var nameEnd := Span(rest, NAME_STOP);
      var name := ToLower(rest[..nameEnd]);
      rest := TrimLeft(rest[nameEnd..], BLANK);
      var value := "";
      if rest != "" && rest[0] == '=' {
        value, rest := ParseLinkValue(TrimLeft(rest[1..], BLANK));
      }
      ScanningStep(ReadParams(text), params, before, Param(name, value), rest);
      if name != "" {
        params := params + [Param(name, value)];
      } else {
        assert params + [] == params;
      }
    }
  }

  /** Keeps a link whose parameters have a rel and no anchor; the first rel counts. */
  method NewLink(target: string, params: seq<Param>) returns (l: Link, ok: bool)
    ensures ok == Kept(RawLink(target, params))
    ensures ok ==> l == Link(target, RelTypes(First(params, "rel")))
  {
    var rel, haveRel, anchored := "", false, false;
    for i := 0 to |params|
      invariant haveRel == Has(params[..i], "rel") && anchored == Has(params[..i], "anchor")
      invariant haveRel ==> Has(params, "rel") && rel == First(params, "rel")
      invariant !haveRel && Has(params[i..], "rel") ==>
                  Has(params, "rel") && First(params, "rel") == First(params[i..], "rel")
    {
      assert params[..i + 1] == params[..i] + [params[i]];
      assert params[i..] == [params[i]] + params[i + 1..];
      if params[i].name == "rel" {
        if !haveRel {
          rel, haveRel := params[i].value, true;
        }
      } else if params[i].name == "anchor" {
        anchored := true;
      }
    }
    assert params[..|params|] == params;
    if !haveRel || anchored {
      return Link("", []), false;
    }
    var fields := Fields(rel);
    var types: seq<string> := [];
    for i := 0 to |fields|
      invariant types == LowerAll(fields[..i])
    {
      types := types + [ToLower(fields[i])];
    }
    assert fields[..|fields|] == fields;
    return Link(target, types), true;
  }

  lemma LinksStep(whole: seq<Link>, links: seq<Link>, text: string, raw: RawLink, rest: string)
    requires whole == links + Links(text)
    requires RawLinks(text) == [raw] + RawLinks(rest)
    ensures Kept(raw) ==> whole == links + [Link(raw.target, RelTypes(First(raw.params, "rel")))] + Links(rest)
    ensures !Kept(raw) ==> whole == links + Links(rest)
  {
    assert RawLinks(text)[1..] == RawLinks(rest);
  }

  lemma {:induction false} SelectSnoc(links: seq<Link>, rel: string, j: nat)
    requires j < |links|
    ensures Select(links[..j + 1], rel) ==
            Select(links[..j], rel) + if rel in links[j].rel then [links[j].target] else []
  {
    var most, more := links[..j], links[..j + 1];
    if j == 0 {
      assert more == [links[0]];
    } else {
      assert most[1..] == links[1..][..j - 1] && more[1..] == links[1..][..j];
      SelectSnoc(links[1..], rel, j - 1);
    }
  }

  lemma {:induction false} TargetsSnoc(headers: seq<string>, rel: string, i: nat)
    requires i < |headers|
    ensures Targets(headers[..i + 1], rel) == Targets(headers[..i], rel) + Select(Links(headers[i]), rel)
  {
    var most, more := headers[..i], headers[..i + 1];
    if i == 0 {
      assert more == [headers[0]];
      assert more[1..] == [];
    } else {
      assert most[1..] == headers[1..][..i - 1] && more[1..] == headers[1..][..i];
      TargetsSnoc(headers[1..], rel, i - 1);
    }
  }

  method ParseLinkHeader(value: string) returns (links: seq<Link>)
    ensures links == Links(value)
  {
    links := [];
    var rest := value;
    while true
      invariant Links(value) == links + Links(rest)
      decreases |rest|
    {
      ghost var before := rest;
      rest := TrimLeft(rest, BETWEEN_LINKS);
      if rest == "" || rest[0] != '<' {
        var i := Span(rest, ",");
        if i == |rest| {
          assert LinksAt(rest) == [] && links + [] == links;
          return;
        }
        rest := rest[i..];
        continue;
      }
      var n := Span(rest, ">");
      if n == |rest| {
        assert LinksAt(rest) == [] && links + [] == links;
        return;
      }
      var target := rest[1..n];
      var params;
      params, rest := ParseLinkParams(rest[n + 1..]);
      var l, ok := NewLink(TrimSpace(target), params);
      LinksStep(Links(value), links, before, RawLink(TrimSpace(target), params), rest);
      if ok {
        links := links + [l];
      }
    }
  }

  method TargetsWithRel(headers: seq<string>, rel: string) returns (targets: seq<string>)
    ensures targets == Targets(headers, rel)
  {
    targets := [];
    assert headers[..|headers|] == headers;
    for i := 0 to |headers|
      invariant targets == Targets(headers[..i], rel)
    {
      var links := ParseLinkHeader(headers[i]);
      ghost var earlier := targets;
      for j := 0 to |links|
        invariant targets == earlier + Select(links[..j], rel)
      {
        SelectSnoc(links, rel, j);
        if rel in links[j].rel {
          targets := targets + [links[j].target];
        }
      }
      assert links[..|links|] == links;
      TargetsSnoc(headers, rel, i);
    }
  }
}
