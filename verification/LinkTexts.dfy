/** Every text of the grammar of section 3 of RFC 8288, in whatever spelling, is read as
    the links it spells. */
module LinkTexts {
  import opened Seqs
  import opened Text
  import opened LinkGrammar
  import opened LinkLaws

  /** A character of a quoted string, as it is or after a backslash. */
  datatype Piece = Plain(c: char) | Escaped(c: char)

  /** How a parameter gives its value. */
  datatype Spelling = NoValue | Token(token: string) | Quoted(pieces: seq<Piece>)

  /** A parameter with the blanks around its semicolon and its equals sign. */
  datatype SpelledParam = SpelledParam(before: string, after: string, name: string, left: string, right: string,
      value: Spelling)

  datatype SpelledLink = SpelledLink(target: string, params: seq<SpelledParam>)

  /** A link of a list, with the blanks and commas before it. */
  datatype Element = Element(gap: string, link: SpelledLink)

  predicate AllIn(s: string, chars: string) {
    forall i :: 0 <= i < |s| ==> s[i] in chars
  }

  predicate NoneIn(s: string, chars: string) {
    forall i :: 0 <= i < |s| ==> s[i] !in chars
  }

  predicate PieceOK(p: Piece) {
    p.Plain? ==> p.c != '"' && p.c != '\\'
  }

  predicate SpellingOK(v: Spelling) {
    match v
    case NoValue => true
    case Token(token) => token != "" && token[0] != '"' && NoneIn(token, TOKEN_STOP)
    case Quoted(pieces) => forall i :: 0 <= i < |pieces| ==> PieceOK(pieces[i])
  }

  predicate ParamOK(p: SpelledParam) {
    && AllIn(p.before, BLANK) && AllIn(p.after, BLANK) && AllIn(p.left, BLANK) && AllIn(p.right, BLANK)
    && p.name != "" && NoneIn(p.name, NAME_STOP) && SpellingOK(p.value)
  }

  predicate LinkOK(l: SpelledLink) {
    '>' !in l.target && forall i :: 0 <= i < |l.params| ==> ParamOK(l.params[i])
  }

  // ---- the text and the meaning ----

  function PieceText(p: Piece): string {
    if p.Plain? then [p.c] else ['\\', p.c]
  }

  function PiecesText(ps: seq<Piece>): string {
    if ps == [] then "" else PieceText(ps[0]) + PiecesText(ps[1..])
  }

  function PiecesValue(ps: seq<Piece>): string {
    if ps == [] then "" else [ps[0].c] + PiecesValue(ps[1..])
  }

  function ValueText(v: Spelling): string {
    match v
    case NoValue => ""
    case Token(token) => token
    case Quoted(pieces) => "\"" + (PiecesText(pieces) + "\"")
  }

  function Value(v: Spelling): string {
    match v case NoValue => "" case Token(token) => token case Quoted(pieces) => PiecesValue(pieces)
  }

  /** The text of a parameter after its name. */
  function Assigned(p: SpelledParam): string {
    if p.value.NoValue? then p.left else p.left + ("=" + (p.right + ValueText(p.value)))
  }

  function ParamText(p: SpelledParam): string {
    p.before + (";" + (p.after + (p.name + Assigned(p))))
  }

  function ParamsText(ps: seq<SpelledParam>): string {
    if ps == [] then "" else ParamText(ps[0]) + ParamsText(ps[1..])
  }

  function LinkText(l: SpelledLink): string {
    "<" + l.target + ">" + ParamsText(l.params)
  }

  function ListText(es: seq<Element>): string {
    if es == [] then "" else es[0].gap + (LinkText(es[0].link) + ListText(es[1..]))
  }

  function ParamMeant(p: SpelledParam): Param {
    Param(ToLower(p.name), Value(p.value))
  }

  function ParamsMeant(ps: seq<SpelledParam>): seq<Param> {
    if ps == [] then [] else [ParamMeant(ps[0])] + ParamsMeant(ps[1..])
  }

  function LinkMeant(l: SpelledLink): RawLink {
    RawLink(TrimSpace(l.target), ParamsMeant(l.params))
  }

  function ListMeant(es: seq<Element>): seq<RawLink> {
    if es == [] then [] else [LinkMeant(es[0].link)] + ListMeant(es[1..])
  }

  /** Blanks and commas before every link, with a comma between two links. */
  predicate ListOK(es: seq<Element>) {
    && (forall i :: 0 <= i < |es| ==> AllIn(es[i].gap, BETWEEN_LINKS) && LinkOK(es[i].link))
    && (forall i :: 0 < i < |es| ==> ',' in es[i].gap)
  }

  // ---- blanks ----

  lemma {:induction false} TrimAll(s: string, cut: string, t: string)
    requires AllIn(s, cut)
    ensures TrimLeft(s + t, cut) == TrimLeft(t, cut)
  {
    if s == "" {
      assert s + t == t;
    } else {
      assert (s + t)[1..] == s[1..] + t;
      TrimAll(s[1..], cut, t);
    }
  }

  lemma {:induction false} TrimTwice(t: string, cut: string)
    ensures TrimLeft(TrimLeft(t, cut), cut) == TrimLeft(t, cut)
  {
    if t != "" && t[0] in cut {
      TrimTwice(t[1..], cut);
    }
  }

  lemma {:induction false} TrimBoth(t: string)
    ensures TrimLeft(TrimLeft(t, BLANK), BETWEEN_LINKS) == TrimLeft(t, BETWEEN_LINKS)
  {
    if t != "" && t[0] in BLANK {
      TrimBoth(t[1..]);
    }
  }

  /** After blanks, a parameter, the end of a link or the end of the text. */
  predicate Boundary(t: string) {
    var rest := TrimLeft(t, BLANK);
    rest == "" || rest[0] == ';' || rest[0] == ','
  }

  /** After blanks, the end of a link or the end of the text. */
  predicate LinkEnds(t: string) {
    var rest := TrimLeft(t, BLANK);
    rest == "" || rest[0] == ','
  }

  lemma BoundaryFirst(t: string)
    requires Boundary(t) && t != ""
    ensures t[0] in "; \t,"
  {
  }

  // ---- values ----

  lemma {:induction false} QuotedRead(ps: seq<Piece>, t: string)
    requires forall i :: 0 <= i < |ps| ==> PieceOK(ps[i])
    ensures ReadQuoted(PiecesText(ps) + ("\"" + t)) == (PiecesValue(ps), t)
  {
    if ps == [] {
      assert PiecesText(ps) + ("\"" + t) == "\"" + t && ("\"" + t)[1..] == t;
    } else {
      var rest := PiecesText(ps[1..]) + ("\"" + t);
      QuotedRead(ps[1..], t);
      PieceRead(ps[0], rest);
      Associate(PieceText(ps[0]), PiecesText(ps[1..]), "\"" + t);
    }
  }

  lemma PieceRead(p: Piece, rest: string)
    requires PieceOK(p) && rest != ""
    ensures ReadQuoted(PieceText(p) + rest) == ([p.c] + ReadQuoted(rest).0, ReadQuoted(rest).1)
  {
    var w := PieceText(p) + rest;
    if p.Escaped? {
      assert w[2..] == rest && w[1] == p.c;
    } else {
      assert w[1..] == rest && |w| > 1;
    }
  }

  lemma ValueRead(v: Spelling, t: string)
    requires SpellingOK(v) && !v.NoValue? && (v.Token? ==> Boundary(t))
    ensures ReadValue(ValueText(v) + t) == (Value(v), t)
    ensures TrimLeft(ValueText(v) + t, BLANK) == ValueText(v) + t
  {
    match v {
      case Token(token) =>
        if t != "" { BoundaryFirst(t); }
        assert (token + t)[0] == token[0];
        SpanAppend(token, t, TOKEN_STOP);
        NoneOf(token, TOKEN_STOP);
        assert (token + t)[..|token|] == token && (token + t)[|token|..] == t;
      case Quoted(pieces) =>
        var quoted := PiecesText(pieces) + ("\"" + t);
        QuotedRead(pieces, t);
        ValueOfQuoted(quoted);
        assert ValueText(v) + t == "\"" + quoted;
    }
  }

  // ---- parameters ----

  lemma NameRead(after: string, name: string, rest: string)
    requires AllIn(after, BLANK) && name != "" && NoneIn(name, NAME_STOP) && (rest == "" || rest[0] in NAME_STOP)
    ensures ReadName(after + (name + rest)) == (ToLower(name), TrimLeft(rest, BLANK))
  {
    TrimAll(after, BLANK, name + rest);
    assert (name + rest)[0] == name[0];
    assert TrimLeft(name + rest, BLANK) == name + rest;
    SpanAppend(name, rest, NAME_STOP);
    NoneOf(name, NAME_STOP);
    assert (name + rest)[..|name|] == name && (name + rest)[|name|..] == rest;
  }

  lemma AssignedTrimmed(p: SpelledParam, t: string)
    requires ParamOK(p)
    ensures p.value.NoValue? ==> TrimLeft(Assigned(p) + t, BLANK) == TrimLeft(t, BLANK)
    ensures !p.value.NoValue? ==> TrimLeft(Assigned(p) + t, BLANK) == "=" + (p.right + (ValueText(p.value) + t))
  {
    if p.value.NoValue? {
      TrimAll(p.left, BLANK, t);
    } else {
      var value := "=" + (p.right + (ValueText(p.value) + t));
      assert Assigned(p) + t == p.left + value;
      TrimAll(p.left, BLANK, value);
      assert TrimLeft(value, BLANK) == value;
    }
  }

  lemma AssignedFirst(p: SpelledParam, t: string)
    requires ParamOK(p) && Boundary(t)
    ensures Assigned(p) + t == "" || (Assigned(p) + t)[0] in NAME_STOP
  {
    var text := Assigned(p) + t;
    if p.left != "" {
      assert text[0] == p.left[0];
    } else if p.value.NoValue? {
      assert text == t;
      if t != "" { BoundaryFirst(t); }
    } else {
      assert text[0] == '=';
    }
  }

  lemma ParamRead(p: SpelledParam, t: string)
    requires ParamOK(p) && Boundary(t)
    ensures var r := ReadParam(p.after + (p.name + (Assigned(p) + t)));
            r.0 == ParamMeant(p) && r.1 == if p.value.NoValue? then TrimLeft(t, BLANK) else t
  {
    AssignedFirst(p, t);
    NameRead(p.after, p.name, Assigned(p) + t);
    AssignedTrimmed(p, t);
    if !p.value.NoValue? {
      var rest := p.right + (ValueText(p.value) + t);
      assert ("=" + rest)[1..] == rest;
      ValueRead(p.value, t);
      TrimAll(p.right, BLANK, ValueText(p.value) + t);
    }
  }

  lemma ParamRegrouped(p: SpelledParam, t: string)
    ensures ParamText(p) + t == p.before + (";" + (p.after + (p.name + (Assigned(p) + t))))
  {
    var named := p.name + Assigned(p);
    Associate(p.name, Assigned(p), t);
    Associate(p.after, named, t);
    Associate(";", p.after + named, t);
    Associate(p.before, ";" + (p.after + named), t);
  }

  lemma ParamStep(p: SpelledParam, t: string)
    requires ParamOK(p) && Boundary(t)
    ensures ReadParams(ParamText(p) + t) == ([ParamMeant(p)] + ReadParams(t).0, ReadParams(t).1)
    ensures Boundary(ParamText(p) + t)
  {
    var after := p.after + (p.name + (Assigned(p) + t));
    ParamRegrouped(p, t);
    TrimAll(p.before, BLANK, ";" + after);
    assert TrimLeft(";" + after, BLANK) == ";" + after;
    ParamRead(p, t);
    ParamsAtParam(after, ParamMeant(p), ReadParam(after).1);
    TrimTwice(t, BLANK);
    assert ReadParams(TrimLeft(t, BLANK)) == ReadParams(t);
  }

  lemma {:induction false} ParamsRead(ps: seq<SpelledParam>, t: string)
    requires (forall i :: 0 <= i < |ps| ==> ParamOK(ps[i])) && LinkEnds(t)
    ensures ReadParams(ParamsText(ps) + t) == (ParamsMeant(ps), TrimLeft(t, BLANK))
    ensures Boundary(ParamsText(ps) + t)
  {
    if ps == [] {
      assert ParamsText(ps) + t == t;
      var rest := TrimLeft(t, BLANK);
      assert rest[Span(rest, ",")..] == rest;
    } else {
      ParamsRead(ps[1..], t);
      ParamStep(ps[0], ParamsText(ps[1..]) + t);
      Associate(ParamText(ps[0]), ParamsText(ps[1..]), t);
    }
  }

  // ---- links and lists ----

  lemma LinkRead(l: SpelledLink, t: string)
    requires LinkOK(l) && LinkEnds(t)
    ensures RawLinks(LinkText(l) + t) == [LinkMeant(l)] + RawLinks(t)
  {
    ParamsRead(l.params, t);
    LinksAtTarget(l.target, ParamsText(l.params) + t);
    assert LinkText(l) + t == "<" + l.target + ">" + (ParamsText(l.params) + t);
    TrimBoth(t);
    assert RawLinks(TrimLeft(t, BLANK)) == RawLinks(t);
  }

  lemma GapSkipped(gap: string, text: string)
    requires AllIn(gap, BETWEEN_LINKS)
    ensures RawLinks(gap + text) == RawLinks(text)
  {
    TrimAll(gap, BETWEEN_LINKS, text);
  }

  lemma {:induction false} GapEnds(gap: string, text: string)
    requires AllIn(gap, BETWEEN_LINKS) && ',' in gap
    ensures LinkEnds(gap + text)
  {
    if gap[0] in BLANK {
      assert (gap + text)[1..] == gap[1..] + text;
      GapEnds(gap[1..], text);
    }
  }

  lemma ListEnds(es: seq<Element>, t: string)
    requires ListOK(es) && LinkEnds(t) && (es != [] ==> ',' in es[0].gap)
    ensures LinkEnds(ListText(es) + t)
  {
    if es == [] {
      assert ListText(es) + t == t;
    } else {
      var rest := LinkText(es[0].link) + ListText(es[1..]);
      GapEnds(es[0].gap, rest + t);
      Associate(es[0].gap, rest, t);
    }
  }

  /** A list of links in any spelling is read as the links it spells, before the end of
      the text or a comma and anything else. */
  lemma {:induction false} ReadSpelledLinks(es: seq<Element>, t: string)
    requires ListOK(es) && LinkEnds(t)
    ensures RawLinks(ListText(es) + t) == ListMeant(es) + RawLinks(t)
  {
    if es == [] {
      assert ListText(es) + t == t;
      assert [] + RawLinks(t) == RawLinks(t);
    } else {
      var rest := ListText(es[1..]) + t;
      ReadSpelledLinks(es[1..], t);
      ListEnds(es[1..], t);
      ElementRegrouped(es, t);
      GapSkipped(es[0].gap, LinkText(es[0].link) + rest);
      LinkRead(es[0].link, rest);
      Associate([LinkMeant(es[0].link)], ListMeant(es[1..]), RawLinks(t));
    }
  }

  lemma ElementRegrouped(es: seq<Element>, t: string)
    requires es != []
    ensures ListText(es) + t == es[0].gap + (LinkText(es[0].link) + (ListText(es[1..]) + t))
  {
    Associate(LinkText(es[0].link), ListText(es[1..]), t);
    Associate(es[0].gap, LinkText(es[0].link) + ListText(es[1..]), t);
  }
}
