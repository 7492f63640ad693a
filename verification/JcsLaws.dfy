/** The canonical text is the one shortest text of a document: no white space, no escape
    that is not needed, and the shortest escape otherwise (section 3.2 of RFC 8785). */
module JcsLaws {
  import opened Json
  import opened JsonText

  // ---- all spellings of a character (section 7 of RFC 8259) ----

  function HexDigit(c: char): int {
    if '0' <= c <= '9' then c as int - '0' as int
    else if 'a' <= c <= 'f' then c as int - 'a' as int + 10
    else if 'A' <= c <= 'F' then c as int - 'A' as int + 10
    else -1
  }

  /** The code unit of \uXXXX, -1 for any other text. */
  function Unit(s: string): int {
    if |s| == 6 && s[..2] == "\\u" && (forall i :: 2 <= i < 6 ==> HexDigit(s[i]) >= 0)
    then HexDigit(s[2]) * 4096 + HexDigit(s[3]) * 256 + HexDigit(s[4]) * 16 + HexDigit(s[5])
    else -1
  }

  function Escape(c: char): Option<char> {
    match c
    case '"' => Some('"')
    case '\\' => Some('\\')
    case '/' => Some('/')
    case 'b' => Some(8 as char)
    case 'f' => Some(12 as char)
    case 'n' => Some('\n')
    case 'r' => Some('\r')
    case 't' => Some('\t')
    case _ => None
  }

  /** The character that s, a piece of a string literal, spells. */
  function CharOf(s: string): Option<char> {
    if |s| == 1 then if s[0] == '"' || s[0] == '\\' || s[0] < ' ' then None else Some(s[0])
    else if |s| == 2 then if s[0] == '\\' then Escape(s[1]) else None
    else if |s| == 6 then
      var n := Unit(s);
      if 0 <= n < 0xD800 || 0xE000 <= n < 0x1_0000 then Some(n as char) else None
    else if |s| == 12 then
      var high, low := Unit(s[..6]), Unit(s[6..]);
      if 0xD800 <= high < 0xDC00 && 0xDC00 <= low < 0xE000
      then Some((0x1_0000 + (high - 0xD800) * 1024 + (low - 0xDC00)) as char) else None
    else None
  }

  predicate LowerHex(s: string) {
    |s| > 2 ==> forall i :: 0 <= i < |s| ==> !('A' <= s[i] <= 'F')
  }

  lemma HexRead(n: nat)
    requires n < 16
    ensures HexDigit(Hex(n)) == n && !('A' <= Hex(n) <= 'F')
  {
  }

  lemma SmallUnit(s: string)
    requires 0 <= Unit(s) < 256
    ensures s[..4] == "\\u00" && Unit(s) == HexDigit(s[4]) * 16 + HexDigit(s[5])
  {
    assert HexDigit(s[2]) == 0 && HexDigit(s[3]) == 0;
    assert s[..4] == s[..2] + [s[2], s[3]];
  }

  lemma HexIs(c: char)
    requires 0 <= HexDigit(c) && !('A' <= c <= 'F')
    ensures Hex(HexDigit(c)) == c
  {
  }

  lemma WrittenIsSpelled(c: char)
    ensures CharOf(WriteChar(c)) == Some(c) && LowerHex(WriteChar(c))
  {
    var s := WriteChar(c);
    if |s| == 6 {
      HexRead(c as int / 16);
      HexRead(c as int % 16);
      assert s[..2] == "\\u" && s[2] == '0' && s[3] == '0';
      assert Unit(s) == c as int;
    }
  }

  lemma ShortestChar(c: char, s: string)
    requires CharOf(s) == Some(c)
    ensures |WriteChar(c)| <= |s|
    ensures |WriteChar(c)| == |s| && LowerHex(s) ==> WriteChar(c) == s
  {
    if |s| == 6 && |WriteChar(c)| == 6 && LowerHex(s) {
      SmallUnit(s);
      HexIs(s[4]);
      HexIs(s[5]);
      assert c as int / 16 == HexDigit(s[4]) && c as int % 16 == HexDigit(s[5]);
      assert s == s[..4] + [s[4], s[5]];
    }
  }

  // ---- string literals ----

  /** The pieces of a literal, one for each character. */
  predicate PiecesOK(pieces: seq<string>) {
    forall i :: 0 <= i < |pieces| ==> CharOf(pieces[i]).Some?
  }

  function PiecesText(pieces: seq<string>): string {
    if pieces == [] then "" else pieces[0] + PiecesText(pieces[1..])
  }

  function PiecesMeant(pieces: seq<string>): string
    requires PiecesOK(pieces)
  {
    if pieces == [] then "" else [CharOf(pieces[0]).value] + PiecesMeant(pieces[1..])
  }

  predicate PiecesLower(pieces: seq<string>) {
    forall i :: 0 <= i < |pieces| ==> LowerHex(pieces[i])
  }

  /** Of two parts, neither is longer than its counterpart; if the wholes are equally
      long, so are the parts. */
  lemma {:induction false} ShortestPieces(pieces: seq<string>)
    requires PiecesOK(pieces)
    ensures |WriteChars(PiecesMeant(pieces))| <= |PiecesText(pieces)|
    ensures |WriteChars(PiecesMeant(pieces))| == |PiecesText(pieces)| && PiecesLower(pieces) ==>
              WriteChars(PiecesMeant(pieces)) == PiecesText(pieces)
  {
    if pieces != [] {
      var c, rest := CharOf(pieces[0]).value, PiecesMeant(pieces[1..]);
      ShortestChar(c, pieces[0]);
      ShortestPieces(pieces[1..]);
      assert ([c] + rest)[1..] == rest;
      assert WriteChars([c] + rest) == WriteChar(c) + WriteChars(rest);
    }
  }

  function Written(s: string): seq<string> {
    seq(|s|, i requires 0 <= i < |s| => WriteChar(s[i]))
  }

  lemma {:induction false} WrittenPieces(s: string)
    ensures PiecesOK(Written(s)) && PiecesLower(Written(s))
    ensures PiecesMeant(Written(s)) == s && PiecesText(Written(s)) == WriteChars(s)
  {
    forall i | 0 <= i < |s| ensures CharOf(Written(s)[i]) == Some(s[i]) && LowerHex(Written(s)[i]) {
      WrittenIsSpelled(s[i]);
    }
    if s != "" {
      WrittenPieces(s[1..]);
      assert Written(s)[1..] == Written(s[1..]);
      assert [s[0]] + s[1..] == s;
    }
  }

  // ---- documents ----

  /** A value with the white space around it. */
  datatype Spelled = Spelled(before: string, body: Body, after: string)

  /** Words are null, true, false and numbers; inside is white space in an empty list or
      object. */
  datatype Body =
    | Word(j: Json)
    | Quoted(pieces: seq<string>)
    | List(inside: string, items: seq<Spelled>)
    | Object(inside: string, members: seq<SpelledMember>)

  datatype SpelledMember = SpelledMember(before: string, name: seq<string>, after: string, value: Spelled)

  /** The white space of section 2 of RFC 8259. */
  predicate Blank(s: string) {
    forall i :: 0 <= i < |s| ==> s[i] in " \t\n\r"
  }

  predicate OK(t: Spelled) {
    && Blank(t.before) && Blank(t.after)
    && match t.body
       case Word(j) => j.Null? || j.Bool? || j.Num?
       case Quoted(pieces) => PiecesOK(pieces)
       case List(inside, items) => Blank(inside) && forall i :: 0 <= i < |items| ==> OK(items[i])
       case Object(inside, members) => Blank(inside) && forall i :: 0 <= i < |members| ==> MemberOK(members[i])
  }

  predicate MemberOK(m: SpelledMember) {
    Blank(m.before) && Blank(m.after) && PiecesOK(m.name) && OK(m.value)
  }

  function TextOf(t: Spelled): string
    decreases t, 0
  {
    t.before + BodyText(t.body) + t.after
  }

  function BodyText(b: Body): string
    decreases b, 0
  {
    match b
    case Word(j) => Write(j)
    case Quoted(pieces) => "\"" + PiecesText(pieces) + "\""
    case List(inside, items) => "[" + (if items == [] then inside else ItemsText(items)) + "]"
    case Object(inside, members) => "{" + (if members == [] then inside else MembersText(members)) + "}"
  }

  function ItemsText(items: seq<Spelled>): string
    requires items != []
    decreases items, 1
  {
    TextOf(items[0]) + if |items| == 1 then "" else "," + ItemsText(items[1..])
  }

  function MemberText(m: SpelledMember): string
    decreases m, 1
  {
    m.before + ("\"" + PiecesText(m.name) + "\"") + m.after + (":" + TextOf(m.value))
  }

  function MembersText(members: seq<SpelledMember>): string
    requires members != []
    decreases members, 2
  {
    MemberText(members[0]) + if |members| == 1 then "" else "," + MembersText(members[1..])
  }

  function Means(t: Spelled): Json
    requires OK(t)
  {
    match t.body
    case Word(j) => j
    case Quoted(pieces) => Str(PiecesMeant(pieces))
    case List(_, items) => Arr(ItemsMeant(items))
    case Object(_, members) => Obj(MembersMeant(members))
  }

  function ItemsMeant(items: seq<Spelled>): (r: seq<Json>)
    requires forall i :: 0 <= i < |items| ==> OK(items[i])
    ensures |r| == |items|
  {
    if items == [] then [] else [Means(items[0])] + ItemsMeant(items[1..])
  }

  function MemberMeant(m: SpelledMember): Member
    requires MemberOK(m)
  {
    Member(PiecesMeant(m.name), Means(m.value))
  }

  function MembersMeant(members: seq<SpelledMember>): (r: seq<Member>)
    requires forall i :: 0 <= i < |members| ==> MemberOK(members[i])
    ensures |r| == |members|
  {
    if members == [] then [] else [MemberMeant(members[0])] + MembersMeant(members[1..])
  }

  /** All hex digits are in lower case. */
  predicate Lower(t: Spelled) {
    match t.body
    case Word(_) => true
    case Quoted(pieces) => PiecesLower(pieces)
    case List(_, items) => forall i :: 0 <= i < |items| ==> Lower(items[i])
    case Object(_, members) =>
      forall i :: 0 <= i < |members| ==> PiecesLower(members[i].name) && Lower(members[i].value)
  }

  // ---- no text is shorter ----

  /** written is no longer than text, and is that text if it is as long. */
  predicate AtMost(written: string, text: string, lower: bool) {
    |written| <= |text| && (|written| == |text| && lower ==> written == text)
  }

  lemma Around(written: string, before: string, text: string, after: string, lower: bool)
    requires AtMost(written, text, lower)
    ensures AtMost(written, before + text + after, lower)
  {
    assert |before| == |after| == 0 ==> before + text + after == text;
  }

  lemma Parts(w: string, v: string, s: string, t: string, a: bool, b: bool)
    requires AtMost(w, s, a) && AtMost(v, t, b)
    ensures AtMost(w + v, s + t, a && b)
  {
  }

  lemma ShortestLiteral(pieces: seq<string>)
    requires PiecesOK(pieces)
    ensures AtMost(WriteString(PiecesMeant(pieces)), "\"" + PiecesText(pieces) + "\"", PiecesLower(pieces))
  {
    ShortestPieces(pieces);
  }

  lemma {:induction false} Shortest(t: Spelled)
    requires OK(t)
    ensures AtMost(Write(Means(t)), TextOf(t), Lower(t))
    decreases t, 0
  {
    match t.body {
      case Word(j) =>
      case Quoted(pieces) => ShortestLiteral(pieces);
      case List(inside, items) =>
        if items != [] {
          ShortestItems(items);
          Parts("[", WriteItems(ItemsMeant(items)), "[", ItemsText(items), true, Lower(t));
          Parts("[" + WriteItems(ItemsMeant(items)), "]", "[" + ItemsText(items), "]", Lower(t), true);
        } else {
          assert inside == "" ==> "[" + inside + "]" == "[]";
        }
      case Object(inside, members) =>
        if members != [] {
          ShortestMembers(members);
          Parts("{", WriteMembers(MembersMeant(members)), "{", MembersText(members), true, Lower(t));
          Parts("{" + WriteMembers(MembersMeant(members)), "}", "{" + MembersText(members), "}", Lower(t), true);
        } else {
          assert inside == "" ==> "{" + inside + "}" == "{}";
        }
    }
    Around(Write(Means(t)), t.before, BodyText(t.body), t.after, Lower(t));
  }

  predicate AllLower(items: seq<Spelled>) {
    forall i :: 0 <= i < |items| ==> Lower(items[i])
  }

  lemma {:induction false} ShortestItems(items: seq<Spelled>)
    requires items != [] && forall i :: 0 <= i < |items| ==> OK(items[i])
    ensures AtMost(WriteItems(ItemsMeant(items)), ItemsText(items), AllLower(items))
    decreases items, 1
  {
    var first, rest := Means(items[0]), ItemsMeant(items[1..]);
    assert ([first] + rest)[1..] == rest;
    Shortest(items[0]);
    if |items| > 1 {
      ShortestItems(items[1..]);
      Parts(",", WriteItems(rest), ",", ItemsText(items[1..]), true, AllLower(items[1..]));
      Parts(Write(first), "," + WriteItems(rest), TextOf(items[0]), "," + ItemsText(items[1..]), Lower(items[0]),
          AllLower(items[1..]));
    } else {
      Parts(Write(first), "", TextOf(items[0]), "", Lower(items[0]), true);
    }
  }

  predicate MemberLower(m: SpelledMember) {
    PiecesLower(m.name) && Lower(m.value)
  }

  predicate MembersLower(members: seq<SpelledMember>) {
    forall i :: 0 <= i < |members| ==> MemberLower(members[i])
  }

  lemma {:induction false} ShortestMember(m: SpelledMember)
    requires MemberOK(m)
    ensures AtMost(WriteMember(MemberMeant(m)), MemberText(m), MemberLower(m))
    decreases m, 1
  {
    var name := "\"" + PiecesText(m.name) + "\"";
    Shortest(m.value);
    ShortestLiteral(m.name);
    Around(WriteString(PiecesMeant(m.name)), m.before, name, m.after, PiecesLower(m.name));
    Parts(":", Write(Means(m.value)), ":", TextOf(m.value), true, Lower(m.value));
    Parts(WriteString(PiecesMeant(m.name)), ":" + Write(Means(m.value)), m.before + name + m.after,
        ":" + TextOf(m.value), PiecesLower(m.name), Lower(m.value));
  }

  lemma {:induction false} ShortestMembers(members: seq<SpelledMember>)
    requires members != [] && forall i :: 0 <= i < |members| ==> MemberOK(members[i])
    ensures AtMost(WriteMembers(MembersMeant(members)), MembersText(members), MembersLower(members))
    decreases members, 2
  {
    var first, rest := MemberMeant(members[0]), MembersMeant(members[1..]);
    assert ([first] + rest)[1..] == rest;
    ShortestMember(members[0]);
    if |members| > 1 {
      ShortestMembers(members[1..]);
      Parts(",", WriteMembers(rest), ",", MembersText(members[1..]), true, MembersLower(members[1..]));
      Parts(WriteMember(first), "," + WriteMembers(rest), MemberText(members[0]), "," + MembersText(members[1..]),
          MemberLower(members[0]), MembersLower(members[1..]));
    } else {
      Parts(WriteMember(first), "", MemberText(members[0]), "", MemberLower(members[0]), true);
    }
  }

  // ---- the written text is one of them ----

  function Spelling(j: Json): Spelled {
    Spelled("", BodyOf(j), "")
  }

  function BodyOf(j: Json): Body
    decreases j, 0
  {
    match j
    case Str(text) => Quoted(Written(text))
    case Arr(items) => List("", ItemsOf(items))
    case Obj(ms) => Object("", MembersOf(ms))
    case _ => Word(j)
  }

  function ItemsOf(items: seq<Json>): (r: seq<Spelled>)
    ensures |r| == |items|
    decreases items, 1
  {
    if items == [] then [] else [Spelled("", BodyOf(items[0]), "")] + ItemsOf(items[1..])
  }

  function MembersOf(ms: seq<Member>): (r: seq<SpelledMember>)
    ensures |r| == |ms|
    decreases ms, 1
  {
    if ms == [] then []
    else
      [SpelledMember("", Written(ms[0].name), "", Spelled("", BodyOf(ms[0].value), ""))] + MembersOf(ms[1..])
  }

  lemma {:induction false} SpellingIs(j: Json)
    ensures OK(Spelling(j)) && Lower(Spelling(j)) && Means(Spelling(j)) == j && TextOf(Spelling(j)) == Write(j)
    decreases j, 0
  {
    match j {
      case Str(text) => WrittenPieces(text);
      case Arr(items) =>
        ItemsAre(items);
        assert BodyText(BodyOf(j)) == Write(j);
      case Obj(ms) =>
        MembersAre(ms);
        ObjectIs(MembersOf(ms), ms);
      case _ =>
    }
    assert "" + BodyText(BodyOf(j)) + "" == BodyText(BodyOf(j));
  }

  lemma ObjectIs(members: seq<SpelledMember>, ms: seq<Member>)
    requires (forall i :: 0 <= i < |members| ==> MemberOK(members[i])) && MembersLower(members)
    requires MembersMeant(members) == ms && (ms != [] ==> MembersText(members) == WriteMembers(ms))
    ensures var t := Spelled("", Object("", members), "");
            OK(t) && Lower(t) && Means(t) == Obj(ms) && BodyText(t.body) == Write(Obj(ms))
  {
    forall i | 0 <= i < |members| ensures PiecesLower(members[i].name) && Lower(members[i].value) {
      assert MemberLower(members[i]);
    }
    ObjectText(members, ms);
    assert Blank("");
  }

  lemma ObjectText(members: seq<SpelledMember>, ms: seq<Member>)
    requires |members| == |ms| && (ms != [] ==> MembersText(members) == WriteMembers(ms))
    ensures BodyText(Object("", members)) == Write(Obj(ms))
  {
    if ms == [] {
      assert "{" + "" + "}" == "{}";
    }
  }

  lemma {:induction false} ItemsAre(items: seq<Json>)
    ensures (forall i :: 0 <= i < |items| ==> OK(ItemsOf(items)[i])) && AllLower(ItemsOf(items))
    ensures ItemsMeant(ItemsOf(items)) == items
    ensures items != [] ==> ItemsText(ItemsOf(items)) == WriteItems(items)
    decreases items, 1
  {
    if items != [] {
      SpellingIs(items[0]);
      ItemsAre(items[1..]);
      ItemJoins(Spelling(items[0]), ItemsOf(items[1..]), items[0], items[1..]);
      assert [items[0]] + items[1..] == items;
    }
  }

  lemma {:induction false} ItemJoins(t: Spelled, ts: seq<Spelled>, j: Json, js: seq<Json>)
    requires OK(t) && Lower(t) && Means(t) == j && TextOf(t) == Write(j) && |ts| == |js|
    requires (forall i :: 0 <= i < |ts| ==> OK(ts[i])) && AllLower(ts) && ItemsMeant(ts) == js
    requires js != [] ==> ItemsText(ts) == WriteItems(js)
    ensures (forall i :: 0 <= i < |ts| + 1 ==> OK(([t] + ts)[i])) && AllLower([t] + ts)
    ensures ItemsMeant([t] + ts) == [j] + js && ItemsText([t] + ts) == WriteItems([j] + js)
  {
    assert ([t] + ts)[1..] == ts && ([j] + js)[1..] == js;
  }

  lemma MemberIs(m: Member, s: SpelledMember)
    requires s == SpelledMember("", Written(m.name), "", Spelling(m.value))
    requires OK(s.value) && Lower(s.value) && Means(s.value) == m.value && TextOf(s.value) == Write(m.value)
    ensures MemberOK(s) && MemberLower(s) && MemberMeant(s) == m && MemberText(s) == WriteMember(m)
  {
    WrittenPieces(m.name);
    assert "" + WriteString(m.name) + "" == WriteString(m.name);
  }

  lemma {:induction false} MembersAre(ms: seq<Member>)
    ensures (forall i :: 0 <= i < |ms| ==> MemberOK(MembersOf(ms)[i])) && MembersLower(MembersOf(ms))
    ensures MembersMeant(MembersOf(ms)) == ms
    ensures ms != [] ==> MembersText(MembersOf(ms)) == WriteMembers(ms)
    decreases ms, 1
  {
    if ms != [] {
      SpellingIs(ms[0].value);
      MemberIs(ms[0], MembersOf(ms)[0]);
      MembersAre(ms[1..]);
      assert MembersOf(ms)[1..] == MembersOf(ms[1..]);
      assert [ms[0]] + ms[1..] == ms;
    }
  }

  // ---- the canonical text of a document ----

  /** The members of every object are in the order of their names, none repeated. */
  ghost predicate InOrder(j: Json) {
    match j
    case Arr(items) => forall i :: 0 <= i < |items| ==> InOrder(items[i])
    case Obj(ms) => Sorted(ms) && forall i :: 0 <= i < |ms| ==> InOrder(ms[i].value)
    case _ => true
  }

  lemma {:induction false} InOrderIsCanon(j: Json)
    requires InOrder(j)
    ensures UniqueNamed(j) && Canon(j) == j
  {
    match j {
      case Arr(items) =>
        forall i | 0 <= i < |items| ensures UniqueNamed(items[i]) && Canon(items[i]) == items[i] {
          InOrderIsCanon(items[i]);
        }
      case Obj(ms) =>
        forall i | 0 <= i < |ms| ensures UniqueNamed(ms[i].value) && Canon(ms[i].value) == ms[i].value {
          InOrderIsCanon(ms[i].value);
        }
        assert CanonMembers(ms) == ms;
        SortedStays(ms);
      case _ =>
    }
  }

  lemma SortedStays(ms: seq<Member>)
    requires Sorted(ms)
    ensures DistinctNames(ms) && Sort(ms) == ms
  {
    forall i, k | 0 <= i < k < |ms| ensures ms[i].name != ms[k].name {
      LessIsTotal(ms[i].name, ms[k].name);
    }
    SortFacts(ms);
    forall m ensures m in Sort(ms) <==> m in ms {
      SortKeepsMembers(ms, m);
    }
    SortedUnique(Sort(ms), ms);
  }

  lemma {:induction false} CanonIsInOrder(j: Json)
    requires UniqueNamed(j)
    ensures InOrder(Canon(j))
  {
    match j {
      case Arr(items) =>
        forall i | 0 <= i < |items| ensures InOrder(Canon(items[i])) {
          CanonIsInOrder(items[i]);
        }
      case Obj(ms) =>
        var cm := CanonMembers(ms);
        SortFacts(cm);
        forall i | 0 <= i < |Sort(cm)| ensures InOrder(Sort(cm)[i].value) {
          SortKeepsMembers(cm, Sort(cm)[i]);
          assert Sort(cm)[i] in Sort(cm);
          var k :| 0 <= k < |cm| && cm[k] == Sort(cm)[i];
          CanonIsInOrder(ms[k].value);
        }
      case _ =>
    }
  }

  /** Of all texts that mean the document up to member order and have its members in
      order, the canonical text is the shortest, and the only one that short but for the
      case of hex digits. */
  lemma CanonicalIsShortest(doc: Json, t: Spelled)
    requires UniqueNamed(doc) && OK(t) && InOrder(Means(t)) && Same(Means(t), doc)
    ensures |Write(Canon(doc))| <= |TextOf(t)|
    ensures |Write(Canon(doc))| == |TextOf(t)| && Lower(t) ==> Write(Canon(doc)) == TextOf(t)
  {
    InOrderIsCanon(Means(t));
    CanonDecidesSame(Means(t), doc);
    Shortest(t);
  }

  /** And it is one of them. */
  lemma CanonicalIsSpelled(doc: Json) returns (t: Spelled)
    requires UniqueNamed(doc)
    ensures OK(t) && Lower(t) && InOrder(Means(t)) && Same(Means(t), doc) && TextOf(t) == Write(Canon(doc))
  {
    t := Spelling(Canon(doc));
    SpellingIs(Canon(doc));
    CanonIsInOrder(doc);
    CanonIsSame(doc);
  }
}
