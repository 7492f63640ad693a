/** The text of a JSON document in JCS form (section 3.2 of RFC 8785) and the
    decoder that reads such text back. */
module JsonText {
  import opened Json
  import opened Seqs

  function Hex(n: int): char
    requires 0 <= n < 16
  {
    if n < 10 then ('0' as int + n) as char else ('a' as int + n - 10) as char
  }

  /** One character of a string literal (section 3.2.2.2 of RFC 8785). */
  function WriteChar(c: char): string {
    if c == '"' then "\\\""
    else if c == '\\' then "\\\\"
    else if c as int == 8 then "\\b"
    else if c == '\t' then "\\t"
    else if c == '\n' then "\\n"
    else if c as int == 12 then "\\f"
    else if c == '\r' then "\\r"
    else if c < ' ' then "\\u00" + [Hex(c as int / 16), Hex(c as int % 16)]
    else [c]
  }

  function WriteChars(s: string): string {
    if s == "" then "" else WriteChar(s[0]) + WriteChars(s[1..])
  }

  function WriteString(s: string): string {
    "\"" + WriteChars(s) + "\""
  }

  function Write(j: Json): string
    decreases j, 0
  {
    match j
    case Null => "null"
    case Bool(b) => if b then "true" else "false"
    case Num(token) => token
    case Str(text) => WriteString(text)
    case Arr(items) => if items == [] then "[]" else "[" + WriteItems(items) + "]"
    case Obj(ms) => if ms == [] then "{}" else "{" + WriteMembers(ms) + "}"
  }

  function WriteItems(items: seq<Json>): string
    requires items != []
    decreases items, 1
  {
    Write(items[0]) + if |items| == 1 then "" else "," + WriteItems(items[1..])
  }

  function WriteMember(m: Member): string
    decreases m, 1
  {
    WriteString(m.name) + (":" + Write(m.value))
  }

  function WriteMembers(ms: seq<Member>): string
    requires ms != []
    decreases ms, 2
  {
    WriteMember(ms[0]) + if |ms| == 1 then "" else "," + WriteMembers(ms[1..])
  }

  // ---- decoding ----

  function HexValue(c: char): int {
    if '0' <= c <= '9' then c as int - '0' as int
    else if 'a' <= c <= 'f' then c as int - 'a' as int + 10
    else -1
  }

  /** Reads one possibly escaped character of a string literal. */
  function ReadChar(s: string): (r: Option<(char, string)>)
    requires s != "" && s[0] != '"'
    ensures r.Some? ==> |r.value.1| < |s|
  {
    if s[0] != '\\' then Some((s[0], s[1..]))
    else if |s| < 2 then None
    else
      match s[1]
      case '"' => Some(('"', s[2..]))
      case '\\' => Some(('\\', s[2..]))
      case 'b' => Some((8 as char, s[2..]))
      case 't' => Some(('\t', s[2..]))
      case 'n' => Some(('\n', s[2..]))
      case 'f' => Some((12 as char, s[2..]))
      case 'r' => Some(('\r', s[2..]))
      case 'u' =>
        if |s| < 6 || s[2..4] != "00" || HexValue(s[4]) < 0 || HexValue(s[5]) < 0 then None
        else Some(((HexValue(s[4]) * 16 + HexValue(s[5])) as char, s[6..]))
      case _ => None
  }

  /** Reads a string literal whose opening quote has been consumed. */
  function ReadChars(s: string): (r: Option<(string, string)>)
    ensures r.Some? ==> |r.value.1| < |s|
    decreases |s|
  {
    if s == "" then None
    else if s[0] == '"' then Some(("", s[1..]))
    else
      match ReadChar(s)
      case None => None
      case Some((c, rest)) =>
        match ReadChars(rest)
        case None => None
        case Some((text, end)) => Some(([c] + text, end))
  }

  function NumberLength(s: string): (n: nat)
    ensures n <= |s|
    ensures forall i :: 0 <= i < n ==> NumberChar(s[i])
    ensures n < |s| ==> !NumberChar(s[n])
  {
    if s == "" || !NumberChar(s[0]) then 0 else 1 + NumberLength(s[1..])
  }

  predicate At(s: string, c: char) {
    s != "" && s[0] == c
  }

  function Read(s: string): (r: Option<(Json, string)>)
    ensures r.Some? ==> |r.value.1| < |s|
    decreases |s|, 0
  {
    if s == "" then None
    else
      match s[0]
      case 'n' => if "null" <= s then Some((Null, s[4..])) else None
      case 't' => if "true" <= s then Some((Bool(true), s[4..])) else None
      case 'f' => if "false" <= s then Some((Bool(false), s[5..])) else None
      case '"' =>
        (match ReadChars(s[1..])
         case None => None
         case Some((text, rest)) => Some((Str(text), rest)))
      case '[' =>
        if At(s[1..], ']') then Some((Arr([]), s[2..]))
        else
          (match ReadItems(s[1..])
           case None => None
           case Some((items, rest)) => Some((Arr(items), rest)))
      case '{' =>
        if At(s[1..], '}') then Some((Obj([]), s[2..]))
        else
          (match ReadMembers(s[1..])
           case None => None
           case Some((ms, rest)) => Some((Obj(ms), rest)))
      case _ =>
        var n := NumberLength(s);
        if n == 0 then None else Some((Num(s[..n]), s[n..]))
  }

  function ReadItems(s: string): (r: Option<(seq<Json>, string)>)
    ensures r.Some? ==> |r.value.1| < |s|
    decreases |s|, 1
  {
    match Read(s)
    case None => None
    case Some((j, rest)) =>
      if At(rest, ']') then Some(([j], rest[1..]))
      else if At(rest, ',') then
        match ReadItems(rest[1..])
        case None => None
        case Some((items, end)) => Some(([j] + items, end))
      else None
  }

  function ReadMember(s: string): (r: Option<(Member, string)>)
    ensures r.Some? ==> |r.value.1| < |s|
    decreases |s|, 1
  {
    if !At(s, '"') then None
    else
      match ReadChars(s[1..])
      case None => None
      case Some((name, rest)) =>
        if !At(rest, ':') then None
        else
          match Read(rest[1..])
          case None => None
          case Some((j, end)) => Some((Member(name, j), end))
  }

  function ReadMembers(s: string): (r: Option<(seq<Member>, string)>)
    ensures r.Some? ==> |r.value.1| < |s|
    decreases |s|, 2
  {
    match ReadMember(s)
    case None => None
    case Some((m, rest)) =>
      if At(rest, '}') then Some(([m], rest[1..]))
      else if At(rest, ',') then
        match ReadMembers(rest[1..])
        case None => None
        case Some((ms, end)) => Some(([m] + ms, end))
      else None
  }

  // ---- decoding is the inverse of writing ----

  /** Text that may follow a value: it does not extend a number. */
  predicate Ends(t: string) {
    t == "" || !NumberChar(t[0])
  }

  lemma ReadWrittenChar(c: char, t: string)
    ensures var s := WriteChar(c) + t;
            s != "" && s[0] != '"' && ReadChar(s) == Some((c, t))
  {
    var s := WriteChar(c) + t;
    assert s[|WriteChar(c)|..] == t;
    if |WriteChar(c)| == 6 {
      assert s[2..4] == "00";
      assert HexValue(s[4]) == c as int / 16 && HexValue(s[5]) == c as int % 16;
    }
  }

  lemma {:induction false} ReadWrittenChars(text: string, t: string)
    ensures ReadChars(WriteChars(text) + "\"" + t) == Some((text, t))
  {
    if text == "" {
      assert (WriteChars(text) + "\"" + t)[1..] == t;
    } else {
      ReadWrittenChars(text[1..], t);
      CharsStep(text[0], text[1..], WriteChars(text[1..]), t);
      assert [text[0]] + text[1..] == text;
    }
  }

  lemma CharsStep(c: char, text: string, written: string, t: string)
    requires ReadChars(written + "\"" + t) == Some((text, t))
    ensures ReadChars(WriteChar(c) + written + "\"" + t) == Some(([c] + text, t))
  {
    ReadWrittenChar(c, written + "\"" + t);
    assert WriteChar(c) + written + "\"" + t == WriteChar(c) + (written + "\"" + t);
  }

  lemma ReadWrittenString(text: string, t: string)
    ensures At(WriteString(text) + t, '"')
    ensures ReadChars((WriteString(text) + t)[1..]) == Some((text, t))
  {
    assert (WriteString(text) + t)[1..] == WriteChars(text) + "\"" + t;
    ReadWrittenChars(text, t);
  }

  lemma {:induction false} NumberLengthOf(token: string, t: string)
    requires (forall c :: c in token ==> NumberChar(c)) && Ends(t)
    ensures NumberLength(token + t) == |token|
  {
    if token == "" {
      assert token + t == t;
    } else {
      assert (token + t)[1..] == token[1..] + t;
      NumberLengthOf(token[1..], t);
    }
  }

  lemma ReadWrittenNumber(token: NumberToken, t: string)
    requires Ends(t)
    ensures Read(token + t) == Some((Num(token), t))
  {
    NumberLengthOf(token, t);
    var s := token + t;
    assert token[0] in token && s[0] == token[0];
    assert s[..|token|] == token && s[|token|..] == t;
  }

  lemma ReadWrittenLeaf(j: Json, t: string)
    requires !j.Arr? && !j.Obj? && Ends(t)
    ensures Read(Write(j) + t) == Some((j, t))
  {
    var s := Write(j) + t;
    match j {
      case Num(token) => ReadWrittenNumber(token, t);
      case Str(text) => ReadWrittenString(text, t);
      case Null => assert s[4..] == t;
      case Bool(b) => assert s[|Write(j)|..] == t;
      case _ =>
    }
  }

  lemma FirstChar(j: Json)
    ensures Write(j) != "" && Write(j)[0] != ']' && Write(j)[0] != '}'
    ensures Write(j)[0] == '{' <==> j.Obj?
  {
    match j {
      case Num(token) => assert token[0] in token;
      case _ =>
    }
  }

  lemma {:induction false} ReadWritten(j: Json, t: string)
    requires Ends(t)
    ensures Read(Write(j) + t) == Some((j, t))
    decreases j, 0
  {
    match j {
      case Arr(items) =>
        if items == [] {
          ReadEmpty(t);
        } else {
          ReadWrittenItems(items, t);
          OpenItems(items, t);
          ReadOpened(Write(j) + t);
        }
      case Obj(ms) =>
        if ms == [] {
          ReadEmpty(t);
        } else {
          ReadWrittenMembers(ms, t);
          OpenMembers(ms, t);
          ReadOpened(Write(j) + t);
        }
      case _ => ReadWrittenLeaf(j, t);
    }
  }

  lemma ReadEmpty(t: string)
    ensures Read("[]" + t) == Some((Arr([]), t)) && Read("{}" + t) == Some((Obj([]), t))
  {
    assert ("[]" + t)[..2] == "[]" && ("[]" + t)[2..] == t;
    assert ("{}" + t)[..2] == "{}" && ("{}" + t)[2..] == t;
  }

  lemma ReadOpened(s: string)
    requires |s| > 1 && s[1] != ']' && s[1] != '}'
    ensures s[0] == '[' && ReadItems(s[1..]).Some? ==>
              Read(s) == Some((Arr(ReadItems(s[1..]).value.0), ReadItems(s[1..]).value.1))
    ensures s[0] == '{' && ReadMembers(s[1..]).Some? ==>
              Read(s) == Some((Obj(ReadMembers(s[1..]).value.0), ReadMembers(s[1..]).value.1))
  {
  }

  lemma OpenItems(items: seq<Json>, t: string)
    requires items != []
    ensures var s := Write(Arr(items)) + t;
            && |s| > 1 && s[0] == '[' && s[1] != ']' && s[1] != '}'
            && s[1..] == WriteItems(items) + ("]" + t)
  {
    FirstChar(items[0]);
    var s := Write(Arr(items)) + t;
    assert s == "[" + (WriteItems(items) + ("]" + t));
    assert s[1] == WriteItems(items)[0] == Write(items[0])[0];
  }

  lemma OpenMembers(ms: seq<Member>, t: string)
    requires ms != []
    ensures var s := Write(Obj(ms)) + t;
            && |s| > 1 && s[0] == '{' && s[1] != ']' && s[1] != '}'
            && s[1..] == WriteMembers(ms) + ("}" + t)
  {
    var s := Write(Obj(ms)) + t;
    assert s == "{" + (WriteMembers(ms) + ("}" + t));
    MembersOpen(ms);
    assert s[1] == WriteMembers(ms)[0];
  }

  lemma MembersOpen(ms: seq<Member>)
    requires ms != []
    ensures WriteMembers(ms) != "" && WriteMembers(ms)[0] == '"'
  {
    MemberOpens(ms[0]);
  }

  lemma MemberOpens(m: Member)
    ensures WriteMember(m) != "" && WriteMember(m)[0] == '"'
  {
    assert WriteString(m.name)[0] == '"';
  }

  lemma ItemsStep(s: string, j: Json, rest: string, items: seq<Json>, end: string)
    requires Read(s) == Some((j, "," + rest)) && ReadItems(rest) == Some((items, end))
    ensures ReadItems(s) == Some(([j] + items, end))
  {
    assert ("," + rest)[1..] == rest;
  }

  lemma ItemsLast(s: string, j: Json, t: string)
    requires Read(s) == Some((j, "]" + t))
    ensures ReadItems(s) == Some(([j], t))
  {
    assert ("]" + t)[1..] == t;
  }

  lemma {:induction false} ReadWrittenItems(items: seq<Json>, t: string)
    requires items != []
    ensures ReadItems(WriteItems(items) + ("]" + t)) == Some((items, t))
    decreases items, 1
  {
    var end := "]" + t;
    if |items| == 1 {
      ReadWritten(items[0], end);
      assert WriteItems(items) == Write(items[0]);
      ItemsLast(Write(items[0]) + end, items[0], t);
      assert items == [items[0]];
    } else {
      var rest := WriteItems(items[1..]) + end;
      ReadWritten(items[0], "," + rest);
      ReadWrittenItems(items[1..], t);
      ItemsStep(Write(items[0]) + ("," + rest), items[0], rest, items[1..], t);
      Regroup2(Write(items[0]), ",", WriteItems(items[1..]), end);
      assert items == [items[0]] + items[1..];
    }
  }

  lemma {:induction false} ReadWrittenMember(m: Member, t: string)
    requires Ends(t)
    ensures ReadMember(WriteMember(m) + t) == Some((m, t))
    decreases m, 1
  {
    ReadWritten(m.value, t);
    MemberStep(m, Write(m.value), t);
  }

  lemma MemberStep(m: Member, value: string, t: string)
    requires Read(value + t) == Some((m.value, t))
    ensures ReadMember(WriteString(m.name) + (":" + value) + t) == Some((m, t))
  {
    var rest := ":" + (value + t);
    ReadWrittenString(m.name, rest);
    Colon(value, t);
    Associate(WriteString(m.name), ":" + value, t);
    ReadNamed(WriteString(m.name) + rest, m.name, rest, m.value, t);
  }

  lemma Colon(value: string, t: string)
    ensures ":" + value + t == ":" + (value + t) && (":" + (value + t))[1..] == value + t
  {
  }

  lemma ReadNamed(s: string, name: string, rest: string, value: Json, t: string)
    requires At(s, '"') && ReadChars(s[1..]) == Some((name, rest))
    requires At(rest, ':') && Read(rest[1..]) == Some((value, t))
    ensures ReadMember(s) == Some((Member(name, value), t))
  {
  }

  lemma MembersStep(s: string, m: Member, rest: string, ms: seq<Member>, end: string)
    requires ReadMember(s) == Some((m, "," + rest)) && ReadMembers(rest) == Some((ms, end))
    ensures ReadMembers(s) == Some(([m] + ms, end))
  {
    assert ("," + rest)[1..] == rest;
  }

  lemma MembersLast(s: string, m: Member, t: string)
    requires ReadMember(s) == Some((m, "}" + t))
    ensures ReadMembers(s) == Some(([m], t))
  {
    assert ("}" + t)[1..] == t;
  }

  lemma {:induction false} ReadWrittenMembers(ms: seq<Member>, t: string)
    requires ms != []
    ensures ReadMembers(WriteMembers(ms) + ("}" + t)) == Some((ms, t))
    decreases ms, 2
  {
    var end := "}" + t;
    if |ms| == 1 {
      ReadWrittenMember(ms[0], end);
      assert WriteMembers(ms) == WriteMember(ms[0]);
      MembersLast(WriteMember(ms[0]) + end, ms[0], t);
      assert ms == [ms[0]];
    } else {
      var rest := WriteMembers(ms[1..]) + end;
      ReadWrittenMember(ms[0], "," + rest);
      ReadWrittenMembers(ms[1..], t);
      MembersStep(WriteMember(ms[0]) + ("," + rest), ms[0], rest, ms[1..], t);
      Regroup2(WriteMember(ms[0]), ",", WriteMembers(ms[1..]), end);
      assert ms == [ms[0]] + ms[1..];
    }
  }

  /** The text determines the document. */
  lemma WriteIsInjective(a: Json, b: Json)
    requires Write(a) == Write(b)
    ensures a == b
  {
    ReadWritten(a, "");
    ReadWritten(b, "");
    assert Write(a) + "" == Write(a) == Write(b) + "";
  }
}
