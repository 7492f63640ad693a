/** Detached compact JWS: the protected header and the ES256 form checks. */
module Jws {
  import opened Json
  import opened Text
  import opened Utf8
  import opened Base64Url

  /** The decoder that turns the bytes of a JSON text into the document they denote. */
  type JsonDecoder = seq<Byte> -> Option<Json>

  datatype Header = Header(algorithm: string, keyID: string, typ: string, members: set<string>) {
    predicate Has(name: string) {
      name in members
    }
  }

  /** The raw members of an object that repeats no name. */
  function Fields(doc: Json): Option<map<string, Json>> {
    if doc.Obj? && DistinctNames(doc.members) then Some(ToMap(doc.members)) else None
  }

  /** A member read as a string; absent and null read as "". */
  function StringMember(fields: map<string, Json>, name: string): Option<string> {
    if name !in fields || fields[name].Null? then Some("")
    else if fields[name].Str? then Some(fields[name].text)
    else None
  }

  function HeaderOf(doc: Json): Option<Header> {
    match Fields(doc)
    case None => None
    case Some(fields) =>
      var alg, kid, typ := StringMember(fields, "alg"), StringMember(fields, "kid"), StringMember(fields, "typ");
      if alg.None? || alg.value == "" || kid.None? || typ.None? then None
      else Some(Header(alg.value, kid.value, typ.value, fields.Keys))
  }

  function ParseHeader(signature: string, decode: JsonDecoder): Option<Header> {
    match DecodeText(signature[..Span(signature, ".")])
    case None => None
    case Some(raw) =>
      match decode(raw)
      case None => None
      case Some(doc) => HeaderOf(doc)
  }

  lemma {:induction false} KeysAreNames(ms: seq<Member>)
    ensures ToMap(ms).Keys == Names(ms)
  {
    if ms != [] {
      KeysAreNames(ms[..|ms| - 1]);
      assert ms == ms[..|ms| - 1] + [ms[|ms| - 1]];
    }
  }

  lemma DistinctSnoc(ms: seq<Member>, m: Member)
    requires DistinctNames(ms)
    ensures DistinctNames(ms + [m]) <==> m.name !in Names(ms)
  {
    var more := ms + [m];
    if m.name in Names(ms) {
      var k :| 0 <= k < |ms| && ms[k].name == m.name;
      assert more[k].name == more[|ms|].name;
    }
  }

  lemma FieldSnoc(ms: seq<Member>, i: nat)
    requires i < |ms| && DistinctNames(ms[..i])
    ensures ToMap(ms[..i + 1]) == ToMap(ms[..i])[ms[i].name := ms[i].value]
    ensures ms[i].name in ToMap(ms[..i]) <==> !DistinctNames(ms[..i + 1])
    ensures DistinctNames(ms) ==> DistinctNames(ms[..i + 1])
  {
    assert ms[..i + 1] == ms[..i] + [ms[i]];
    assert ms[..i + 1][..i] == ms[..i];
    KeysAreNames(ms[..i]);
    DistinctSnoc(ms[..i], ms[i]);
  }

  method DecodeMembers(doc: Json) returns (fields: Option<map<string, Json>>)
    ensures fields == Fields(doc)
  {
    if !doc.Obj? {
      return None;
    }
    var ms := doc.members;
    var found: map<string, Json> := map[];
    for i := 0 to |ms|
      invariant DistinctNames(ms[..i]) && found == ToMap(ms[..i])
    {
      FieldSnoc(ms, i);
      if ms[i].name in found {
        return None;
      }
      found := found[ms[i].name := ms[i].value];
    }
    assert ms[..|ms|] == ms;
    return Some(found);
  }

  method Parse(signature: string, decode: JsonDecoder) returns (header: Option<Header>)
    ensures header == ParseHeader(signature, decode)
  {
    var raw := DecodeText(signature[..Span(signature, ".")]);
    if raw.None? {
      return None;
    }
    var doc := decode(raw.value);
    if doc.None? {
      return None;
    }
    var fields := DecodeMembers(doc.value);
    if fields.None? {
      return None;
    }
    var algorithm := StringMember(fields.value, "alg");
    if algorithm.None? || algorithm.value == "" {
      return None;
    }
    var keyID := StringMember(fields.value, "kid");
    if keyID.None? {
      return None;
    }
    var typ := StringMember(fields.value, "typ");
    if typ.None? {
      return None;
    }
    return Some(Header(algorithm.value, keyID.value, typ.value, fields.value.Keys));
  }

  predicate Detached(signature: string) {
    var parts := Split(signature, '.');
    |parts| == 3 && parts[0] != "" && parts[1] == "" && parts[2] != ""
  }

  predicate Forbidden(algorithm: string) {
    ToLower(algorithm) == "none"
  }

  // ---- ES256 ----

  const ES256 := "ES256"

  /** A P-256 public key, by its coordinates. */
  datatype Key = Key(x: seq<Byte>, y: seq<Byte>)

  /** The hash and curve operations: does this raw signature verify over this input? */
  type CurveCheck = (Key, string, seq<Byte>) -> bool

  datatype Verdict = Verified | InvalidJWS | Mismatch

  function SigningInput(header: string, payload: seq<Byte>): string {
    header + "." + EncodeBytes(payload)
  }

  function VerifyES256(signature: string, payload: seq<Byte>, key: Key, decode: JsonDecoder,
      check: CurveCheck): Verdict {
    var parts := Split(signature, '.');
    if |parts| != 3 || parts[1] != "" then InvalidJWS
    else
      match ParseHeader(signature, decode)
      case None => InvalidJWS
      case Some(header) =>
        if header.algorithm != ES256 || header.Has("b64") || header.Has("crit") then InvalidJWS
        else
          match DecodeText(parts[2])
          case None => InvalidJWS
          case Some(raw) =>
            if |raw| != 64 then InvalidJWS
            else if check(key, SigningInput(parts[0], payload), raw) then Verified else Mismatch
  }
}

module JwsLaws {
  import opened Json
  import opened Text
  import opened Utf8
  import opened Base64Url
  import opened Jws
  import opened Payload
  import opened PayloadLaws

  lemma ThreeParts(signature: string, header: string, sig: string)
    requires Split(signature, '.') == [header, "", sig]
    ensures signature == header + (".." + sig) && '.' !in header && '.' !in sig
  {
    JoinOfSplit(signature, '.');
    assert header in Split(signature, '.') && sig in Split(signature, '.');
    JoinThree(header, "", sig, ".");
    assert header + "." + ("" + "." + sig) == header + (".." + sig);
  }

  lemma SameHeader(header: string, rest: string, decode: JsonDecoder)
    requires '.' !in header && rest != "" && rest[0] == '.'
    ensures ParseHeader(header + rest, decode) == ParseHeader(header, decode)
  {
    NoneIn(header, '.');
    SpanAppend(header, rest, ".");
    assert Span(rest, ".") == 0;
    assert (header + rest)[..|header|] == header == header[..|header|];
  }

  /** An accepted signature is header..signature: the header that was checked is the
      text in the signing input, it is plain ES256, and the raw signature verifies
      over that header and the payload. */
  lemma AcceptedSignature(signature: string, payload: seq<Byte>, key: Key, decode: JsonDecoder, check: CurveCheck)
    returns (header: string, sig: string)
    requires VerifyES256(signature, payload, key, decode, check) == Verified
    ensures signature == header + (".." + sig) && '.' !in header && '.' !in sig
    ensures ParseHeader(signature, decode) == ParseHeader(header, decode)
    ensures var h := ParseHeader(header, decode);
            h.Some? && h.value.algorithm == ES256 && !h.value.Has("b64") && !h.value.Has("crit")
    ensures var raw := DecodeText(sig);
            raw.Some? && |raw.value| == 64 && check(key, SigningInput(header, payload), raw.value)
  {
    var parts := Split(signature, '.');
    header, sig := parts[0], parts[2];
    assert parts == [header, "", sig];
    ThreeParts(signature, header, sig);
    SameHeader(header, ".." + sig, decode);
  }

  /** The signing input determines the header text and the payload bytes. */
  lemma SigningInputIsInjective(h: string, p: seq<Byte>, h': string, p': seq<Byte>)
    requires '.' !in h && '.' !in h'
    requires SigningInput(h, p) == SigningInput(h', p')
    ensures h == h' && p == p'
  {
    SplitCons(h, EncodeBytes(p), '.');
    SplitCons(h', EncodeBytes(p'), '.');
    DecodeEncode(p);
    DecodeEncode(p');
    NoneIn(EncodeBytes(p), '.');
    NoneIn(EncodeBytes(p'), '.');
    var parts := Split(SigningInput(h, p), '.');
    assert parts == [h] + [EncodeBytes(p)] && parts == [h'] + [EncodeBytes(p')];
    assert parts[0] == h == h' && parts[1] == EncodeBytes(p) == EncodeBytes(p');
  }

  /** What is signed, byte for byte, determines the protected header and the document
      up to member order and up to the members no signature covers. */
  lemma SignatureBindsDocument(h: string, a: Json, h': string, b: Json)
    requires UniqueNamed(a) && UniqueNamed(b) && '.' !in h && '.' !in h'
    ensures SigningInput(h, Encode(SigningPayload(a))) == SigningInput(h', Encode(SigningPayload(b))) <==>
            h == h' && Same(Strip(a), Strip(b))
  {
    PayloadDecidesSame(a, b);
    if SigningInput(h, Encode(SigningPayload(a))) == SigningInput(h', Encode(SigningPayload(b))) {
      SigningInputIsInjective(h, Encode(SigningPayload(a)), h', Encode(SigningPayload(b)));
      EncodeIsInjective(SigningPayload(a), SigningPayload(b));
    }
  }

  // ---- forms and headers in terms of their text and members ----

  predicate TwoParts(signature: string, header: string, sig: string) {
    signature == header + (".." + sig) && '.' !in header && '.' !in sig
  }

  lemma PartsIff(signature: string, header: string, sig: string)
    ensures Split(signature, '.') == [header, "", sig] <==> TwoParts(signature, header, sig)
  {
    if Split(signature, '.') == [header, "", sig] {
      ThreeParts(signature, header, sig);
    }
    if TwoParts(signature, header, sig) {
      var rest := "" + "." + sig;
      assert signature == header + "." + rest;
      SplitCons(header, rest, '.');
      SplitCons("", sig, '.');
      NoneIn(sig, '.');
      assert [header] + ([""] + [sig]) == [header, "", sig];
    }
  }

  /** A detached JWS is a header and a signature with an empty payload between two dots. */
  lemma DetachedIff(signature: string)
    ensures Detached(signature) <==>
            exists header, sig :: TwoParts(signature, header, sig) && header != "" && sig != ""
  {
    if Detached(signature) {
      var parts := Split(signature, '.');
      assert parts == [parts[0], "", parts[2]];
      PartsIff(signature, parts[0], parts[2]);
    }
    if header, sig :| TwoParts(signature, header, sig) && header != "" && sig != "" {
      PartsIff(signature, header, sig);
    }
  }

  /** The text that a member gives, "" for one that is absent or null. */
  predicate Gives(ms: seq<Member>, name: string, text: string) {
    || Member(name, Str(text)) in ms
    || (text == "" && (Member(name, Null) in ms || forall m :: m in ms ==> m.name != name))
  }

  lemma StringMemberIff(ms: seq<Member>, name: string, text: string)
    requires DistinctNames(ms)
    ensures StringMember(ToMap(ms), name) == Some(text) <==> Gives(ms, name, text)
  {
    ListsToMap(ms);
    var fields := ToMap(ms);
    if name in fields {
      assert Member(name, fields[name]) in ms;
    } else {
      forall m | m in ms ensures m.name != name {
        assert m.name in fields;
      }
    }
  }

  /** A header is an object that repeats no name, with a non-empty text alg, and texts kid
      and typ, if they are there. */
  lemma HeaderIff(doc: Json, h: Header)
    ensures HeaderOf(doc) == Some(h) <==>
            && doc.Obj? && DistinctNames(doc.members) && h.members == Names(doc.members)
            && h.algorithm != "" && Gives(doc.members, "alg", h.algorithm)
            && Gives(doc.members, "kid", h.keyID) && Gives(doc.members, "typ", h.typ)
  {
    if doc.Obj? && DistinctNames(doc.members) {
      KeysAreNames(doc.members);
      StringMemberIff(doc.members, "alg", h.algorithm);
      StringMemberIff(doc.members, "kid", h.keyID);
      StringMemberIff(doc.members, "typ", h.typ);
      HeaderFrom(ToMap(doc.members), h);
    }
  }

  lemma HeaderFrom(fields: map<string, Json>, h: Header)
    ensures (var alg, kid, typ := StringMember(fields, "alg"), StringMember(fields, "kid"), StringMember(fields, "typ");
             if alg.None? || alg.value == "" || kid.None? || typ.None? then None
             else Some(Header(alg.value, kid.value, typ.value, fields.Keys))) == Some(h) <==>
            && h.members == fields.Keys && h.algorithm != "" && StringMember(fields, "alg") == Some(h.algorithm)
            && StringMember(fields, "kid") == Some(h.keyID) && StringMember(fields, "typ") == Some(h.typ)
  {
  }

  /** A header that repeats a name is none. */
  lemma RepeatedNameRefused(ms: seq<Member>, i: nat, j: nat)
    requires i < j < |ms| && ms[i].name == ms[j].name
    ensures HeaderOf(Obj(ms)) == None
  {
  }

  /** Only "none", in any letter case, is forbidden. */
  lemma ForbiddenIff(algorithm: string)
    ensures Forbidden(algorithm) <==>
            && |algorithm| == 4 && algorithm[0] in "nN" && algorithm[1] in "oO" && algorithm[2] in "nN"
            && algorithm[3] in "eE"
  {
    if |algorithm| == 4 {
      var lower := ToLower(algorithm);
      assert lower == "none" <==> lower[0] == 'n' && lower[1] == 'o' && lower[2] == 'n' && lower[3] == 'e';
    }
  }

  /** The header part decodes to plain ES256, and the 64 bytes verify over both parts. */
  predicate Verifies(header: string, sig: string, payload: seq<Byte>, key: Key, decode: JsonDecoder,
      check: CurveCheck) {
    var text, raw := DecodeText(header), DecodeText(sig);
    && text.Some? && decode(text.value).Some?
    && (var h := HeaderOf(decode(text.value).value);
        h.Some? && h.value.algorithm == "ES256" && "b64" !in h.value.members && "crit" !in h.value.members)
    && raw.Some? && |raw.value| == 64 && check(key, header + "." + EncodeBytes(payload), raw.value)
  }

  /** A JWS is accepted if and only if it is header..signature and these verify. */
  lemma VerifiedIff(signature: string, payload: seq<Byte>, key: Key, decode: JsonDecoder, check: CurveCheck)
    ensures VerifyES256(signature, payload, key, decode, check) == Verified <==>
            exists header, sig :: TwoParts(signature, header, sig) && Verifies(header, sig, payload, key, decode, check)
  {
    if VerifyES256(signature, payload, key, decode, check) == Verified {
      var header, sig := AcceptedSignature(signature, payload, key, decode, check);
      WholeHeader(header, decode);
      assert TwoParts(signature, header, sig) && Verifies(header, sig, payload, key, decode, check);
    }
    if header, sig :| TwoParts(signature, header, sig) && Verifies(header, sig, payload, key, decode, check) {
      PartsVerify(signature, header, sig, payload, key, decode, check);
    }
  }

  lemma PartsVerify(signature: string, header: string, sig: string, payload: seq<Byte>, key: Key, decode: JsonDecoder,
      check: CurveCheck)
    requires TwoParts(signature, header, sig) && Verifies(header, sig, payload, key, decode, check)
    ensures VerifyES256(signature, payload, key, decode, check) == Verified
  {
    PartsIff(signature, header, sig);
    SameHeader(header, ".." + sig, decode);
    WholeHeader(header, decode);
  }

  lemma WholeHeader(header: string, decode: JsonDecoder)
    requires '.' !in header
    ensures ParseHeader(header, decode) ==
            match DecodeText(header)
            case None => None
            case Some(raw) => match decode(raw) case None => None case Some(doc) => HeaderOf(doc)
  {
    NoneIn(header, '.');
    assert header[..|header|] == header;
  }
}
