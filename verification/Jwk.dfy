/** P-256 verification keys read from JWKs. */
module Jwk {
  import opened Json
  import opened Utf8
  import opened Base64Url
  import opened Jws

  const COORDINATES: seq<string> := ["x", "y"]
  const COORDINATE_LENGTH := 32
  const SEC1_UNCOMPRESSED: Byte := 4

  /** A string member, or "" when it is absent or not a string. */
  function TextOf(members: map<string, Json>, name: string): string {
    if name in members && members[name].Str? then members[name].text else ""
  }

  predicate PermitsVerify(operations: Json) {
    && operations.Arr?
    && (forall i :: 0 <= i < |operations.items| ==> operations.items[i].Str? || operations.items[i].Null?)
    && exists i :: 0 <= i < |operations.items| && operations.items[i] == Str("verify")
  }

  /** Nothing in the key forbids verifying ES256 signatures with it. */
  predicate KeyUseOK(members: map<string, Json>) {
    && "d" !in members
    && ("alg" in members ==> TextOf(members, "alg") == ES256)
    && ("use" in members ==> TextOf(members, "use") == "sig")
    && ("key_ops" in members ==> PermitsVerify(members["key_ops"]))
  }

  function Coordinate(members: map<string, Json>, name: string): Option<seq<Byte>> {
    var bytes := DecodeText(TextOf(members, name));
    if bytes.Some? && |bytes.value| == COORDINATE_LENGTH then bytes else None
  }

  /** The key a JWK denotes, if it is a public P-256 key for verification. */
  function KeyFrom(jwk: Json, onCurve: Key -> bool): Option<Key> {
    if jwk.Obj? then KeyFromMembers(ToMap(jwk.members), onCurve) else None
  }

  function KeyFromMembers(members: map<string, Json>, onCurve: Key -> bool): Option<Key> {
    var x, y := Coordinate(members, "x"), Coordinate(members, "y");
    if TextOf(members, "kty") == "EC" && TextOf(members, "crv") == "P-256" && KeyUseOK(members) &&
       x.Some? && y.Some? && onCurve(Key(x.value, y.value))
    then Some(Key(x.value, y.value))
    else None
  }

  /** Decodes an uncompressed point. */
  function ParsePoint(point: seq<Byte>, onCurve: Key -> bool): Option<Key> {
    if |point| != 1 + 2 * COORDINATE_LENGTH || point[0] != SEC1_UNCOMPRESSED then None
    else
      var key := Key(point[1..1 + COORDINATE_LENGTH], point[1 + COORDINATE_LENGTH..]);
      if onCurve(key) then Some(key) else None
  }

  method ParseES256Key(jwk: Json, onCurve: Key -> bool) returns (key: Option<Key>)
    ensures key == KeyFrom(jwk, onCurve)
  {
    if !jwk.Obj? {
      return None;
    }
    var members := ToMap(jwk.members);
    if TextOf(members, "kty") != "EC" || TextOf(members, "crv") != "P-256" || !KeyUseOK(members) {
      return None;
    }
    var point := ReadPoint(members);
    if point.Some? {
      PointParsed(members, point.value, onCurve);
    }
    return if point.None? then None else ParsePoint(point.value, onCurve);
  }

  /** Both coordinates have the right length; the point is made of them. */
  predicate PointOf(members: map<string, Json>, point: seq<Byte>) {
    && |point| == 1 + 2 * COORDINATE_LENGTH && point[0] == SEC1_UNCOMPRESSED
    && Coordinate(members, "x") == Some(point[1..1 + COORDINATE_LENGTH])
    && Coordinate(members, "y") == Some(point[1 + COORDINATE_LENGTH..1 + 2 * COORDINATE_LENGTH])
  }

  /** The loop of ParseES256Key. */
  method ReadPoint(members: map<string, Json>) returns (r: Option<seq<Byte>>)
    ensures r.Some? ==> PointOf(members, r.value)
    ensures r.None? ==> Coordinate(members, "x").None? || Coordinate(members, "y").None?
  {
    var point := [SEC1_UNCOMPRESSED];
    assert COORDINATES[0] == "x" && COORDINATES[1] == "y";
    for i := 0 to |COORDINATES|
      invariant |point| == 1 + i * COORDINATE_LENGTH && point[0] == SEC1_UNCOMPRESSED
      invariant forall k :: 0 <= k < i ==>
        Coordinate(members, COORDINATES[k]) == Some(point[1 + k * COORDINATE_LENGTH..1 + (k + 1) * COORDINATE_LENGTH])
    {
      var coordinate := DecodeText(TextOf(members, COORDINATES[i]));
      if coordinate.None? || |coordinate.value| != COORDINATE_LENGTH {
        return None;
      }
      AppendCoordinate(point, coordinate.value, i);
      point := point + coordinate.value;
    }
    return Some(point);
  }

  lemma AppendCoordinate(point: seq<Byte>, coordinate: seq<Byte>, i: nat)
    requires |point| == 1 + i * COORDINATE_LENGTH && |coordinate| == COORDINATE_LENGTH
    ensures forall k :: 0 <= k < i ==>
      (point + coordinate)[1 + k * COORDINATE_LENGTH..1 + (k + 1) * COORDINATE_LENGTH] ==
      point[1 + k * COORDINATE_LENGTH..1 + (k + 1) * COORDINATE_LENGTH]
    ensures (point + coordinate)[1 + i * COORDINATE_LENGTH..1 + (i + 1) * COORDINATE_LENGTH] == coordinate
  {
  }

  lemma PointParsed(members: map<string, Json>, point: seq<Byte>, onCurve: Key -> bool)
    requires PointOf(members, point)
    ensures var key := Key(Coordinate(members, "x").value, Coordinate(members, "y").value);
            ParsePoint(point, onCurve) == if onCurve(key) then Some(key) else None
  {
    assert point[1 + COORDINATE_LENGTH..] == point[1 + COORDINATE_LENGTH..1 + 2 * COORDINATE_LENGTH];
  }

  /** The JWK of a public key. */
  function ToJWK(key: Key): seq<Member> {
    [Member("kty", Str("EC")), Member("crv", Str("P-256")),
     Member("x", Str(EncodeBytes(key.x))), Member("y", Str(EncodeBytes(key.y)))]
  }

  lemma MapSnoc(ms: seq<Member>, m: Member)
    ensures ToMap(ms + [m]) == ToMap(ms)[m.name := m.value]
  {
    assert (ms + [m])[..|ms|] == ms;
  }

  lemma MapFour(a: Member, b: Member, c: Member, d: Member)
    ensures ToMap([a, b, c, d]) == map[][a.name := a.value][b.name := b.value][c.name := c.value][d.name := d.value]
  {
    MapSnoc([], a);
    MapSnoc([a], b);
    MapSnoc([a, b], c);
    MapSnoc([a, b, c], d);
    assert [] + [a] == [a] && [a] + [b] == [a, b] && [a, b] + [c] == [a, b, c] && [a, b, c] + [d] == [a, b, c, d];
  }

  lemma KeyMembers(key: Key)
    ensures var m := ToMap(ToJWK(key));
            && m.Keys == {"kty", "crv", "x", "y"}
            && m["kty"] == Str("EC") && m["crv"] == Str("P-256")
            && m["x"] == Str(EncodeBytes(key.x)) && m["y"] == Str(EncodeBytes(key.y))
  {
    var ms := ToJWK(key);
    MapFour(ms[0], ms[1], ms[2], ms[3]);
  }

  lemma CoordinateRead(m: map<string, Json>, name: string, bytes: seq<Byte>)
    requires name in m && m[name] == Str(EncodeBytes(bytes)) && |bytes| == COORDINATE_LENGTH
    ensures Coordinate(m, name) == Some(bytes)
  {
    DecodeEncode(bytes);
  }

  lemma KeyOfMembers(m: map<string, Json>, key: Key, onCurve: Key -> bool)
    requires Coordinate(m, "x") == Some(key.x) && Coordinate(m, "y") == Some(key.y)
    requires m.Keys == {"kty", "crv", "x", "y"} && m["kty"] == Str("EC") && m["crv"] == Str("P-256")
    ensures KeyFromMembers(m, onCurve) == if onCurve(key) then Some(key) else None
  {
    assert "d" !in m && "alg" !in m && "use" !in m && "key_ops" !in m;
  }

  /** Every point of the curve is read back from its JWK. */
  lemma KeyRoundTrip(key: Key, onCurve: Key -> bool)
    requires |key.x| == COORDINATE_LENGTH && |key.y| == COORDINATE_LENGTH
    ensures KeyFrom(Obj(ToJWK(key)), onCurve) == if onCurve(key) then Some(key) else None
  {
    var m := ToMap(ToJWK(key));
    KeyMembers(key);
    CoordinateRead(m, "x", key.x);
    CoordinateRead(m, "y", key.y);
    KeyOfMembers(m, key, onCurve);
  }

  /** No JWK with private key material is accepted, wherever the member stands. */
  lemma {:induction false} PrivateKeysRefused(ms: seq<Member>, i: nat, onCurve: Key -> bool)
    requires i < |ms| && ms[i].name == "d"
    ensures KeyFrom(Obj(ms), onCurve) == None
  {
    NamesInMap(ms, i);
  }

  lemma {:induction false} NamesInMap(ms: seq<Member>, i: nat)
    requires i < |ms|
    ensures ms[i].name in ToMap(ms)
  {
    if i < |ms| - 1 {
      NamesInMap(ms[..|ms| - 1], i);
    }
  }

  predicate CoordinateIs(m: map<string, Json>, name: string, bytes: seq<Byte>) {
    name in m && m[name].Str? && DecodeText(m[name].text) == Some(bytes) && |bytes| == 32
  }

  /** A key is read if and only if the JWK is an EC P-256 key without private part, whose
      alg, use and key_ops, where they are given, allow verifying ES256, and which is a
      point of the curve. */
  lemma KeyIff(m: map<string, Json>, onCurve: Key -> bool, key: Key)
    ensures KeyFromMembers(m, onCurve) == Some(key) <==>
            && "kty" in m && m["kty"] == Str("EC") && "crv" in m && m["crv"] == Str("P-256") && "d" !in m
            && ("alg" in m ==> m["alg"] == Str("ES256")) && ("use" in m ==> m["use"] == Str("sig"))
            && ("key_ops" in m ==> PermitsVerify(m["key_ops"]))
            && CoordinateIs(m, "x", key.x) && CoordinateIs(m, "y", key.y) && onCurve(key)
  {
    CoordinateIff(m, "x", key.x);
    CoordinateIff(m, "y", key.y);
  }

  lemma CoordinateIff(m: map<string, Json>, name: string, bytes: seq<Byte>)
    ensures Coordinate(m, name) == Some(bytes) <==> CoordinateIs(m, name, bytes)
  {
    assert DecodeText("") == Some([]);
  }
}
