/**
 * The session-cookie codec of package `serve`. A cookie is the unpadded
 * base64url encoding of `name ":" hex(created) ":" signature`; it is valid for
 * a user when re-deriving the token from the decoded name and time, the
 * user's salt and the server secret gives back the cookie byte for byte.
 */
module Serve {
  import opened GoTypes
  import Base64Url
  import Bytes
  import Strconv

  const Colon: byte := 58

  /**
   * The errors the codec returns. `MissingSeparator` is returned only by the
   * checked decoder below; the decoder as written panics in that case.
   */
  datatype Error = CorruptBase64 | InvalidTimestamp | MissingSeparator

  /** The three results of `DecodeCookie`: name, created and err. */
  datatype DecodedCookie = DecodedCookie(name: seq<byte>, created: int64, err: Option<Error>)

  /** `authdb.CreateAuthToken(name, salt, secret, time)`, taken as any function of its four inputs. */
  type AuthTokenHash = (seq<byte>, seq<byte>, seq<byte>, int64) -> seq<byte>

  /** The part of a `*Service` the codec reads: the secret `getAuthSecret` returns. */
  datatype Service = Service(secret: seq<byte>)

  /** The part of an `authdb.UserContext` the codec reads. */
  datatype UserContext = UserContext(salt: seq<byte>)

  /** The result `DecodeCookie` gives for error `e`: no name, time zero. */
  function Failed(e: Error): DecodedCookie {
    DecodedCookie([], 0, Some(e))
  }

  /**
   * `DecodeCookie`: base64url-decode, split on ':' into at most three parts,
   * parse the second part as a base-16 `int64`. Decoded data without any ':'
   * leaves no second part, and indexing it panics.
   */
  function DecodeCookie(cookie: seq<byte>): (r: Completion<DecodedCookie>)
    ensures Base64Url.DecodeString(cookie).None? ==> r == Normal(Failed(CorruptBase64))
    ensures r.Panic? <==> Base64Url.DecodeString(cookie).Some? && Colon !in Base64Url.DecodeString(cookie).value
    ensures r.Normal? && r.value.err.Some? ==> r.value == Failed(r.value.err.value)
    ensures r.Normal? ==> r.value.err != Some(MissingSeparator)
    ensures r.Normal? && r.value.err.None? ==>
      Base64Url.DecodeString(cookie).Some? && Colon !in r.value.name &&
      r.value.name + [Colon] <= Base64Url.DecodeString(cookie).value
  {
    match Base64Url.DecodeString(cookie)
    case None => Normal(Failed(CorruptBase64))
    case Some(data) =>
      var parts := Bytes.SplitN(data, Colon, 3);
      if |parts| < 2 then Panic
      else
        assert data == parts[0] + [Colon] + Bytes.Join(parts[1..], Colon);
        match Strconv.ParseHexInt64(parts[1])
        case None => Normal(Failed(InvalidTimestamp))
        case Some(t) => Normal(DecodedCookie(parts[0], t, None))
  }

  /**
   * How the decoded data determines the result: the name is everything before
   * the first ':', the time is parsed from the field up to the second ':' or
   * the end, and whatever follows the second ':' (':' included) is ignored.
   */
  lemma DecodeCookieFields(cookie: seq<byte>, name: seq<byte>, field: seq<byte>, rest: seq<byte>)
    requires Base64Url.DecodeString(cookie) == Some(name + [Colon] + field + rest)
    requires Colon !in name && Colon !in field
    requires rest == [] || rest[0] == Colon
    ensures Strconv.ParseHexInt64(field).None? ==> DecodeCookie(cookie) == Normal(Failed(InvalidTimestamp))
    ensures Strconv.ParseHexInt64(field).Some? ==>
      DecodeCookie(cookie) == Normal(DecodedCookie(name, Strconv.ParseHexInt64(field).value, None))
  {
    Bytes.SplitThreeFields(name, field, rest, Colon);
  }

  /** The token layout that `DecodeCookie` reads back. */
  function CookieData(name: seq<byte>, created: int64, upper: bool, signature: seq<byte>): seq<byte> {
    name + [Colon] + Strconv.FormatHexInt64(created, upper) + [Colon] + signature
  }

  lemma TimeFieldHasNoColon(created: int64, upper: bool)
    ensures Colon !in Strconv.FormatHexInt64(created, upper)
  {
    var field := Strconv.FormatHexInt64(created, upper);
    assert forall i :: 0 <= i < |field| ==> field[i] != Colon;
  }

  /** The encoded token decodes back to its three fields, in the shape `DecodeCookieFields` reads. */
  lemma CookieDataDecodes(name: seq<byte>, created: int64, upper: bool, signature: seq<byte>)
    ensures Base64Url.DecodeString(Base64Url.EncodeToString(CookieData(name, created, upper, signature)))
         == Some(name + [Colon] + Strconv.FormatHexInt64(created, upper) + ([Colon] + signature))
  {
    var data := CookieData(name, created, upper, signature);
    Base64Url.DecodeEncode(data);
    ConcatAssociative(name + [Colon] + Strconv.FormatHexInt64(created, upper), [Colon], signature);
  }

  lemma ConcatAssociative(x: seq<byte>, y: seq<byte>, z: seq<byte>)
    ensures x + y + z == x + (y + z)
  {
  }

  /**
   * Round trip: encoding a name without ':', any `int64` time in either
   * letter case and any signature, then decoding, gives back name and time.
   */
  lemma DecodeEncodeCookie(name: seq<byte>, created: int64, upper: bool, signature: seq<byte>)
    requires Colon !in name
    ensures DecodeCookie(Base64Url.EncodeToString(CookieData(name, created, upper, signature)))
         == Normal(DecodedCookie(name, created, None))
  {
    var field := Strconv.FormatHexInt64(created, upper);
    CookieDataDecodes(name, created, upper, signature);
    TimeFieldHasNoColon(created, upper);
    Strconv.ParseFormat(created, upper);
    DecodeCookieFields(Base64Url.EncodeToString(CookieData(name, created, upper, signature)),
                       name, field, [Colon] + signature);
  }

  /** `(*Service).CreateAuthToken`: the authdb token under the server secret; never an error. */
  function CreateAuthToken(s: Service, hash: AuthTokenHash, name: seq<byte>, salt: seq<byte>, time: int64)
    : (r: (seq<byte>, Option<Error>))
    ensures r.1 == None
    ensures r.0 == hash(name, salt, s.secret, time)
  {
    (hash(name, salt, s.secret, time), None)
  }

  /**
   * `(*Service).ValidateCookie`: decode errors are returned with `false`;
   * otherwise the cookie is valid exactly when it equals the token re-derived
   * from its own name and time and the user's salt.
   */
  function ValidateCookie(s: Service, hash: AuthTokenHash, user: UserContext, cookie: seq<byte>)
    : (r: Completion<(bool, Option<Error>)>)
    ensures r.Panic? <==> DecodeCookie(cookie).Panic?
    ensures r.Normal? ==> !(r.value.0 && r.value.1.Some?)
    ensures r.Normal? ==> r.value.1 == DecodeCookie(cookie).value.err
    ensures r.Normal? ==>
      var d := DecodeCookie(cookie).value;
      (r.value.0 <==> d.err.None? && hash(d.name, user.salt, s.secret, d.created) == cookie)
  {
    match DecodeCookie(cookie)
    case Panic => Panic
    case Normal(d) =>
      if d.err.Some? then Normal((false, d.err))
      else
        var (token, err) := CreateAuthToken(s, hash, d.name, user.salt, d.created);
        if err.Some? then Normal((false, err))
        else Normal((token == cookie, None))
  }

  /**
   * A token issued in the layout `DecodeCookie` reads is accepted for the
   * user it was issued to.
   */
  lemma ValidateAcceptsIssuedToken(s: Service, hash: AuthTokenHash, user: UserContext,
                                   name: seq<byte>, created: int64, upper: bool, signature: seq<byte>)
    requires Colon !in name
    requires hash(name, user.salt, s.secret, created)
          == Base64Url.EncodeToString(CookieData(name, created, upper, signature))
    ensures ValidateCookie(s, hash, user, hash(name, user.salt, s.secret, created)) == Normal((true, None))
  {
    DecodeEncodeCookie(name, created, upper, signature);
  }

  /**
   * The same token is refused under any other salt or secret that would
   * have produced a different token for the same name and time.
   */
  lemma ValidateRejectsOtherCredentials(s: Service, s': Service, hash: AuthTokenHash,
                                        user: UserContext, user': UserContext,
                                        name: seq<byte>, created: int64, upper: bool, signature: seq<byte>)
    requires Colon !in name
    requires hash(name, user.salt, s.secret, created)
          == Base64Url.EncodeToString(CookieData(name, created, upper, signature))
    requires hash(name, user'.salt, s'.secret, created) != hash(name, user.salt, s.secret, created)
    ensures ValidateCookie(s', hash, user', hash(name, user.salt, s.secret, created)) == Normal((false, None))
  {
    DecodeEncodeCookie(name, created, upper, signature);
  }

  /**
   * "YWJj" is valid base64url for "abc", which has no ':': `DecodeCookie`
   * panics on it instead of returning an error, and so does `ValidateCookie`.
   */
  lemma DecodeCookiePanicsWithoutSeparator(s: Service, hash: AuthTokenHash, user: UserContext)
    ensures Base64Url.DecodeString([89, 87, 74, 106]) == Some([97, 98, 99])
    ensures DecodeCookie([89, 87, 74, 106]) == Panic
    ensures ValidateCookie(s, hash, user, [89, 87, 74, 106]) == Panic
  {
    var cookie: seq<byte> := [89, 87, 74, 106];
    var data: seq<byte> := [97, 98, 99];
    assert Base64Url.DecodeString(cookie) == Some(data) by {
      Base64Url.DecodeQuad(89, 87, 74, 106);
      assert Base64Url.High(24, 22) == 97 && Base64Url.Middle(22, 9) == 98 && Base64Url.Low(9, 35) == 99;
    }
    assert Colon !in data;
  }

  /**
   * `DecodeCookie` with the missing length check added: fewer than two parts
   * is the error `MissingSeparator` instead of a panic. Everywhere else it
   * agrees with `DecodeCookie`.
   */
  function DecodeCookieChecked(cookie: seq<byte>): (r: DecodedCookie)
    ensures r.err == Some(MissingSeparator) <==> DecodeCookie(cookie).Panic?
    ensures DecodeCookie(cookie).Normal? ==> r == DecodeCookie(cookie).value
    ensures r.err.Some? ==> r == Failed(r.err.value)
  {
    match Base64Url.DecodeString(cookie)
    case None => Failed(CorruptBase64)
    case Some(data) =>
      var parts := Bytes.SplitN(data, Colon, 3);
      if |parts| < 2 then Failed(MissingSeparator)
      else
        match Strconv.ParseHexInt64(parts[1])
        case None => Failed(InvalidTimestamp)
        case Some(t) => DecodedCookie(parts[0], t, None)
  }

  /** `ValidateCookie` over the checked decoder: it never panics. */
  function ValidateCookieChecked(s: Service, hash: AuthTokenHash, user: UserContext, cookie: seq<byte>)
    : (r: (bool, Option<Error>))
    ensures !(r.0 && r.1.Some?)
    ensures ValidateCookie(s, hash, user, cookie).Normal? ==> r == ValidateCookie(s, hash, user, cookie).value
    ensures ValidateCookie(s, hash, user, cookie).Panic? ==> r == (false, Some(MissingSeparator))
  {
    var d := DecodeCookieChecked(cookie);
    if d.err.Some? then (false, d.err)
    else
      var (token, err) := CreateAuthToken(s, hash, d.name, user.salt, d.created);
      if err.Some? then (false, err)
      else (token == cookie, None)
  }
}
