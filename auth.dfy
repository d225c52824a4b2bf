/** The bearer-token middleware: read the `Authorization` header, strip an exact
    `Bearer ` prefix, verify the rest as a token, and either pass the request on
    untouched or refuse it as unauthorized. */
module Auth {
  import opened Wrappers
  import opened Errors
  import opened Jwt

  newtype byte = x: int | 0 <= x < 256

  /** Header bytes that a header value may show as text: visible ASCII and tab. */
  predicate Visible(b: byte) {
    (32 <= b < 127) || b == 9
  }

  /** `HeaderValue::to_str`: the header as text when every byte is visible, else nothing. */
  function ToStr(raw: seq<byte>): (r: Option<string>)
    ensures r.Some? <==> forall i :: 0 <= i < |raw| ==> Visible(raw[i])
    ensures r.Some? ==> |r.value| == |raw| && forall i :: 0 <= i < |raw| ==> r.value[i] as int == raw[i] as int
  {
    if forall i :: 0 <= i < |raw| ==> Visible(raw[i])
    then Some(seq(|raw|, i requires 0 <= i < |raw| => (raw[i] as int) as char))
    else None
  }

  /** The bytes of a text whose characters all fit a byte. */
  function FromStr(s: string): (raw: seq<byte>)
    requires forall i :: 0 <= i < |s| ==> (s[i] as int) < 256
    ensures |raw| == |s| && forall i :: 0 <= i < |s| ==> raw[i] as int == s[i] as int
  {
    seq(|s|, i requires 0 <= i < |s| => (s[i] as int) as byte)
  }

  /** Text made of visible ASCII characters (as a signed token is). */
  predicate VisibleText(s: string) {
    forall i :: 0 <= i < |s| ==> 32 <= (s[i] as int) < 127
  }

  lemma ToStrFromStr(s: string)
    requires VisibleText(s)
    ensures ToStr(FromStr(s)) == Some(s)
  {
    var raw := FromStr(s);
    assert forall i :: 0 <= i < |raw| ==> Visible(raw[i]);
    assert ToStr(raw).value == s;
  }

  const BearerPrefix: string := "Bearer "

  /** The token of an `Authorization` header, if the header is present, readable as
      text and starts with `Bearer `. */
  function ExtractBearer(header: Option<seq<byte>>): Option<string> {
    if header.None? then None
    else
      var text := ToStr(header.value);
      if text.Some? && |text.value| >= |BearerPrefix| && text.value[..|BearerPrefix|] == BearerPrefix
      then Some(text.value[|BearerPrefix|..])
      else None
  }

  /** A token is extracted exactly when the header reads as `Bearer ` followed by it;
      the prefix match is exact, so `bearer ` or `Bearer` without the space fail. */
  lemma ExtractBearerIff(header: Option<seq<byte>>, token: string)
    ensures ExtractBearer(header) == Some(token) <==>
            header.Some? && ToStr(header.value) == Some(BearerPrefix + token)
  {
    if header.Some? && ToStr(header.value) == Some(BearerPrefix + token) {
      var text := ToStr(header.value).value;
      assert text[..|BearerPrefix|] == BearerPrefix;
      assert text[|BearerPrefix|..] == token;
    }
    if ExtractBearer(header) == Some(token) {
      var text := ToStr(header.value).value;
      assert text == text[..|BearerPrefix|] + text[|BearerPrefix|..];
    }
  }

  /** The prefix is case-sensitive. */
  lemma LowercaseSchemeRejected(token: string)
    requires VisibleText(token)
    ensures ExtractBearer(Some(FromStr("bearer " + token))) == None
  {
    var s := "bearer " + token;
    ToStrFromStr(s);
    assert s[0] != BearerPrefix[0];
  }

  /** `auth_middleware`: the request goes on unchanged, or is refused as unauthorized
      with the header message or the token message. No claims are attached. */
  function AuthMiddleware<R>(req: R, header: Option<seq<byte>>, secret: string, now: nat,
                             signer: Signer): Result<R, AppError>
  {
    var token := ExtractBearer(header);
    if token.None? then Failure(Unauthorized("Missing or invalid authorization header"))
    else if VerifyJwt(token.value, secret, now, signer).Failure? then Failure(Unauthorized("Invalid token"))
    else Success(req)
  }

  /** The decision: passes exactly when the header carries a bearer token that verifies,
      and every refusal is an `Unauthorized` error, answered with 401. */
  lemma MiddlewareDecision<R>(req: R, header: Option<seq<byte>>, secret: string, now: nat, signer: Signer)
    ensures var r := AuthMiddleware(req, header, secret, now, signer);
      && (r.Success? <==> exists t :: header.Some? && ToStr(header.value) == Some(BearerPrefix + t)
                                   && VerifyJwt(t, secret, now, signer).Success?)
      && (r.Success? ==> r.value == req)
      && (r.Failure? ==> r.error.Unauthorized? && IntoResponse(r.error).status == StatusUnauthorized)
      && (ExtractBearer(header).None? ==>
            r == Failure(Unauthorized("Missing or invalid authorization header")))
      && (ExtractBearer(header).Some? && VerifyJwt(ExtractBearer(header).value, secret, now, signer).Failure? ==>
            r == Failure(Unauthorized("Invalid token")))
  {
    var r := AuthMiddleware(req, header, secret, now, signer);
    var token := ExtractBearer(header);
    if token.Some? {
      ExtractBearerIff(header, token.value);
    }
    if r.Success? {
      var t := token.value;
      assert header.Some? && ToStr(header.value) == Some(BearerPrefix + t)
             && VerifyJwt(t, secret, now, signer).Success?;
    }
    if t :| header.Some? && ToStr(header.value) == Some(BearerPrefix + t)
            && VerifyJwt(t, secret, now, signer).Success? {
      ExtractBearerIff(header, t);
    }
  }

  /** A header `Bearer <token>` with a token issued for a user is let through for the
      token's 24 hours (and the leeway) and refused with "Invalid token" after. */
  lemma IssuedTokenAdmitted<R>(req: R, userId: int, secret: string, issued: nat, now: nat, signer: Signer)
    requires Hs256Like(signer)
    requires CreateJwt(userId, secret, issued, signer).Success?
    requires VisibleText(CreateJwt(userId, secret, issued, signer).value)
    ensures var header := Some(FromStr(BearerPrefix + CreateJwt(userId, secret, issued, signer).value));
      var r := AuthMiddleware(req, header, secret, now, signer);
      && (now <= issued + Lifetime + Leeway ==> r == Success(req))
      && (now > issued + Lifetime + Leeway ==> r == Failure(Unauthorized("Invalid token")))
  {
    var token := CreateJwt(userId, secret, issued, signer).value;
    var s := BearerPrefix + token;
    assert VisibleText(s);
    ToStrFromStr(s);
    ExtractBearerIff(Some(FromStr(s)), token);
    IssuedTokenLifetime(userId, secret, issued, now, signer);
  }
}
