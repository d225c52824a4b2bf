/** Claims of the session token and the two calls around the signing library. The HS256
    encoding and the MAC are the library's; here they are a `Signer` of two functions,
    and what the middleware relies on from it is stated as `Hs256Like`. */
module Jwt {
  import opened Wrappers

  /** Token lifetime: 24 hours, in seconds. */
  const Lifetime: nat := 86400
  /** Seconds of clock skew the library tolerates past `exp` by default. */
  const Leeway: nat := 60

  /** `sub` is the user id as text; `exp` and `iat` are Unix seconds. */
  datatype Claims = Claims(sub: string, exp: nat, iat: nat)

  // ---- decimal rendering of the user id ----

  function Digit(d: nat): (c: char)
    requires d < 10
    ensures '0' <= c <= '9'
  {
    "0123456789"[d]
  }

  function DigitValue(c: char): (d: nat)
    requires '0' <= c <= '9'
    ensures d < 10
  {
    (c as int) - ('0' as int)
  }

  predicate AllDigits(s: string) {
    forall i :: 0 <= i < |s| ==> '0' <= s[i] <= '9'
  }

  /** Decimal digits of `n`, most significant first, without leading zeros. */
  function NatToString(n: nat): (s: string)
    ensures |s| >= 1 && AllDigits(s)
    ensures |s| > 1 ==> s[0] != '0'
    decreases n
  {
    if n < 10 then [Digit(n)] else NatToString(n / 10) + [Digit(n % 10)]
  }

  /** The integer's rendering as `to_string` gives it: a leading `-` for negatives. */
  function IntToString(n: int): (s: string)
    ensures |s| >= 1
    ensures n < 0 <==> s[0] == '-'
  {
    if n < 0 then "-" + NatToString(-n) else NatToString(n)
  }

  function DigitsValue(s: string): nat
    requires AllDigits(s)
    decreases |s|
  {
    if s == [] then 0 else 10 * DigitsValue(s[..|s| - 1]) + DigitValue(s[|s| - 1])
  }

  /** Decimal text back to an integer: an optional `-` and at least one digit. */
  function ParseInt(s: string): (r: Option<int>)
    ensures r.Some? ==> |s| >= 1
  {
    if |s| >= 2 && s[0] == '-' && AllDigits(s[1..]) then Some(0 - DigitsValue(s[1..]) as int)
    else if |s| >= 1 && AllDigits(s) then Some(DigitsValue(s))
    else None
  }

  lemma {:induction false} DigitsValueOfNatToString(n: nat)
    ensures DigitsValue(NatToString(n)) == n
    decreases n
  {
    var s := NatToString(n);
    if n < 10 {
      assert s[..|s| - 1] == [];
    } else {
      DigitsValueOfNatToString(n / 10);
      assert s[..|s| - 1] == NatToString(n / 10);
      assert s[|s| - 1] == Digit(n % 10);
    }
  }

  /** A `-` followed by digits parses as the negated digit value. */
  lemma ParseSigned(t: string)
    requires |t| >= 1 && AllDigits(t)
    ensures ParseInt("-" + t) == Some(0 - DigitsValue(t) as int)
  {
    var s := "-" + t;
    assert s[1..] == t;
  }

  /** Digits alone parse as their value. */
  lemma ParseUnsigned(t: string)
    requires |t| >= 1 && AllDigits(t)
    ensures ParseInt(t) == Some(DigitsValue(t))
  {
    assert t[0] != '-';
  }

  /** The `sub` claim names its user: parsing the rendering gives the id back. */
  lemma IntToStringRoundTrip(n: int)
    ensures ParseInt(IntToString(n)) == Some(n)
  {
    if n < 0 {
      var m: nat := -n;
      var t := NatToString(m);
      DigitsValueOfNatToString(m);
      ParseSigned(t);
      assert IntToString(n) == "-" + t;
    } else {
      var t := NatToString(n);
      DigitsValueOfNatToString(n);
      ParseUnsigned(t);
      assert IntToString(n) == t;
    }
  }

  /** Distinct users get distinct subjects. */
  lemma IntToStringInjective(m: int, n: int)
    ensures IntToString(m) == IntToString(n) <==> m == n
  {
    IntToStringRoundTrip(m);
    IntToStringRoundTrip(n);
  }

  // ---- claims ----

  /** `Claims::new(user_id)` at clock reading `now`: one reading for both times. */
  function NewClaims(userId: int, now: nat): (c: Claims)
    ensures c.sub == IntToString(userId) && ParseInt(c.sub) == Some(userId)
    ensures c.iat == now && c.exp == c.iat + Lifetime
  {
    IntToStringRoundTrip(userId);
    Claims(IntToString(userId), now + Lifetime, now)
  }

  // ---- signing and verification ----

  /** The library: `sign(claims, secret)` encodes with the default header and
      `decode(token, secret, now)` checks the HS256 signature and `exp`. */
  datatype Signer = Signer(sign: (Claims, string) -> Result<string, string>,
                           decode: (string, string, nat) -> Result<Claims, string>)

  /** What the library is taken to guarantee: a token it signed decodes, under the same
      secret, to the signed claims until `exp` plus the leeway, and is refused after. */
  ghost predicate Hs256Like(signer: Signer) {
    forall c: Claims, secret: string, now: nat {:trigger signer.decode(signer.sign(c, secret).value, secret, now)} ::
      signer.sign(c, secret).Success? ==>
        var d := signer.decode(signer.sign(c, secret).value, secret, now);
        (now <= c.exp + Leeway ==> d == Success(c)) && (now > c.exp + Leeway ==> d.Failure?)
  }

  /** `create_jwt`: signs exactly `Claims::new(user_id)`. */
  function CreateJwt(userId: int, secret: string, now: nat, signer: Signer): Result<string, string>
  {
    signer.sign(NewClaims(userId, now), secret)
  }

  /** `verify_jwt`: HS256 only, and the decoded claims are all that is returned. */
  function VerifyJwt(token: string, secret: string, now: nat, signer: Signer): Result<Claims, string>
  {
    signer.decode(token, secret, now)
  }

  /** A token issued at `issued` verifies under the same secret for its 24 hours (and the
      leeway) and names its user; afterwards it is refused. */
  lemma IssuedTokenLifetime(userId: int, secret: string, issued: nat, now: nat, signer: Signer)
    requires Hs256Like(signer)
    requires CreateJwt(userId, secret, issued, signer).Success?
    ensures var v := VerifyJwt(CreateJwt(userId, secret, issued, signer).value, secret, now, signer);
      && (now <= issued + Lifetime + Leeway <==> v.Success?)
      && (v.Success? ==> ParseInt(v.value.sub) == Some(userId) && v.value.exp == issued + Lifetime)
  {
    var c := NewClaims(userId, issued);
    var d := signer.decode(signer.sign(c, secret).value, secret, now);
    assert now <= c.exp + Leeway ==> d == Success(c);
  }
}
