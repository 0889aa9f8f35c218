/** The JWT claims the two token issuers build, and their expiry arithmetic.
    The clock reading `now` (Unix seconds) and the HS256 signer are
    parameters: `sign` returns None where the Go signer returns an error. */
module Token {
  import opened Common

  /** A claim value as the JSON payload carries it. */
  datatype Claim = Str(s: string) | Num(n: int)

  type Claims = map<string, Claim>

  type Signer = Claims -> Option<string>

  const JwtExpHour: int := 0
  const JwtExpMin: int := 10
  const JwtExpSec: int := 30

  /** Seconds a member token lives: JwtExpHour hours, JwtExpMin minutes and
      JwtExpSec seconds. */
  const MemberLifetime: int := JwtExpHour * 3600 + JwtExpMin * 60 + JwtExpSec

  /** Seconds an admin token lives: 30 days of 24 hours. */
  const AdminLifetime: int := 24 * 30 * 3600

  /** The claims map of MemberToken: the role is carried by a key named
      "member", and there is no "role" key. */
  function MemberClaims(email: string, id: Id, now: int): (c: Claims)
    ensures c.Keys == {"member", "id", "email", "exp"}
    ensures "role" !in c
    ensures c["exp"] == Num(now + 630)
    ensures c["id"] == Str(id) && c["email"] == Str(email)
  {
    map["member" := Str("member"), "id" := Str(id), "email" := Str(email),
        "exp" := Num(now + MemberLifetime)]
  }

  /** The claims map of AdminToken: the role is carried by a key named
      "admin", there is no "role" key, and it expires 2,592,000 seconds
      after `now`, later than a member token issued at the same instant. */
  function AdminClaims(email: string, id: Id, now: int): (c: Claims)
    ensures c.Keys == {"id", "email", "admin", "exp"}
    ensures "role" !in c
    ensures c["exp"] == Num(now + 2592000)
    ensures c["exp"].n > MemberClaims(email, id, now)["exp"].n
    ensures c["id"] == Str(id) && c["email"] == Str(email)
  {
    map["id" := Str(id), "email" := Str(email), "admin" := Str("admin"),
        "exp" := Num(now + AdminLifetime)]
  }

  /** MemberToken: the signed member claims, or "" with the signing error. */
  function MemberToken(email: string, id: Id, now: int, sign: Signer): (r: (string, Option<Error>))
    ensures sign(MemberClaims(email, id, now)).None? ==> r == ("", Some(SigningFailed))
    ensures sign(MemberClaims(email, id, now)).Some? ==>
              r == (sign(MemberClaims(email, id, now)).value, None)
  {
    match sign(MemberClaims(email, id, now))
    case None => ("", Some(SigningFailed))
    case Some(t) => (t, None)
  }

  /** AdminToken: the signed admin claims, or "" with the signing error. */
  function AdminToken(email: string, id: Id, now: int, sign: Signer): (r: (string, Option<Error>))
    ensures sign(AdminClaims(email, id, now)).None? ==> r == ("", Some(SigningFailed))
    ensures sign(AdminClaims(email, id, now)).Some? ==>
              r == (sign(AdminClaims(email, id, now)).value, None)
  {
    match sign(AdminClaims(email, id, now))
    case None => ("", Some(SigningFailed))
    case Some(t) => (t, None)
  }
}
