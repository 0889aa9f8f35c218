/** How the token issuers, Login and the two gates fit together. The gates
    read a claim named "role", while the issuers name the role in a claim
    key ("admin" or "member") and set no "role" claim; and Login gives a
    stored "user" a member token although the member gate looks for
    "member". So no token Login issues is let through by either gate. */
module Sessions {
  import opened Common
  import opened Models
  import opened Token
  import opened Authorization
  import opened Tables

  /** jwt.Parse applied to a token the signer produced yields the signed
      claims or fails; it never yields other claims. */
  ghost predicate ParseInvertsSign(parse: Parser, sign: Signer) {
    forall c :: sign(c).Some? ==> parse(sign(c).value).None? || parse(sign(c).value) == Some(c)
  }

  /** A header carrying a token signed over claims without a "role" key is
      rejected by both gates. */
  lemma RolelessTokenRejected(parse: Parser, sign: Signer, c: Claims, header: string)
    requires ParseInvertsSign(parse, sign)
    requires sign(c).Some? && "role" !in c
    requires ExtractTokenFromHeader(header) == sign(c).value
    ensures AdminAuthorize(parse, header).Reject?
    ensures MemberAuthorize(parse, header).Reject?
  {
    var t := sign(c).value;
    assert parse(t).None? || parse(t) == Some(c);
  }

  /** Every non-empty token Login returns, sent in any Authorization
      header, is rejected by the admin gate and by the member gate. */
  lemma LoginTokensFailBothGates(users: map<Id, User>, mail: string, password: string, now: int,
                                 matches: PasswordCheck, sign: Signer, parse: Parser, header: string)
    requires ParseInvertsSign(parse, sign)
    requires var (token, err) := Login(users, mail, password, now, matches, sign);
             err.None? && token != "" && ExtractTokenFromHeader(header) == token
    ensures AdminAuthorize(parse, header).Reject?
    ensures MemberAuthorize(parse, header).Reject?
  {
    var id := FindUserIdByMail(users, mail).value;
    var u := users[id];
    if u.role == "admin" {
      RolelessTokenRejected(parse, sign, AdminClaims(mail, u.id, now), header);
    } else {
      RolelessTokenRejected(parse, sign, MemberClaims(mail, u.id, now), header);
    }
  }

  /** A stored "user" with the right password gets a member token, and a
      stored "admin" an admin token, neither of which the gates accept. */
  lemma RegisteredUsersLockedOut(users: map<Id, User>, id: Id, password: string, now: int,
                                 matches: PasswordCheck, sign: Signer, parse: Parser)
    requires MailsUnique(users) && KeyedById(Db(users, map[], map[]))
    requires id in users && users[id].mail != "" && password != ""
    requires users[id].role == "admin" || users[id].role == "user"
    requires matches(users[id].password, password)
    requires ParseInvertsSign(parse, sign)
    requires var token := Login(users, users[id].mail, password, now, matches, sign).0;
             token != "" && ' ' !in token
    ensures var token := Login(users, users[id].mail, password, now, matches, sign).0;
            && AdminAuthorize(parse, "Bearer " + token).Reject?
            && MemberAuthorize(parse, "Bearer " + token).Reject?
  {
    var mail := users[id].mail;
    LoginByRole(users, id, password, now, matches, sign);
    var token := Login(users, mail, password, now, matches, sign).0;
    BearerRoundTrip(token);
    LoginTokensFailBothGates(users, mail, password, now, matches, sign, parse, "Bearer " + token);
  }
}
