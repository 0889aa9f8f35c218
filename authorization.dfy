/** The bearer-token extraction and the two role gates placed in front of the
    admin and member routes. JWT parsing (signature and expiry checks
    included) is the parameter `parse`, None standing for a parse error or a
    token that is not valid. */
module Authorization {
  import opened Common
  import opened Token

  /** strings.Split(s, [sep]): the pieces between the occurrences of `sep`,
      one more piece than there are occurrences. */
  function Split(s: string, sep: char): (parts: seq<string>)
    ensures |parts| >= 1
    ensures forall i :: 0 <= i < |parts| ==> sep !in parts[i]
    ensures Join(parts, sep) == s
  {
    if s == [] then [""]
    else
      var rest := Split(s[1..], sep);
      if s[0] == sep then [""] + rest
      else [[s[0]] + rest[0]] + rest[1..]
  }

  /** strings.Join: the inverse of Split. */
  function Join(parts: seq<string>, sep: char): string
    requires |parts| >= 1
  {
    if |parts| == 1 then parts[0] else parts[0] + [sep] + Join(parts[1..], sep)
  }

  /** Splitting at the first separator: a piece free of `sep`, then the rest. */
  lemma {:induction false} SplitAtFirst(a: string, sep: char, b: string)
    requires sep !in a
    ensures Split(a + [sep] + b, sep) == [a] + Split(b, sep)
  {
    if a == [] {
      assert a + [sep] + b == [sep] + b;
      assert ([sep] + b)[1..] == b;
    } else {
      assert (a + [sep] + b)[1..] == a[1..] + [sep] + b;
      SplitAtFirst(a[1..], sep, b);
      assert [a[0]] + a[1..] == a;
    }
  }

  /** A string without the separator is one piece. */
  lemma {:induction false} SplitNoSeparator(a: string, sep: char)
    requires sep !in a
    ensures Split(a, sep) == [a]
  {
    if a != [] {
      SplitNoSeparator(a[1..], sep);
      assert [a[0]] + a[1..] == a;
    }
  }

  /** ExtractTokenFromHeader: the second of exactly two space-separated
      parts of the Authorization header whose first part is exactly
      "Bearer"; "" otherwise, and "" for an absent (empty) header. */
  function ExtractTokenFromHeader(header: string): (t: string)
    ensures header == "" ==> t == ""
    ensures t == "" || (header == "Bearer " + t && ' ' !in t)
  {
    if header == "" then ""
    else
      var parts := Split(header, ' ');
      if |parts| != 2 || parts[0] != "Bearer" then ""
      else
        assert Join(parts[1..], ' ') == parts[1];
        parts[1]
  }

  /** A header made of "Bearer", one space and a space-free token yields
      exactly that token; together with the ensures of
      ExtractTokenFromHeader this is an if-and-only-if. */
  lemma BearerRoundTrip(t: string)
    requires ' ' !in t
    ensures ExtractTokenFromHeader("Bearer " + t) == t
  {
    assert "Bearer " + t == "Bearer" + [' '] + t;
    SplitAtFirst("Bearer", ' ', t);
    SplitNoSeparator(t, ' ');
  }

  /** The prefix "Bearer" is matched case-sensitively. */
  lemma LowerCaseBearerRejected()
    ensures ExtractTokenFromHeader("bearer x") == ""
  {
    assert "bearer x" == "bearer" + [' '] + "x";
    SplitAtFirst("bearer", ' ', "x");
    SplitNoSeparator("x", ' ');
  }

  /** A header without a token is one part, and a header with a trailing
      space only has an empty token. */
  lemma MissingTokenRejected()
    ensures ExtractTokenFromHeader("Bearer") == ""
    ensures ExtractTokenFromHeader("Bearer ") == ""
  {
    SplitNoSeparator("Bearer", ' ');
  }

  /** Three parts are one too many. */
  lemma ExtraPartRejected()
    ensures ExtractTokenFromHeader("Bearer a b") == ""
  {
    var h := "Bearer a b";
    assert h == "Bearer" + [' '] + ("a" + [' '] + "b");
    SplitAtFirst("Bearer", ' ', "a" + [' '] + "b");
    SplitAtFirst("a", ' ', "b");
    SplitNoSeparator("b", ' ');
    assert |Split(h, ' ')| == 3;
  }

  /** strings.ToLower over ASCII text. */
  function ToLower(s: string): (r: string)
    ensures |r| == |s|
    ensures forall i :: 0 <= i < |s| ==> r[i] == LowerChar(s[i])
  {
    if s == [] then [] else [LowerChar(s[0])] + ToLower(s[1..])
  }

  predicate IsLowerWord(w: string) {
    forall i :: 0 <= i < |w| ==> 'a' <= w[i] <= 'z'
  }

  lemma LowerCharIff(c: char, x: char)
    requires 'a' <= x <= 'z'
    ensures LowerChar(c) == x <==> c == x || c == UpperChar(x)
  {
  }

  /** Lower-casing to a lower-case word accepts exactly the spellings of that
      word in which each letter is either lower- or upper-case. */
  lemma LowerEqualsIff(s: string, w: string)
    requires IsLowerWord(w)
    ensures ToLower(s) == w <==>
              |s| == |w| && forall i :: 0 <= i < |s| ==> s[i] == w[i] || s[i] == UpperChar(w[i])
  {
    var l := ToLower(s);
    if |s| == |w| {
      forall i | 0 <= i < |s|
        ensures l[i] == w[i] <==> s[i] == w[i] || s[i] == UpperChar(w[i])
      {
        LowerCharIff(s[i], w[i]);
      }
      if forall i :: 0 <= i < |s| ==> s[i] == w[i] || s[i] == UpperChar(w[i]) {
        assert l == w;
      }
    }
  }

  /** The outcome of a gate: the next handler runs, or the request is
      answered with an HTTP status and a message. */
  datatype Decision = Allow | Reject(status: int, message: string)

  type Parser = string -> Option<Claims>

  /** The "role" claim is a string whose lower-cased form is `want`. */
  predicate RoleIs(claims: Claims, want: string) {
    "role" in claims && claims["role"].Str? && ToLower(claims["role"].s) == want
  }

  /** AdminAuthorize: reject an absent or malformed bearer header, then a
      token that does not parse as valid, then a token whose "role" claim is
      not "admin" in any letter case; otherwise call the next handler. */
  function AdminAuthorize(parse: Parser, header: string): (d: Decision)
    ensures d == Allow <==>
              var t := ExtractTokenFromHeader(header);
              t != "" && parse(t).Some? && RoleIs(parse(t).value, "admin")
    ensures d.Reject? ==> d.status == 401
  {
    var t := ExtractTokenFromHeader(header);
    if t == "" then Reject(401, "Unauthorized")
    else if parse(t).None? then Reject(401, "Unauthorized Admin")
    else if !RoleIs(parse(t).value, "admin") then Reject(401, "UnAuthorized Admin")
    else Allow
  }

  /** MemberAuthorize: the same three checks, with "member" in place of
      "admin". */
  function MemberAuthorize(parse: Parser, header: string): (d: Decision)
    ensures d == Allow <==>
              var t := ExtractTokenFromHeader(header);
              t != "" && parse(t).Some? && RoleIs(parse(t).value, "member")
    ensures d.Reject? ==> d.status == 401
  {
    var t := ExtractTokenFromHeader(header);
    if t == "" then Reject(401, "UnAuthorized Member")
    else if parse(t).None? then Reject(401, "UnAuthorized Member")
    else if !RoleIs(parse(t).value, "member") then Reject(401, "Unauthorized")
    else Allow
  }

  /** Upper- and mixed-case spellings of the role names lower-case to them. */
  lemma MixedCaseRoles()
    ensures ToLower("ADMIN") == "admin"
    ensures ToLower("Member") == "member"
  {
    UpperAdminLowered();
    CapitalisedMemberLowered();
  }

  lemma UpperAdminLowered()
    ensures ToLower("ADMIN") == "admin"
  {
    var r := ToLower("ADMIN");
    assert r[0] == 'a' && r[1] == 'd' && r[2] == 'm' && r[3] == 'i' && r[4] == 'n';
  }

  lemma CapitalisedMemberLowered()
    ensures ToLower("Member") == "member"
  {
    var r := ToLower("Member");
    assert r[0] == 'm' && r[1] == 'e' && r[2] == 'm' && r[3] == 'b' && r[4] == 'e' && r[5] == 'r';
  }

  /** The role comparison ignores letter case: a parsed token whose "role"
      claim is "ADMIN" passes the admin gate. */
  lemma UpperCaseAdminAllowed(parse: Parser, t: string)
    requires ' ' !in t && t != "" && parse(t).Some?
    requires "role" in parse(t).value && parse(t).value["role"] == Str("ADMIN")
    ensures AdminAuthorize(parse, "Bearer " + t) == Allow
  {
    BearerRoundTrip(t);
    MixedCaseRoles();
  }

  /** Likewise "Member" passes the member gate. */
  lemma CapitalisedMemberAllowed(parse: Parser, t: string)
    requires ' ' !in t && t != "" && parse(t).Some?
    requires "role" in parse(t).value && parse(t).value["role"] == Str("Member")
    ensures MemberAuthorize(parse, "Bearer " + t) == Allow
  {
    BearerRoundTrip(t);
    MixedCaseRoles();
  }

  /** A missing or non-string "role" claim fails both gates. */
  lemma RoleClaimRequired(parse: Parser, header: string)
    requires var t := ExtractTokenFromHeader(header);
             parse(t).Some? && ("role" !in parse(t).value || parse(t).value["role"].Num?)
    ensures AdminAuthorize(parse, header).Reject?
    ensures MemberAuthorize(parse, header).Reject?
  {
  }
}
