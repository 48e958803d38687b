/** The role gate in front of the protected handlers. The bearer token is taken from the
    Authorization header by removing the first "Bearer ", it is verified, and the decoded
    claims become the request's user; the handler runs only when the role list is empty or
    names the decoded role. Signature checking is a parameter `verify`, which yields the
    decoded claims of a valid token and `None` for a token it rejects. */
module Auth {
  import opened Common
  import opened Text
  import opened Models

  /** The payload signed at login. */
  datatype Claims = Claims(id: Id, role: string)

  /** Either the handler runs with `user` as `req.user`, or the response has `status`. */
  datatype Gate = Next(user: Claims) | Reject(status: nat)

  const Unauthorized: nat := 401
  const BadRequest: nat := 400
  const Forbidden: nat := 403

  /** `req.header('Authorization')?.replace('Bearer ', '')`. */
  function Token(header: Option<string>): (t: Option<string>)
    ensures header.None? <==> t.None?
    ensures header.Some? && !Contains(header.value, "Bearer ") ==> t == header
    ensures header.Some? ==>
      forall i :: (OccursAt(header.value, "Bearer ", i)
                   && forall j :: 0 <= j < i ==> !OccursAt(header.value, "Bearer ", j))
                  ==> t == Some(header.value[..i] + header.value[i + 7..])
  {
    match header
    case None => None
    case Some(h) =>
      var r := ReplaceFirst(h, "Bearer ", "");
      forall i | OccursAt(h, "Bearer ", i) && (forall j :: 0 <= j < i ==> !OccursAt(h, "Bearer ", j))
        ensures r == h[..i] + h[i + 7..]
      {
        var k := IndexFrom(h, "Bearer ", 0);
        assert k == Some(i);
      }
      Some(r)
  }

  /** The ordinary header: "Bearer " followed by the token gives the token back, whatever it
      holds, a further "Bearer " included. */
  lemma TokenOfBearer(token: string)
    ensures Token(Some("Bearer " + token)) == Some(token)
  {
    var h := "Bearer " + token;
    assert OccursAt(h, "Bearer ", 0);
    assert h[..0] + h[7..] == token;
  }

  /** A token is present when the header is and the stripped string is not empty. */
  predicate HasToken(header: Option<string>) {
    Token(header).Some? && Token(header).value != ""
  }

  /** authMiddleware(roles): 401 without a token, 400 when verification fails, 403 when a
      non-empty role list does not name the decoded role, and otherwise the handler. */
  function Authorize(roles: seq<string>, header: Option<string>, verify: string -> Option<Claims>)
    : (g: Gate)
    ensures g == Reject(Unauthorized) <==> !HasToken(header)
    ensures g == Reject(BadRequest) <==> HasToken(header) && verify(Token(header).value).None?
    ensures g == Reject(Forbidden) <==>
      HasToken(header) && verify(Token(header).value).Some?
      && roles != [] && verify(Token(header).value).value.role !in roles
    ensures g.Reject? ==> g.status in {Unauthorized, BadRequest, Forbidden}
    ensures g.Next? ==> HasToken(header) && Some(g.user) == verify(Token(header).value)
  {
    var token := Token(header);
    if token.None? || token.value == "" then Reject(Unauthorized)
    else
      match verify(token.value)
      case None => Reject(BadRequest)
      case Some(decoded) =>
        if |roles| > 0 && decoded.role !in roles then Reject(Forbidden) else Next(decoded)
  }

  /** The handler runs exactly for a verified token whose role the list admits. */
  lemma AuthorizeNext(roles: seq<string>, header: Option<string>, verify: string -> Option<Claims>)
    ensures Authorize(roles, header, verify).Next? <==>
      HasToken(header) && verify(Token(header).value).Some?
      && (roles == [] || verify(Token(header).value).value.role in roles)
  {
  }

  /** The default empty role list admits every verified user. */
  lemma OpenGateAdmitsVerified(header: Option<string>, verify: string -> Option<Claims>)
    requires HasToken(header) && verify(Token(header).value).Some?
    ensures Authorize([], header, verify) == Next(verify(Token(header).value).value)
  {
  }

  /** Listing more roles never turns an admitted request away from a non-empty list (from
      the empty list it can: the empty list admits everyone). */
  lemma MoreRolesAdmitMore(roles: seq<string>, extra: seq<string>, header: Option<string>,
                           verify: string -> Option<Claims>)
    requires roles != [] && Authorize(roles, header, verify).Next?
    ensures Authorize(roles + extra, header, verify) == Authorize(roles, header, verify)
  {
  }

  /** Verification is consulted on the stripped token only. */
  lemma OnlyTheTokenIsVerified(roles: seq<string>, header: Option<string>,
                            v1: string -> Option<Claims>, v2: string -> Option<Claims>)
    requires HasToken(header)
    requires v1(Token(header).value) == v2(Token(header).value)
    ensures Authorize(roles, header, v1) == Authorize(roles, header, v2)
  {
  }

  /** Only the first "Bearer " is removed. */
  lemma OnlyFirstBearerRemoved()
    ensures Token(Some("Bearer Bearer x")) == Some("Bearer x")
  {
    var h := "Bearer Bearer x";
    assert h[0..7] == "Bearer ";
    assert IndexFrom(h, "Bearer ", 0) == Some(0);
    assert ReplaceFirst(h, "Bearer ", "") == h[..0] + "" + h[7..];
    assert h[..0] + "" + h[7..] == h[7..];
    assert h[7..] == "Bearer x";
  }

  /** A header holding only the prefix leaves an empty token: 401 whatever `verify` says. */
  lemma PrefixOnlyIsUnauthorized(roles: seq<string>, verify: string -> Option<Claims>)
    ensures Authorize(roles, Some("Bearer "), verify) == Reject(Unauthorized)
  {
    assert OccursAt("Bearer ", "Bearer ", 0);
  }
}
