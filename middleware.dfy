/** `verifyToken`: the guard in front of every news route. It reads the
    `Authorization` header, takes its second space-separated piece as the
    token and lets the request through only when the token verifies. */
module Guard {
  import opened JsValues
  import opened Text
  import opened Auth

  /** `jwt.verify(token, SECRET_KEY)`: the decoded claims, or None when it
      reports an error. A parameter of the model, not defined here. */
  type Verifier = string -> Option<Claims>

  /** What the guard does with a request: answer with a status and a
      message, or call `next` once with the decoded claims attached as
      `req.user`. */
  datatype Outcome = Refused(status: int, message: string) | Pass(user: Claims)

  const Forbidden := Refused(403, "No token provided")
  const Unauthorized := Refused(401, "Invalid token")

  /** `authHeader.split(" ")[1]`: the second piece, or None (undefined) when
      the header has no space. */
  function TokenOf(header: string): (r: Option<string>)
    ensures r.None? <==> ' ' !in header
    ensures r.Some? ==> ' ' !in r.value
  {
    var pieces := Split(header, ' ');
    if |pieces| >= 2 then
      Some(pieces[1])
    else
      assert Join(pieces, ' ') == header by { JoinSplit(header, ' '); }
      None
  }

  /** The guard. A missing or empty header is answered 403; otherwise the
      verifier decides, and a header without a token, which gives it
      nothing to verify, is answered 401. */
  function VerifyToken(header: Option<string>, verify: Verifier): (o: Outcome)
    ensures o == Forbidden <==> header.None? || header.value == ""
    ensures o.Pass? ==>
      header.Some? && TokenOf(header.value).Some? && verify(TokenOf(header.value).value) == Some(o.user)
    ensures o == Unauthorized <==>
      header.Some? && header.value != ""
      && (TokenOf(header.value).None? || verify(TokenOf(header.value).value).None?)
    ensures (header.Some? && header.value != "" && TokenOf(header.value).Some?
             && verify(TokenOf(header.value).value).Some?) ==>
      o == Pass(verify(TokenOf(header.value).value).value)
  {
    if header.None? || header.value == "" then Forbidden
    else
      match TokenOf(header.value)
      case None => Unauthorized
      case Some(token) =>
        match verify(token)
        case None => Unauthorized
        case Some(claims) => Pass(claims)
  }

  /** Whatever precedes the first space, the token is the first piece of
      what follows it. */
  lemma TokenAfterFirstSpace(scheme: string, after: string)
    requires ' ' !in scheme
    ensures TokenOf(scheme + [' '] + after) == Some(Split(after, ' ')[0])
  {
    SplitCons(scheme, ' ', after);
  }

  /** The first word of the header is never looked at: whatever precedes
      the first space, the token is the word after it. */
  lemma SchemeIgnored(scheme: string, token: string)
    requires ' ' !in scheme && ' ' !in token
    ensures TokenOf(scheme + " " + token) == Some(token)
  {
    TokenAfterFirstSpace(scheme, token);
    SplitNoSep(token, ' ');
  }

  /** Anything after a second space is ignored as well. */
  lemma TrailingWordsIgnored(scheme: string, token: string, rest: string)
    requires ' ' !in scheme && ' ' !in token
    ensures TokenOf(scheme + " " + (token + " " + rest)) == Some(token)
  {
    TokenAfterFirstSpace(scheme, token + " " + rest);
    SplitCons(token, ' ', rest);
  }

  /** Two headers with different schemes and the same token get the same
      answer. */
  lemma AnySchemeSameOutcome(s1: string, s2: string, token: string, verify: Verifier)
    requires ' ' !in s1 && ' ' !in s2 && ' ' !in token
    ensures VerifyToken(Some(s1 + " " + token), verify) == VerifyToken(Some(s2 + " " + token), verify)
  {
    SchemeIgnored(s1, token);
    SchemeIgnored(s2, token);
  }

  /** A header without a space (a bare token, say) yields no token and is
      answered 401, even when that text would verify. */
  lemma BareTokenRejected(header: string, verify: Verifier)
    requires header != "" && ' ' !in header
    ensures VerifyToken(Some(header), verify) == Unauthorized
  {
  }

  /** `Bearer <token>` passes exactly when the token verifies, with the
      verified claims attached. */
  lemma BearerPasses(token: string, verify: Verifier)
    requires ' ' !in token
    ensures VerifyToken(Some("Bearer " + token), verify)
      == if verify(token).Some? then Pass(verify(token).value) else Unauthorized
  {
    SchemeIgnored("Bearer", token);
    assert "Bearer " + token == "Bearer" + " " + token;
  }
}
