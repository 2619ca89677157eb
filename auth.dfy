/**
 * app/auth.py: the `token_required` guard as a decision on one request, and
 * the payload `create_token` signs. Signing and verifying the token (PyJWT,
 * HS256) are foreign code: the gate receives the verifier as a function from
 * the token text to its outcome.
 */
module Auth {
  import opened Wrappers
  import opened Models
  import opened PyStrings

  /** Lifetime of an issued token: one hour. */
  const TokenLifetime: int := 3600

  /** The claims `create_token` signs, with `exp` in whole seconds since the epoch. */
  datatype Claims = Claims(userId: int, exp: int)

  /** What `jwt.decode` does with a token: its `user_id`, or one of the two errors caught. */
  datatype DecodeOutcome = Decoded(userId: int) | Expired | Invalid

  /** The guard's verdict: run the handler with this member, or answer with an error. */
  datatype GateResult = Admit(userId: int, member: Member) | Reject(status: int, message: string)

  /** `create_token(user_id)` at time `now`. */
  function CreateToken(userId: int, now: int): (c: Claims)
    ensures c.userId == userId
    ensures c.exp - now == TokenLifetime
  {
    Claims(userId, now + TokenLifetime)
  }

  /** The header has the shape `<scheme> <token>` with the scheme "bearer" in any case. */
  predicate IsBearerHeader(header: string)
  {
    var parts := Split(header);
    |parts| == 2 && IsBearerScheme(parts[0])
  }

  /**
   * `token_required`: classify the Authorization header, decode its token,
   * and resolve the decoded id against the members table.
   */
  function TokenRequired(header: Option<string>, decode: string -> DecodeOutcome,
                         members: map<int, Member>): (r: GateResult)
    ensures r.Admit? ==> header.Some? && IsBearerHeader(header.value)
    ensures r.Admit? ==> decode(Split(header.value)[1]) == Decoded(r.userId)
    ensures r.Admit? ==> r.userId in members && members[r.userId] == r.member
    ensures r.Reject? ==> r.status == 403 || r.status == 404
  {
    if header.None? || header.value == [] then Reject(403, "Token is missing!")
    else
      var parts := Split(header.value);
      if |parts| != 2 || !IsBearerScheme(parts[0]) then Reject(403, "Token format is invalid!")
      else
        match decode(parts[1])
        case Expired => Reject(403, "Token has expired!")
        case Invalid => Reject(403, "Invalid token!")
        case Decoded(id) =>
          if id in members then Admit(id, members[id]) else Reject(404, "User not found!")
  }

  /** No header, or an empty one, is rejected before anything else is looked at. */
  lemma MissingTokenRejected(header: Option<string>, decode: string -> DecodeOutcome,
                             members: map<int, Member>)
    ensures TokenRequired(header, decode, members) == Reject(403, "Token is missing!")
        <==> header.None? || header.value == []
  {
  }

  /** A present header that does not split into "bearer" and one token is rejected as malformed. */
  lemma MalformedHeaderRejected(header: string, decode: string -> DecodeOutcome,
                                members: map<int, Member>)
    requires header != []
    ensures TokenRequired(Some(header), decode, members) == Reject(403, "Token format is invalid!")
        <==> !IsBearerHeader(header)
  {
  }

  /** The decode outcome decides the rejections that follow a well-formed header. */
  lemma DecodeOutcomeDispatch(header: string, decode: string -> DecodeOutcome,
                              members: map<int, Member>)
    requires header != [] && IsBearerHeader(header)
    ensures var outcome := decode(Split(header)[1]);
      && (outcome == Expired ==> TokenRequired(Some(header), decode, members) == Reject(403, "Token has expired!"))
      && (outcome == Invalid ==> TokenRequired(Some(header), decode, members) == Reject(403, "Invalid token!"))
      && (outcome.Decoded? && outcome.userId !in members ==>
            TokenRequired(Some(header), decode, members) == Reject(404, "User not found!"))
      && (outcome.Decoded? && outcome.userId in members ==>
            TokenRequired(Some(header), decode, members) == Admit(outcome.userId, members[outcome.userId]))
  {
  }

  /** The header a client sends, `Bearer <token>`, reaches the decoder with exactly `<token>`. */
  lemma BearerHeaderSplits(token: string)
    requires IsField(token)
    ensures Split("Bearer " + token) == ["Bearer", token]
    ensures IsBearerHeader("Bearer " + token)
  {
    SplitJoin(["Bearer", token]);
    assert JoinWithSpace(["Bearer", token]) == "Bearer" + " " + JoinWithSpace([token]);
    assert "Bearer" + " " + token == "Bearer " + token;
  }

  /**
   * A token that decodes to the id of a stored member, sent as `Bearer <token>`,
   * admits the request with exactly that member.
   */
  lemma BearerTokenAdmits(token: string, decode: string -> DecodeOutcome,
                          members: map<int, Member>, id: int)
    requires IsField(token) && decode(token) == Decoded(id) && id in members
    ensures TokenRequired(Some("Bearer " + token), decode, members) == Admit(id, members[id])
  {
    BearerHeaderSplits(token);
  }
}
