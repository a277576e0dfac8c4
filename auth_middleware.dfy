/**
 * The request gate: header present, token taken as its second word,
 * revocation lookup, token verification, then the identity attached to the
 * request.
 */
module AuthMiddleware {
  import opened Wrappers
  import opened Text
  import opened Entities

  const MissingToken := "Token não autenticado!"
  const RevokedToken := "Token inválido! Faça login novamente."
  const NotAuthenticated := "Estudante não autenticado!"

  /**
   * What the gate does with a request: a 401 with a message, a rejected
   * promise (the revocation lookup throws when the token is undefined, and
   * nothing catches it), or the identity handed on with `next()`.
   */
  datatype GateOutcome = Unauthorized(message: string) | Fault | Authenticated(user: AuthUser)

  /** `authorization.split(' ')[1]`: any first word is accepted as the scheme. */
  function TokenOf(authorization: string): (r: Option<string>)
    ensures r.None? <==> ' ' !in authorization
    ensures r.Some? ==> ' ' !in r.value
  {
    SecondPiece(authorization, ' ')
  }

  /** The header is truthy: present and not empty. */
  predicate Present(authorization: Option<string>) {
    authorization.Some? && authorization.value != ""
  }

  /** The identity attached to the request: the three identity claims and nothing else. */
  function Identity(c: DecodedToken): (r: AuthUser)
    ensures r.id == c.id && r.name == c.name && r.username == c.username
  {
    AuthUser(c.id, c.name, c.username)
  }

  /** The gate's decision, check by check in the order of the source. */
  function Decide(authorization: Option<string>, revoked: map<string, nat>, verify: string -> Option<DecodedToken>)
    : (r: GateOutcome)
    ensures !Present(authorization) ==> r == Unauthorized(MissingToken)
    ensures r == Fault <==> Present(authorization) && TokenOf(authorization.value).None?
    ensures Present(authorization) && TokenOf(authorization.value).Some? ==>
      var token := TokenOf(authorization.value).value;
      && (token in revoked ==> r == Unauthorized(RevokedToken))
      && (token !in revoked && verify(token).None? ==> r == Unauthorized(NotAuthenticated))
      && (token !in revoked && verify(token).Some? ==> r == Authenticated(Identity(verify(token).value)))
  {
    if !Present(authorization) then Unauthorized(MissingToken)
    else match TokenOf(authorization.value)
      case None => Fault
      case Some(token) =>
        if token in revoked then Unauthorized(RevokedToken)
        else match verify(token)
          case None => Unauthorized(NotAuthenticated)
          case Some(c) => Authenticated(Identity(c))
  }

  /** A request the gate lets through carries a token that was not revoked and that verified to the attached identity. */
  lemma AcceptedMeansVerifiedAndNotRevoked(authorization: Option<string>, revoked: map<string, nat>,
                                           verify: string -> Option<DecodedToken>)
    requires Decide(authorization, revoked, verify).Authenticated?
    ensures Present(authorization) && TokenOf(authorization.value).Some?
    ensures var token := TokenOf(authorization.value).value;
      && token !in revoked
      && verify(token).Some?
      && Decide(authorization, revoked, verify).user == Identity(verify(token).value)
  {
  }

  /** No scheme is checked: `<scheme> <token>` yields the token whatever the scheme's word is. */
  lemma AnySchemeYieldsToken(scheme: string, token: string)
    requires ' ' !in scheme && ' ' !in token
    ensures TokenOf(scheme + " " + token) == Some(token)
  {
    SecondPieceOf(scheme, ' ', token);
    assert scheme + " " + token == scheme + [' '] + token;
  }

  /** A header of one word has no token; the lookup then throws and no response is written. */
  lemma OneWordHeaderFaults(word: string, revoked: map<string, nat>, verify: string -> Option<DecodedToken>)
    requires word != "" && ' ' !in word
    ensures Decide(Some(word), revoked, verify) == Fault
  {
  }

  /** The request as the gate sees it: the only field it writes is the authenticated user. */
  class Request {
    var authUser: Option<AuthUser>

    constructor()
      ensures authUser.None?
    {
      authUser := None;
    }
  }

  /**
   * `validate`: decides, writes `req.authUser` only when it lets the request
   * through, and calls `next()` exactly then.
   */
  method Validate(req: Request, authorization: Option<string>, revoked: map<string, nat>,
                  verify: string -> Option<DecodedToken>)
    returns (outcome: GateOutcome, callsNext: bool)
    modifies req
    ensures outcome == Decide(authorization, revoked, verify)
    ensures callsNext <==> outcome.Authenticated?
    ensures outcome.Authenticated? ==> req.authUser == Some(outcome.user)
    ensures !outcome.Authenticated? ==> req.authUser == old(req.authUser)
  {
    outcome := Decide(authorization, revoked, verify);
    callsNext := false;
    if outcome.Authenticated? {
      req.authUser := Some(outcome.user);
      callsNext := true;
    }
  }
}
