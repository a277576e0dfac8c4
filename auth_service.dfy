/** Login issues a token for a user found by e-mail and password; logout revokes a token. */
module AuthService {
  import opened Wrappers
  import opened Entities
  import opened Tables
  import opened Store
  import opened AuthMiddleware

  const UnknownEmail := "E-mail ou senha incorretos!"
  const WrongPassword := "E-mail ou senha inválidos!"
  const LoggedIn := "Login efetuado com sucesso"
  const LoggedOut := "Logout efetuado com sucesso!"

  datatype LoginData = LoginData(token: string, userId: string, tweetId: Option<string>, followerId: seq<string>)

  /** The user's `Tweet` relation: their tweets in table order. */
  function TweetsOf(tweets: seq<Tweet>, userId: string): (r: seq<Tweet>)
    ensures forall t | t in r :: t in tweets && t.userId == userId
    ensures forall t | t in tweets && t.userId == userId :: t in r
  {
    Filter(tweets, (t: Tweet) => t.userId == userId)
  }

  /** The user's `followers` relation: the edges whose followed side is the user. */
  function FollowersOf(followers: seq<Follower>, userId: string): (r: seq<Follower>)
    ensures forall f | f in r :: f in followers && f.followerId == userId
    ensures forall f | f in followers && f.followerId == userId :: f in r
  {
    Filter(followers, (f: Follower) => f.followerId == userId)
  }

  /** `selectedTweetId`: the asked-for tweet among the user's own, else the user's first tweet. */
  function SelectedTweetId(own: seq<Tweet>, likedTweetId: Option<string>): (r: Option<string>)
    ensures likedTweetId.Some? && likedTweetId.value != "" ==>
      && (r.Some? <==> exists t | t in own :: t.id == likedTweetId.value)
      && (r.Some? ==> r.value == likedTweetId.value)
    ensures likedTweetId.None? || likedTweetId.value == "" ==>
      r == if |own| == 0 then None else Some(own[0].id)
  {
    if likedTweetId.Some? && likedTweetId.value != "" then
      match FindFirst(own, (t: Tweet) => t.id == likedTweetId.value)
      case None => None
      case Some(t) => Some(t.id)
    else if |own| == 0 then None
    else Some(own[0].id)
  }

  /**
   * `login`: an unknown e-mail and a wrong password are both 404, with no
   * token issued; otherwise the token is signed over exactly the user's id,
   * name and username.
   */
  function Login(users: seq<User>, tweets: seq<Tweet>, followers: seq<Follower>,
                 email: string, password: string, likedTweetId: Option<string>,
                 checkPassword: (string, string) -> bool, sign: AuthUser -> string)
    : (r: ApiResult<LoginData>)
    ensures UserByEmail(users, email).None? ==> r == Fail(404, UnknownEmail)
    ensures UserByEmail(users, email).Some? && !checkPassword(password, UserByEmail(users, email).value.password) ==>
      r == Fail(404, WrongPassword)
    ensures !r.success ==> r.code == 404 && r.data.None?
    ensures r.success <==>
      UserByEmail(users, email).Some? && checkPassword(password, UserByEmail(users, email).value.password)
    ensures r.success ==>
      var u := UserByEmail(users, email).value;
      && r.code == 200 && r.message == LoggedIn && r.data.Some?
      && var d := r.data.value;
      && d.token == sign(AuthUser(u.id, u.name, u.username))
      && d.userId == u.id
      && d.tweetId == SelectedTweetId(TweetsOf(tweets, u.id), likedTweetId)
      && |d.followerId| == |FollowersOf(followers, u.id)|
      && (forall i | 0 <= i < |d.followerId| :: d.followerId[i] == FollowersOf(followers, u.id)[i].id)
  {
    match UserByEmail(users, email)
    case None => Fail(404, UnknownEmail)
    case Some(u) =>
      if !checkPassword(password, u.password) then Fail(404, WrongPassword)
      else
        var token := sign(AuthUser(u.id, u.name, u.username));
        var fs := FollowersOf(followers, u.id);
        Done(200, LoggedIn, LoginData(token, u.id, SelectedTweetId(TweetsOf(tweets, u.id), likedTweetId),
                                      seq(|fs|, i requires 0 <= i < |fs| => fs[i].id)))
  }

  /** The user's login data names only tweets the user posted. */
  lemma SelectedTweetIsOwn(tweets: seq<Tweet>, userId: string, likedTweetId: Option<string>)
    ensures SelectedTweetId(TweetsOf(tweets, userId), likedTweetId).Some? ==>
      exists t | t in tweets :: t.userId == userId && t.id == SelectedTweetId(TweetsOf(tweets, userId), likedTweetId).value
  {
    var own := TweetsOf(tweets, userId);
    var r := SelectedTweetId(own, likedTweetId);
    if r.Some? {
      if likedTweetId.Some? && likedTweetId.value != "" {
        var t :| t in own && t.id == likedTweetId.value;
        assert t in tweets && t.userId == userId;
      } else {
        assert own[0] in own;
      }
    }
  }

  /**
   * `logout`: a token that does not verify makes `decoded.exp` throw, and a
   * token already revoked clashes with the unique column; neither changes
   * the store. Otherwise exactly one record is added, expiring at the
   * token's `exp` in milliseconds.
   */
  method Logout(db: Db, token: string, verify: string -> Option<DecodedToken>) returns (r: Outcome<()>)
    modifies db`revoked
    ensures r.Raised? <==> verify(token).None? || token in old(db.revoked)
    ensures r.Raised? ==> db.revoked == old(db.revoked)
    ensures r.Returned? ==>
      && db.revoked == old(db.revoked)[token := verify(token).value.exp * 1000]
      && r.result == ApiResult(true, 200, LoggedOut, None)
  {
    var decoded := verify(token);
    if decoded.None? || token in db.revoked {
      return Raised;
    }
    db.revoked := db.revoked[token := decoded.value.exp * 1000];
    r := Returned(ApiResult(true, 200, LoggedOut, None));
  }

  /** Every record's expiry is the `exp` of its own token, in milliseconds. */
  predicate RecordsMatchClaims(revoked: map<string, nat>, verify: string -> Option<DecodedToken>) {
    forall t | t in revoked && verify(t).Some? :: revoked[t] == verify(t).value.exp * 1000
  }

  /** Logout keeps every record at its token's expiry. */
  lemma LogoutKeepsRecordsMatched(revoked: map<string, nat>, token: string, verify: string -> Option<DecodedToken>)
    requires RecordsMatchClaims(revoked, verify)
    requires verify(token).Some?
    ensures RecordsMatchClaims(revoked[token := verify(token).value.exp * 1000], verify)
  {
  }

  /** Once logout has recorded a token, the gate refuses every header carrying it, whatever it verifies to. */
  lemma LoggedOutTokenIsRefused(revoked: map<string, nat>, token: string, expiresAt: nat,
                                scheme: string, verify: string -> Option<DecodedToken>)
    requires ' ' !in scheme && ' ' !in token
    ensures Decide(Some(scheme + " " + token), revoked[token := expiresAt], verify) == Unauthorized(RevokedToken)
  {
    AnySchemeYieldsToken(scheme, token);
  }
}
