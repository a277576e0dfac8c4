/** The query check of the like listing, which writes a 400 without returning. */
module FindAllLikeMiddleware {
  import opened JsValues
  import opened Express

  const UserIdNotText := "O atributo userId deve vir em formato de texto !"
  const TweetIdNotText := "O atributo tweetId deve vir em formato de texto !"

  /** A query value the check objects to: present and not a string. */
  predicate Objectionable(v: JsValue) {
    Truthy(v) && !IsString(v)
  }

  /**
   * Each objectionable parameter makes the code write a 400, and the code
   * goes on to `next()` regardless; only when both are objectionable does
   * the second write raise inside Express before `next()` is reached.
   */
  function ValidateTypes(userId: JsValue, tweetId: JsValue): (r: Effects)
    ensures |r.attempts| == (if Objectionable(userId) then 1 else 0) + (if Objectionable(tweetId) then 1 else 0)
    ensures r.callsNext <==> |r.attempts| < 2
    ensures (|r.attempts| > 0 && r.attempts[0] == BadRequest(UserIdNotText)) <==> Objectionable(userId)
    ensures (BadRequest(TweetIdNotText) in r.attempts) <==> Objectionable(tweetId)
    ensures !Objectionable(userId) && !Objectionable(tweetId) ==> r == Effects([], true)
  {
    var first := if Objectionable(userId) then [BadRequest(UserIdNotText)] else [];
    var second := if Objectionable(tweetId) then [BadRequest(TweetIdNotText)] else [];
    assert UserIdNotText != TweetIdNotText by { assert UserIdNotText[11] != TweetIdNotText[11]; }
    var attempts := first + second;
    Effects(attempts, |attempts| < 2)
  }

  /** A 400 is written and `next()` still runs when exactly one parameter is objectionable. */
  lemma WritesAndContinues(userId: JsValue, tweetId: JsValue)
    ensures Objectionable(userId) && !Objectionable(tweetId) ==> ValidateTypes(userId, tweetId) == Effects([BadRequest(UserIdNotText)], true)
    ensures !Objectionable(userId) && Objectionable(tweetId) ==> ValidateTypes(userId, tweetId) == Effects([BadRequest(TweetIdNotText)], true)
  {
  }
}
