/** The three validation steps of liking a tweet. */
module CreateLikeMiddleware {
  import opened JsValues
  import opened Uuid
  import opened Express

  datatype Body = Body(userId: JsValue, tweetId: JsValue)

  const UserIdRequired := "O atributo userId é obrigatório !"
  const TweetIdRequired := "O atributo tweetId é obrigatório !"
  const UserIdNotText := "O atributo userId deve vir em formato de texto !"
  const TweetIdNotText := "O atributo tweetId deve vir em formato de texto !"
  const UserIdNotUuid := "Identificador do userId precisa ser um UUID !"
  const TweetIdNotUuid := "Identificador do tweetId precisa ser um UUID !"

  /** userId, then tweetId, present. */
  function ValidateRequired(b: Body): (r: Step)
    ensures r.Next? <==> Truthy(b.userId) && Truthy(b.tweetId)
    ensures !Truthy(b.userId) ==> r == Stop(BadRequest(UserIdRequired))
    ensures Truthy(b.userId) && !Truthy(b.tweetId) ==> r == Stop(BadRequest(TweetIdRequired))
  {
    if !Truthy(b.userId) then Stop(BadRequest(UserIdRequired))
    else if !Truthy(b.tweetId) then Stop(BadRequest(TweetIdRequired))
    else Next
  }

  /** userId, then tweetId, are strings. */
  function ValidateTypes(b: Body): (r: Step)
    ensures r.Next? <==> IsString(b.userId) && IsString(b.tweetId)
    ensures !IsString(b.userId) ==> r == Stop(BadRequest(UserIdNotText))
    ensures IsString(b.userId) && !IsString(b.tweetId) ==> r == Stop(BadRequest(TweetIdNotText))
  {
    if !IsString(b.userId) then Stop(BadRequest(UserIdNotText))
    else if !IsString(b.tweetId) then Stop(BadRequest(TweetIdNotText))
    else Next
  }

  /** userId, then tweetId, shaped as UUIDs. */
  function ValidateData(userId: string, tweetId: string): (r: Step)
    ensures r.Next? <==> IsUuid(userId) && IsUuid(tweetId)
    ensures !IsUuid(userId) ==> r == Stop(BadRequest(UserIdNotUuid))
    ensures IsUuid(userId) && !IsUuid(tweetId) ==> r == Stop(BadRequest(TweetIdNotUuid))
  {
    if !IsUuid(userId) then Stop(BadRequest(UserIdNotUuid))
    else if !IsUuid(tweetId) then Stop(BadRequest(TweetIdNotUuid))
    else Next
  }

  /** The middleware array of `POST /likes`. */
  function Route(b: Body): (r: Step)
    ensures r.Next? <==> b.userId.Str? && IsUuid(b.userId.s) && b.tweetId.Str? && IsUuid(b.tweetId.s)
    ensures r.Stop? ==> r.response.status == 400
  {
    var required := ValidateRequired(b);
    if required.Stop? then required
    else
      var types := ValidateTypes(b);
      if types.Stop? then types else ValidateData(b.userId.s, b.tweetId.s)
  }
}
