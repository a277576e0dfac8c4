/** The three validation steps of reply creation; the ids come from request headers. */
module CreateReplyMiddleware {
  import opened Wrappers
  import opened JsValues
  import opened Uuid
  import opened Express

  /** `content` and `type` from `req.body`; `x-user-id` and `x-tweet-id` from `req.headers`. */
  datatype Request = Request(content: JsValue, kind: JsValue, userIdHeader: Option<string>, tweetIdHeader: Option<string>)

  /** A header is a string, or undefined when the client did not send it. */
  function HeaderValue(h: Option<string>): (v: JsValue)
    ensures IsString(v) <==> h.Some?
  {
    if h.Some? then Str(h.value) else Undefined
  }

  const ContentRequired := "O atributo conteúdo é obrigatório !"
  const TypeRequired := "O atributo type é obrigatório !"
  const UserIdRequired := "O atributo userId é obrigatório !"
  const TweetIdRequired := "O atributo tweetId é obrigatório !"
  const ContentNotText := "O atributo conteúdo deve vir em formato de texto !"
  const TypeNotText := "O atributo type deve vir em formato de texto !"
  const UserIdNotText := "O atributo userId deve vir em formato de texto !"
  const TweetIdNotText := "O atributo tweetId deve vir em formato de texto !"
  const ContentTooShort := "O atributo conteúdo deve ter pelo menos 5 caracteres !"
  const TypeNotReply := "O atributo type deve ser do tipo (Reply) !"
  const UserIdNotUuid := "Identificador userId precisa ser um UUID !"
  const TweetIdNotUuid := "Identificador tweetId precisa ser um UUID !"

  /** Content, type, userId, tweetId present, in that order. */
  function ValidateRequired(q: Request): (r: Step)
    ensures r.Next? <==> Truthy(q.content) && Truthy(q.kind) && Truthy(HeaderValue(q.userIdHeader)) && Truthy(HeaderValue(q.tweetIdHeader))
    ensures !Truthy(q.content) ==> r == Stop(BadRequest(ContentRequired))
    ensures Truthy(q.content) && !Truthy(q.kind) ==> r == Stop(BadRequest(TypeRequired))
    ensures Truthy(q.content) && Truthy(q.kind) && !Truthy(HeaderValue(q.userIdHeader)) ==> r == Stop(BadRequest(UserIdRequired))
    ensures Truthy(q.content) && Truthy(q.kind) && Truthy(HeaderValue(q.userIdHeader)) && !Truthy(HeaderValue(q.tweetIdHeader)) ==>
      r == Stop(BadRequest(TweetIdRequired))
  {
    if !Truthy(q.content) then Stop(BadRequest(ContentRequired))
    else if !Truthy(q.kind) then Stop(BadRequest(TypeRequired))
    else if !Truthy(HeaderValue(q.userIdHeader)) then Stop(BadRequest(UserIdRequired))
    else if !Truthy(HeaderValue(q.tweetIdHeader)) then Stop(BadRequest(TweetIdRequired))
    else Next
  }

  /** The four values are strings, in the same order. */
  function ValidateTypes(q: Request): (r: Step)
    ensures r.Next? <==> IsString(q.content) && IsString(q.kind) && q.userIdHeader.Some? && q.tweetIdHeader.Some?
    ensures !IsString(q.content) ==> r == Stop(BadRequest(ContentNotText))
    ensures IsString(q.content) && !IsString(q.kind) ==> r == Stop(BadRequest(TypeNotText))
    ensures IsString(q.content) && IsString(q.kind) && q.userIdHeader.None? ==> r == Stop(BadRequest(UserIdNotText))
    ensures IsString(q.content) && IsString(q.kind) && q.userIdHeader.Some? && q.tweetIdHeader.None? ==> r == Stop(BadRequest(TweetIdNotText))
  {
    if !IsString(q.content) then Stop(BadRequest(ContentNotText))
    else if !IsString(q.kind) then Stop(BadRequest(TypeNotText))
    else if !IsString(HeaderValue(q.userIdHeader)) then Stop(BadRequest(UserIdNotText))
    else if !IsString(HeaderValue(q.tweetIdHeader)) then Stop(BadRequest(TweetIdNotText))
    else Next
  }

  /** Content of 5 or more characters, type exactly "Reply", and both ids shaped as UUIDs; the first failing check decides. */
  function ValidateData(content: string, kind: string, userId: string, tweetId: string): (r: Step)
    ensures r.Next? <==> |content| >= 5 && kind == "Reply" && IsUuid(userId) && IsUuid(tweetId)
    ensures |content| < 5 ==> r == Stop(BadRequest(ContentTooShort))
    ensures |content| >= 5 && kind != "Reply" ==> r == Stop(BadRequest(TypeNotReply))
    ensures |content| >= 5 && kind == "Reply" && !IsUuid(userId) ==> r == Stop(BadRequest(UserIdNotUuid))
    ensures |content| >= 5 && kind == "Reply" && IsUuid(userId) && !IsUuid(tweetId) ==> r == Stop(BadRequest(TweetIdNotUuid))
  {
    if |content| < 5 then Stop(BadRequest(ContentTooShort))
    else if kind != "Reply" then Stop(BadRequest(TypeNotReply))
    else if !IsUuid(userId) then Stop(BadRequest(UserIdNotUuid))
    else if !IsUuid(tweetId) then Stop(BadRequest(TweetIdNotUuid))
    else Next
  }

  /** The middleware array of `POST /replies`. */
  function Route(q: Request): (r: Step)
    ensures r.Next? <==>
      && q.content.Str? && |q.content.s| >= 5 && q.kind == Str("Reply")
      && q.userIdHeader.Some? && IsUuid(q.userIdHeader.value)
      && q.tweetIdHeader.Some? && IsUuid(q.tweetIdHeader.value)
    ensures r.Stop? ==> r.response.status == 400
  {
    var required := ValidateRequired(q);
    if required.Stop? then required
    else
      var types := ValidateTypes(q);
      if types.Stop? then types
      else ValidateData(q.content.s, q.kind.s, q.userIdHeader.value, q.tweetIdHeader.value)
  }

  /**
   * Once the required step has passed, the types step can only reject the
   * body fields: a header that is present is always a string.
   */
  lemma HeadersNeverFailTypes(q: Request)
    requires ValidateRequired(q).Next?
    ensures ValidateTypes(q) != Stop(BadRequest(UserIdNotText)) && ValidateTypes(q) != Stop(BadRequest(TweetIdNotText))
  {
    assert q.userIdHeader.Some? && q.tweetIdHeader.Some?;
    assert UserIdNotText != ContentNotText && UserIdNotText != TypeNotText by { assert UserIdNotText[13] != ContentNotText[13]; assert UserIdNotText[12] != TypeNotText[12]; }
    assert TweetIdNotText != ContentNotText && TweetIdNotText != TypeNotText by { assert TweetIdNotText[13] != ContentNotText[13]; assert TweetIdNotText[12] != TypeNotText[12]; }
  }
}
