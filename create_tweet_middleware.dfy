/** The three validation steps of tweet creation. */
module CreateTweetMiddleware {
  import opened JsValues
  import opened Uuid
  import opened Express

  datatype Body = Body(content: JsValue, kind: JsValue, userId: JsValue)

  const ContentRequired := "O atributo conteúdo é obrigatório !"
  const TypeRequired := "O atributo type é obrigatório !"
  const UserIdRequired := "O atributo userId é obrigatório !"
  const ContentNotText := "O atributo conteúdo deve vir em formato de texto !"
  const TypeNotText := "O atributo type deve vir em formato de texto !"
  const UserIdNotText := "O atributo userId deve vir em formato de texto !"
  const ContentTooShort := "O atributo conteúdo deve ter pelo menos 5 caracteres !"
  const TypeNotTweet := "O atributo type deve ser do tipo (Tweet) !"
  const UserIdNotUuid := "Identificador precisa ser um UUID !"

  /** Content, type and userId present, checked in that order. */
  function ValidateRequired(b: Body): (r: Step)
    ensures r.Next? <==> Truthy(b.content) && Truthy(b.kind) && Truthy(b.userId)
    ensures !Truthy(b.content) ==> r == Stop(BadRequest(ContentRequired))
    ensures Truthy(b.content) && !Truthy(b.kind) ==> r == Stop(BadRequest(TypeRequired))
    ensures Truthy(b.content) && Truthy(b.kind) && !Truthy(b.userId) ==> r == Stop(BadRequest(UserIdRequired))
  {
    if !Truthy(b.content) then Stop(BadRequest(ContentRequired))
    else if !Truthy(b.kind) then Stop(BadRequest(TypeRequired))
    else if !Truthy(b.userId) then Stop(BadRequest(UserIdRequired))
    else Next
  }

  /** Content, type and userId are strings, checked in that order. */
  function ValidateTypes(b: Body): (r: Step)
    ensures r.Next? <==> IsString(b.content) && IsString(b.kind) && IsString(b.userId)
    ensures !IsString(b.content) ==> r == Stop(BadRequest(ContentNotText))
    ensures IsString(b.content) && !IsString(b.kind) ==> r == Stop(BadRequest(TypeNotText))
    ensures IsString(b.content) && IsString(b.kind) && !IsString(b.userId) ==> r == Stop(BadRequest(UserIdNotText))
  {
    if !IsString(b.content) then Stop(BadRequest(ContentNotText))
    else if !IsString(b.kind) then Stop(BadRequest(TypeNotText))
    else if !IsString(b.userId) then Stop(BadRequest(UserIdNotText))
    else Next
  }

  /** Content of at least 5 characters, type exactly "Tweet", userId shaped as a UUID; the first failing check decides. */
  function ValidateData(content: string, kind: string, userId: string): (r: Step)
    ensures r.Next? <==> |content| >= 5 && kind == "Tweet" && IsUuid(userId)
    ensures |content| < 5 ==> r == Stop(BadRequest(ContentTooShort))
    ensures |content| >= 5 && kind != "Tweet" ==> r == Stop(BadRequest(TypeNotTweet))
    ensures |content| >= 5 && kind == "Tweet" && !IsUuid(userId) ==> r == Stop(BadRequest(UserIdNotUuid))
  {
    if |content| < 5 then Stop(BadRequest(ContentTooShort))
    else if kind != "Tweet" then Stop(BadRequest(TypeNotTweet))
    else if !IsUuid(userId) then Stop(BadRequest(UserIdNotUuid))
    else Next
  }

  /** The middleware array of `POST /tweets`. */
  function Route(b: Body): (r: Step)
    ensures r.Next? <==>
      b.content.Str? && |b.content.s| >= 5 && b.kind == Str("Tweet") && b.userId.Str? && IsUuid(b.userId.s)
    ensures r.Stop? ==> r.response.status == 400
  {
    var required := ValidateRequired(b);
    if required.Stop? then required
    else
      var types := ValidateTypes(b);
      if types.Stop? then types
      else ValidateData(b.content.s, b.kind.s, b.userId.s)
  }
}
