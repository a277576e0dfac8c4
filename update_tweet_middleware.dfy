/** The validation steps of a tweet update: content and type optional. */
module UpdateTweetMiddleware {
  import opened JsValues
  import opened Express

  datatype Body = Body(content: JsValue, kind: JsValue)

  const ContentNotText := "O atributo conteúdo deve vir em formato de texto !"
  const TypeNotText := "O atributo type deve vir em formato de texto !"
  const ContentTooShort := "O atributo conteúdo deve ter pelo menos 5 caracteres !"
  const TypeNotTweet := "O atributo type deve ser do tipo (Tweet) !"

  predicate AbsentOrText(v: JsValue) {
    !Truthy(v) || IsString(v)
  }

  /** A present content, then a present type, must be a string. */
  function ValidateTypes(b: Body): (r: Step)
    ensures r.Next? <==> AbsentOrText(b.content) && AbsentOrText(b.kind)
    ensures !AbsentOrText(b.content) ==> r == Stop(BadRequest(ContentNotText))
    ensures AbsentOrText(b.content) && !AbsentOrText(b.kind) ==> r == Stop(BadRequest(TypeNotText))
  {
    if Truthy(b.content) && !IsString(b.content) then Stop(BadRequest(ContentNotText))
    else if Truthy(b.kind) && !IsString(b.kind) then Stop(BadRequest(TypeNotText))
    else Next
  }

  /** A present content needs 5 characters; a present type must be "Tweet". */
  function ValidateData(b: Body): (r: Step)
    requires AbsentOrText(b.content) && AbsentOrText(b.kind)
    ensures r.Next? <==> (!Truthy(b.content) || |b.content.s| >= 5) && (!Truthy(b.kind) || b.kind.s == "Tweet")
    ensures Truthy(b.content) && |b.content.s| < 5 ==> r == Stop(BadRequest(ContentTooShort))
    ensures (!Truthy(b.content) || |b.content.s| >= 5) && Truthy(b.kind) && b.kind.s != "Tweet" ==> r == Stop(BadRequest(TypeNotTweet))
  {
    if Truthy(b.content) && |b.content.s| < 5 then Stop(BadRequest(ContentTooShort))
    else if Truthy(b.kind) && b.kind.s != "Tweet" then Stop(BadRequest(TypeNotTweet))
    else Next
  }

  /** The two steps as the route runs them. */
  function Route(b: Body): (r: Step)
    ensures r.Next? <==>
      (!Truthy(b.content) || (b.content.Str? && |b.content.s| >= 5)) && (!Truthy(b.kind) || b.kind == Str("Tweet"))
    ensures r.Stop? ==> r.response.status == 400
  {
    var types := ValidateTypes(b);
    if types.Stop? then types else ValidateData(b)
  }
}
