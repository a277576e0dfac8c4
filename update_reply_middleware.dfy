/** The validation steps of a reply update: content optional. */
module UpdateReplyMiddleware {
  import opened JsValues
  import opened Express

  const ContentNotText := "O atributo conteúdo deve vir em formato de texto !"
  const ContentTooShort := "O atributo conteúdo deve ter pelo menos 5 caracteres !"

  /** A present content must be a string. */
  function ValidateTypes(content: JsValue): (r: Step)
    ensures r.Next? <==> !Truthy(content) || IsString(content)
    ensures r.Stop? ==> r.response == BadRequest(ContentNotText)
  {
    if Truthy(content) && !IsString(content) then Stop(BadRequest(ContentNotText)) else Next
  }

  /** A present content needs 5 characters. */
  function ValidateData(content: JsValue): (r: Step)
    requires !Truthy(content) || IsString(content)
    ensures r.Next? <==> !Truthy(content) || |content.s| >= 5
    ensures r.Stop? ==> r.response == BadRequest(ContentTooShort)
  {
    if Truthy(content) && |content.s| < 5 then Stop(BadRequest(ContentTooShort)) else Next
  }

  /** The two steps as the route runs them. */
  function Route(content: JsValue): (r: Step)
    ensures r.Next? <==> !Truthy(content) || (content.Str? && |content.s| >= 5)
    ensures r.Stop? ==> r.response.status == 400
  {
    var types := ValidateTypes(content);
    if types.Stop? then types else ValidateData(content)
  }
}
