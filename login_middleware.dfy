/** The validation steps of login. */
module LoginMiddleware {
  import opened JsValues
  import opened Express

  datatype Body = Body(email: JsValue, password: JsValue)

  const EmailRequired := "O atributo e-mail é obrigatório !"
  const PasswordRequired := "O atributo senha é obrigatório !"
  const EmailNotText := "O atributo email deve vir em formato de texto !"
  const PasswordNotText := "O atributo senha deve vir em formato de texto !"

  /** E-mail, then password, present. */
  function ValidateRequired(b: Body): (r: Step)
    ensures r.Next? <==> Truthy(b.email) && Truthy(b.password)
    ensures !Truthy(b.email) ==> r == Stop(BadRequest(EmailRequired))
    ensures Truthy(b.email) && !Truthy(b.password) ==> r == Stop(BadRequest(PasswordRequired))
  {
    if !Truthy(b.email) then Stop(BadRequest(EmailRequired))
    else if !Truthy(b.password) then Stop(BadRequest(PasswordRequired))
    else Next
  }

  /** E-mail, then password, are strings. */
  function ValidateTypes(b: Body): (r: Step)
    ensures r.Next? <==> IsString(b.email) && IsString(b.password)
    ensures !IsString(b.email) ==> r == Stop(BadRequest(EmailNotText))
    ensures IsString(b.email) && !IsString(b.password) ==> r == Stop(BadRequest(PasswordNotText))
  {
    if !IsString(b.email) then Stop(BadRequest(EmailNotText))
    else if !IsString(b.password) then Stop(BadRequest(PasswordNotText))
    else Next
  }

  /** The middleware array of `POST /login`. */
  function Route(b: Body): (r: Step)
    ensures r.Next? <==> b.email.Str? && b.email.s != "" && b.password.Str? && b.password.s != ""
    ensures r.Stop? ==> r.response.status == 400
  {
    Then(ValidateRequired(b), ValidateTypes(b))
  }
}
