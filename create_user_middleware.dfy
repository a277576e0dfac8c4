/** The three validation steps of user registration. */
module CreateUserMiddleware {
  import opened Text
  import opened JsValues
  import opened Express

  /** The fields of `req.body` the steps read. */
  datatype Body = Body(name: JsValue, email: JsValue, username: JsValue, password: JsValue)

  const NameRequired := "O atributo nome é obrigatório !"
  const EmailRequired := "O atributo email é obrigatório !"
  const UsernameRequired := "O atributo username é obrigatório !"
  const PasswordRequired := "O atributo password é obrigatório !"
  const NameNotText := "O atributo nome deve vir em formato de texto !"
  const EmailNotText := "O atributo email deve vir em formato de texto !"
  const UsernameNotText := "O atributo username deve vir em formato de texto !"
  const PasswordNotText := "O atributo senha deve vir em formato de texto !"
  const NameTooShort := "O atributo nome deve ter pelo menos 3 caracteres !"
  const EmailMalformed := "O e-mail deve conter (@) e (.com)"
  const UsernameTooShort := "O atributo username deve ter pelo menos 5 caracteres !"
  const PasswordTooShort := "O atributo senha deve ter pelo menos 5 caracteres !"

  /** Every field present (truthy); otherwise the first missing one, in the order name, email, username, password. */
  function ValidateRequired(b: Body): (r: Step)
    ensures r.Next? <==> Truthy(b.name) && Truthy(b.email) && Truthy(b.username) && Truthy(b.password)
    ensures !Truthy(b.name) ==> r == Stop(BadRequest(NameRequired))
    ensures Truthy(b.name) && !Truthy(b.email) ==> r == Stop(BadRequest(EmailRequired))
    ensures Truthy(b.name) && Truthy(b.email) && !Truthy(b.username) ==> r == Stop(BadRequest(UsernameRequired))
    ensures Truthy(b.name) && Truthy(b.email) && Truthy(b.username) && !Truthy(b.password) ==> r == Stop(BadRequest(PasswordRequired))
  {
    if !Truthy(b.name) then Stop(BadRequest(NameRequired))
    else if !Truthy(b.email) then Stop(BadRequest(EmailRequired))
    else if !Truthy(b.username) then Stop(BadRequest(UsernameRequired))
    else if !Truthy(b.password) then Stop(BadRequest(PasswordRequired))
    else Next
  }

  /** Every field a string; otherwise the first that is not, in the same order. */
  function ValidateTypes(b: Body): (r: Step)
    ensures r.Next? <==> IsString(b.name) && IsString(b.email) && IsString(b.username) && IsString(b.password)
    ensures !IsString(b.name) ==> r == Stop(BadRequest(NameNotText))
    ensures IsString(b.name) && !IsString(b.email) ==> r == Stop(BadRequest(EmailNotText))
    ensures IsString(b.name) && IsString(b.email) && !IsString(b.username) ==> r == Stop(BadRequest(UsernameNotText))
    ensures IsString(b.name) && IsString(b.email) && IsString(b.username) && !IsString(b.password) ==> r == Stop(BadRequest(PasswordNotText))
  {
    if !IsString(b.name) then Stop(BadRequest(NameNotText))
    else if !IsString(b.email) then Stop(BadRequest(EmailNotText))
    else if !IsString(b.username) then Stop(BadRequest(UsernameNotText))
    else if !IsString(b.password) then Stop(BadRequest(PasswordNotText))
    else Next
  }

  /** An e-mail address as the data step accepts it: one containing both "@" and ".com". */
  predicate EmailShaped(email: string) {
    Contains(email, "@") && Contains(email, ".com")
  }

  /**
   * The content checks, on the strings the types step let through: a name of
   * at least 3 characters, an e-mail with "@" and ".com", a username and a
   * password of at least 5; the first failing check decides the response.
   */
  function ValidateData(name: string, email: string, username: string, password: string): (r: Step)
    ensures r.Next? <==> |name| >= 3 && EmailShaped(email) && |username| >= 5 && |password| >= 5
    ensures |name| < 3 ==> r == Stop(BadRequest(NameTooShort))
    ensures |name| >= 3 && !EmailShaped(email) ==> r == Stop(BadRequest(EmailMalformed))
    ensures |name| >= 3 && EmailShaped(email) && |username| < 5 ==> r == Stop(BadRequest(UsernameTooShort))
    ensures |name| >= 3 && EmailShaped(email) && |username| >= 5 && |password| < 5 ==> r == Stop(BadRequest(PasswordTooShort))
  {
    if |name| < 3 then Stop(BadRequest(NameTooShort))
    else if !Contains(email, "@") || !Contains(email, ".com") then Stop(BadRequest(EmailMalformed))
    else if |username| < 5 then Stop(BadRequest(UsernameTooShort))
    else if |password| < 5 then Stop(BadRequest(PasswordTooShort))
    else Next
  }

  /** A registration body the controller may use: four strings meeting the length and e-mail rules. */
  predicate WellFormed(b: Body) {
    && b.name.Str? && |b.name.s| >= 3
    && b.email.Str? && EmailShaped(b.email.s)
    && b.username.Str? && |b.username.s| >= 5
    && b.password.Str? && |b.password.s| >= 5
  }

  /**
   * The middleware array of `POST /users`: required, then types, then data.
   * It reaches the controller exactly for well-formed bodies.
   */
  function Route(b: Body): (r: Step)
    ensures r.Next? <==> WellFormed(b)
    ensures r.Stop? ==> r.response.status == 400
  {
    EmailShapedIsNotEmpty(b.email);
    var required := ValidateRequired(b);
    if required.Stop? then required
    else
      var types := ValidateTypes(b);
      if types.Stop? then types
      else ValidateData(b.name.s, b.email.s, b.username.s, b.password.s)
  }

  /** An e-mail with an "@" in it is not empty, so it is truthy. */
  lemma EmailShapedIsNotEmpty(email: JsValue)
    ensures email.Str? && EmailShaped(email.s) ==> Truthy(email)
  {
    if email.Str? && EmailShaped(email.s) {
      var i :| 0 <= i <= |email.s| && OccursAt(email.s, "@", i);
      assert |email.s| > 0;
    }
  }
}
