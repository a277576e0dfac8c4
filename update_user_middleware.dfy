/** The validation steps of a profile update: every field optional. */
module UpdateUserMiddleware {
  import opened JsValues
  import opened Express

  datatype Body = Body(name: JsValue, username: JsValue, password: JsValue)

  const NameNotText := "O atributo nome deve vir em formato de texto !"
  const UsernameNotText := "O atributo username deve vir em formato de texto !"
  const PasswordNotText := "O atributo senha deve vir em formato de texto !"
  const NameTooShort := "O atributo nome deve ter pelo menos 3 caracteres !"
  const UsernameTooShort := "O atributo username deve ter pelo menos 5 caracteres !"
  const PasswordTooShort := "O atributo senha deve ter pelo menos 5 caracteres !"

  /** A field the checks skip (falsy) or a string. */
  predicate AbsentOrText(v: JsValue) {
    !Truthy(v) || IsString(v)
  }

  /** A present (truthy) field must be a string; absent fields are not checked. */
  function ValidateTypes(b: Body): (r: Step)
    ensures r.Next? <==> AbsentOrText(b.name) && AbsentOrText(b.username) && AbsentOrText(b.password)
    ensures !AbsentOrText(b.name) ==> r == Stop(BadRequest(NameNotText))
    ensures AbsentOrText(b.name) && !AbsentOrText(b.username) ==> r == Stop(BadRequest(UsernameNotText))
    ensures AbsentOrText(b.name) && AbsentOrText(b.username) && !AbsentOrText(b.password) ==> r == Stop(BadRequest(PasswordNotText))
  {
    if Truthy(b.name) && !IsString(b.name) then Stop(BadRequest(NameNotText))
    else if Truthy(b.username) && !IsString(b.username) then Stop(BadRequest(UsernameNotText))
    else if Truthy(b.password) && !IsString(b.password) then Stop(BadRequest(PasswordNotText))
    else Next
  }

  /** A present field is long enough: at least `min` characters. */
  predicate AbsentOrLong(v: JsValue, min: nat)
    requires AbsentOrText(v)
  {
    !Truthy(v) || |v.s| >= min
  }

  /** A present name needs 3 characters, a present username or password 5; the first short one decides. */
  function ValidateData(b: Body): (r: Step)
    requires AbsentOrText(b.name) && AbsentOrText(b.username) && AbsentOrText(b.password)
    ensures r.Next? <==> AbsentOrLong(b.name, 3) && AbsentOrLong(b.username, 5) && AbsentOrLong(b.password, 5)
    ensures !AbsentOrLong(b.name, 3) ==> r == Stop(BadRequest(NameTooShort))
    ensures AbsentOrLong(b.name, 3) && !AbsentOrLong(b.username, 5) ==> r == Stop(BadRequest(UsernameTooShort))
    ensures AbsentOrLong(b.name, 3) && AbsentOrLong(b.username, 5) && !AbsentOrLong(b.password, 5) ==> r == Stop(BadRequest(PasswordTooShort))
  {
    if Truthy(b.name) && |b.name.s| < 3 then Stop(BadRequest(NameTooShort))
    else if Truthy(b.username) && |b.username.s| < 5 then Stop(BadRequest(UsernameTooShort))
    else if Truthy(b.password) && |b.password.s| < 5 then Stop(BadRequest(PasswordTooShort))
    else Next
  }

  /** A field the route lets through: falsy, or a string of at least `min` characters. */
  predicate Acceptable(v: JsValue, min: nat) {
    !Truthy(v) || (v.Str? && |v.s| >= min)
  }

  /** The two steps as the route runs them. */
  function Route(b: Body): (r: Step)
    ensures r.Next? <==> Acceptable(b.name, 3) && Acceptable(b.username, 5) && Acceptable(b.password, 5)
    ensures r.Stop? ==> r.response.status == 400
  {
    var types := ValidateTypes(b);
    if types.Stop? then types else ValidateData(b)
  }

  /** A body with no fields at all passes: an update may change nothing. */
  lemma EmptyBodyPasses()
    ensures Route(Body(Undefined, Undefined, Undefined)) == Next
  {
  }
}
