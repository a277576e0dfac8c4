/** The query check of the user listing. */
module FindAllUserMiddleware {
  import opened JsValues
  import opened Express

  const EmailNotText := "O atributo e-mail deve vir em formato de texto !"

  /**
   * A present `email` query parameter that is not a string, or is an array,
   * is rejected. Since an array is never of type string, the array test adds
   * nothing: exactly the absent and the string values pass.
   */
  function ValidateTypes(email: JsValue): (r: Step)
    ensures r.Next? <==> !Truthy(email) || email.Str?
    ensures r.Stop? ==> r.response == BadRequest(EmailNotText)
  {
    if Truthy(email) && (!IsString(email) || email.Arr?) then Stop(BadRequest(EmailNotText)) else Next
  }

  /** A repeated parameter (`?email=a&email=b`, which arrives as an array) is rejected. */
  lemma RepeatedEmailRejected(a: string, b: string)
    ensures ValidateTypes(Arr([Str(a), Str(b)])) == Stop(BadRequest(EmailNotText))
  {
  }
}
