/** The query check of the reply listing. */
module FindAllReplyMiddleware {
  import Text
  import opened JsValues
  import opened Express

  function InvalidType(kind: JsValue): string {
    "Tipo inválido fornecido: " + ToJsString(kind) + ". Apenas o tipo 'Reply' é permitido."
  }

  /** `!type || type === 'Reply'`: an absent type or the exact string "Reply" passes. */
  function ValidateTypes(kind: JsValue): (r: Step)
    ensures r.Next? <==> !Truthy(kind) || kind == Str("Reply")
    ensures r.Stop? ==> r.response == BadRequest(InvalidType(kind))
  {
    if !(!Truthy(kind) || kind == Str("Reply")) then Stop(BadRequest(InvalidType(kind))) else Next
  }

  /** The rejection message includes the rejected value; "Tweet" is rejected. */
  lemma MessageNamesType(kind: JsValue)
    ensures Text.Contains(InvalidType(kind), ToJsString(kind))
    ensures ValidateTypes(Str("Tweet")).Stop?
  {
    var pre := "Tipo inválido fornecido: ";
    var post := ". Apenas o tipo 'Reply' é permitido.";
    var t := ToJsString(kind);
    assert Text.OccursAt(t, t, 0);
    Text.ContainsExtend(pre, t, post, t);
    assert Str("Tweet") != Str("Reply") by { assert "Tweet"[0] != "Reply"[0]; }
  }
}
