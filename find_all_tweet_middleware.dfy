/** The query check of the tweet listing and of the feed. */
module FindAllTweetMiddleware {
  import Text
  import opened JsValues
  import opened Express

  /** The message names the rejected value as `String(type)` renders it. */
  function InvalidType(kind: JsValue): string {
    "Tipo inválido fornecido: " + ToJsString(kind) + ". Apenas o tipo 'Tweet' é permitido."
  }

  /** `!type || type === 'Tweet'`: an absent type or the exact string "Tweet" passes. */
  function ValidateTypes(kind: JsValue): (r: Step)
    ensures r.Next? <==> !Truthy(kind) || kind == Str("Tweet")
    ensures r.Stop? ==> r.response == BadRequest(InvalidType(kind))
  {
    if !(!Truthy(kind) || kind == Str("Tweet")) then Stop(BadRequest(InvalidType(kind))) else Next
  }

  /** The rejection message includes the rejected value; "Reply" is rejected. */
  lemma MessageNamesType(kind: JsValue)
    ensures Text.Contains(InvalidType(kind), ToJsString(kind))
    ensures ValidateTypes(Str("Reply")).Stop?
  {
    var pre := "Tipo inválido fornecido: ";
    var post := ". Apenas o tipo 'Tweet' é permitido.";
    var t := ToJsString(kind);
    assert Text.OccursAt(t, t, 0);
    Text.ContainsExtend(pre, t, post, t);
    assert Str("Reply") != Str("Tweet") by { assert "Reply"[0] != "Tweet"[0]; }
  }
}
