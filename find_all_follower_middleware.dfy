/** The query checks of the follower listing. */
module FindAllFollowerMiddleware {
  import opened JsValues
  import opened Uuid
  import opened Express

  const UserIdNotText := "O atributo userId deve vir em formato de texto !"
  const FollowerIdNotText := "O atributo followerId deve vir em formato de texto !"
  const UserIdNotUuid := "O atributo userId deve ser um UUID !"
  const FollowerIdNotUuid := "O atributo followerId deve ser um UUID !"

  predicate Objectionable(v: JsValue) {
    Truthy(v) && !IsString(v)
  }

  /**
   * Writes a 400 for each present non-string parameter without returning;
   * `next()` runs unless both were objectionable, in which case the second
   * write raises inside Express first.
   */
  function ValidateTypes(userId: JsValue, followerId: JsValue): (r: Effects)
    ensures |r.attempts| == (if Objectionable(userId) then 1 else 0) + (if Objectionable(followerId) then 1 else 0)
    ensures r.callsNext <==> |r.attempts| < 2
    ensures (|r.attempts| > 0 && r.attempts[0] == BadRequest(UserIdNotText)) <==> Objectionable(userId)
    ensures (BadRequest(FollowerIdNotText) in r.attempts) <==> Objectionable(followerId)
    ensures !Objectionable(userId) && !Objectionable(followerId) ==> r == Effects([], true)
  {
    var first := if Objectionable(userId) then [BadRequest(UserIdNotText)] else [];
    var second := if Objectionable(followerId) then [BadRequest(FollowerIdNotText)] else [];
    assert UserIdNotText != FollowerIdNotText by { assert UserIdNotText[13] != FollowerIdNotText[13]; }
    var attempts := first + second;
    Effects(attempts, |attempts| < 2)
  }

  /** `regexUuid.test(v)`, which first converts `v` with `String(v)`. */
  predicate UuidTest(v: JsValue) {
    IsUuid(ToJsString(v))
  }

  /** A present userId, then a present followerId, must pass the UUID test; this step returns after a 400. */
  function ValidateData(userId: JsValue, followerId: JsValue): (r: Step)
    ensures r.Next? <==> (!Truthy(userId) || UuidTest(userId)) && (!Truthy(followerId) || UuidTest(followerId))
    ensures Truthy(userId) && !UuidTest(userId) ==> r == Stop(BadRequest(UserIdNotUuid))
    ensures (!Truthy(userId) || UuidTest(userId)) && Truthy(followerId) && !UuidTest(followerId) ==> r == Stop(BadRequest(FollowerIdNotUuid))
  {
    if Truthy(userId) && !UuidTest(userId) then Stop(BadRequest(UserIdNotUuid))
    else if Truthy(followerId) && !UuidTest(followerId) then Stop(BadRequest(FollowerIdNotUuid))
    else Next
  }

  /** No query parameters: nothing written, `next()` called by both steps. */
  lemma AbsentIdsPass()
    ensures ValidateTypes(Undefined, Undefined) == Effects([], true)
    ensures ValidateData(Undefined, Undefined) == Next
  {
  }

  /**
   * A parameter repeated as an array of one UUID makes the types step write
   * a 400 and continue, and the data step then accepts it, since converting
   * the array gives back the UUID.
   */
  lemma SingletonArrayPassesData(u: string)
    requires IsUuid(u)
    ensures ValidateTypes(Arr([Str(u)]), Undefined) == Effects([BadRequest(UserIdNotText)], true)
    ensures ValidateData(Arr([Str(u)]), Undefined) == Next
  {
    SingletonArrayString(u);
  }

  /** Two values for one parameter convert to a comma-joined string, which is never a UUID. */
  lemma PairArrayFailsData(a: string, b: string)
    ensures ValidateData(Arr([Str(a), Str(b)]), Undefined) == Stop(BadRequest(UserIdNotUuid))
  {
    PairArrayString(a, b);
    assert ',' in a + "," + b;
  }

  /**
   * The listing's chain `[validateTypes, validateData]`. The data step runs
   * only when the types step reached `next()`; a 400 it writes after one the
   * types step already wrote is a second write, which raises.
   */
  function Route(userId: JsValue, followerId: JsValue): (r: Effects)
    ensures r.attempts == [] && r.callsNext <==> Clean(userId) && Clean(followerId)
    ensures r.callsNext ==> |r.attempts| <= 1
    ensures forall w | w in r.attempts :: w.status == 400
  {
    var types := ValidateTypes(userId, followerId);
    if !types.callsNext then types
    else match ValidateData(userId, followerId)
      case Next => types
      case Stop(w) => Effects(types.attempts + [w], false)
  }

  /** A parameter the chain lets through untouched: absent, or one UUID string. */
  predicate Clean(v: JsValue) {
    !Truthy(v) || (v.Str? && IsUuid(v.s))
  }
}
