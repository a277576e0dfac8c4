/** The three validation steps of following a user. */
module CreateFollowerMiddleware {
  import opened JsValues
  import opened Uuid
  import opened Express

  datatype Body = Body(userId: JsValue, followerId: JsValue)

  const UserIdRequired := "O atributo userId é obrigatório !"
  const FollowerIdRequired := "O atributo followerId é obrigatório !"
  const UserIdNotText := "O atributo userId deve vir em formato de texto !"
  const FollowerIdNotText := "O atributo followerId deve vir em formato de texto !"
  const UserIdNotUuid := "Identificador do userId precisa ser um UUID !"
  const FollowerIdNotUuid := "Identificador do followerId precisa ser um UUID !"

  /** userId, then followerId, present. */
  function ValidateRequired(b: Body): (r: Step)
    ensures r.Next? <==> Truthy(b.userId) && Truthy(b.followerId)
    ensures !Truthy(b.userId) ==> r == Stop(BadRequest(UserIdRequired))
    ensures Truthy(b.userId) && !Truthy(b.followerId) ==> r == Stop(BadRequest(FollowerIdRequired))
  {
    if !Truthy(b.userId) then Stop(BadRequest(UserIdRequired))
    else if !Truthy(b.followerId) then Stop(BadRequest(FollowerIdRequired))
    else Next
  }

  /** userId, then followerId, are strings. */
  function ValidateTypes(b: Body): (r: Step)
    ensures r.Next? <==> IsString(b.userId) && IsString(b.followerId)
    ensures !IsString(b.userId) ==> r == Stop(BadRequest(UserIdNotText))
    ensures IsString(b.userId) && !IsString(b.followerId) ==> r == Stop(BadRequest(FollowerIdNotText))
  {
    if !IsString(b.userId) then Stop(BadRequest(UserIdNotText))
    else if !IsString(b.followerId) then Stop(BadRequest(FollowerIdNotText))
    else Next
  }

  /** userId, then followerId, shaped as UUIDs. */
  function ValidateData(userId: string, followerId: string): (r: Step)
    ensures r.Next? <==> IsUuid(userId) && IsUuid(followerId)
    ensures !IsUuid(userId) ==> r == Stop(BadRequest(UserIdNotUuid))
    ensures IsUuid(userId) && !IsUuid(followerId) ==> r == Stop(BadRequest(FollowerIdNotUuid))
  {
    if !IsUuid(userId) then Stop(BadRequest(UserIdNotUuid))
    else if !IsUuid(followerId) then Stop(BadRequest(FollowerIdNotUuid))
    else Next
  }

  /** The middleware array of `POST /followers`. */
  function Route(b: Body): (r: Step)
    ensures r.Next? <==> b.userId.Str? && IsUuid(b.userId.s) && b.followerId.Str? && IsUuid(b.followerId.s)
    ensures r.Stop? ==> r.response.status == 400
  {
    var required := ValidateRequired(b);
    if required.Stop? then required
    else
      var types := ValidateTypes(b);
      if types.Stop? then types else ValidateData(b.userId.s, b.followerId.s)
  }
}
