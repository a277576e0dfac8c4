/** The user service: unique e-mails, hashed passwords, and self-only access by id. */
module UserService {
  import opened Wrappers
  import opened Entities
  import opened Tables
  import opened Text
  import opened Store

  const EmailInUse := "O e-mail já está em uso !"
  const Created := "Usuário criado com sucesso !"
  const Listed := "Usuários buscado com sucesso !"
  const ReadForbidden := "Acesso negado: você não tem permissão para acessar este usuario."
  const ReadNotFound := "Usuário a ser buscado não encontrado!"
  const Found := "Usuário buscado pelo id com sucesso!"
  const UpdateForbidden := "Acesso negado: você não tem permissão para atualizar este usuario."
  const UpdateNotFound := "Usuário a ser atualizado não encontrado !"
  const Updated := "Usuário atualizado com sucesso !"
  const RemoveForbidden := "Acesso negado: você não tem permissão para deletar este usuario."
  const RemoveNotFound := "Usuario a ser deletado não encontrado !"
  const Removed := "Usuário deletado com sucesso !"

  /** The user as the API shows it: never the password. */
  datatype UserDto = UserDto(id: string, name: string, email: string, username: string, createdAt: nat)

  /** `mapToDto` on the row's own columns. */
  function ToDto(u: User): (r: UserDto)
    ensures r.id == u.id && r.name == u.name && r.email == u.email && r.username == u.username
    ensures r.createdAt == u.createdAt
  {
    UserDto(u.id, u.name, u.email, u.username, u.createdAt)
  }

  /** The fields an update may carry; `Some` means the key is present in the body. */
  datatype UpdateUserDto = UpdateUserDto(name: Option<string>, username: Option<string>, password: Option<string>)

  /**
   * `create`: an e-mail already in use is a 409; otherwise one user is
   * added whose stored password is the hash of the one given.
   */
  method Create(db: Db, name: string, email: string, username: string, password: string,
                hash: string -> string, newId: string, now: nat)
    returns (r: ApiResult<UserDto>)
    requires db.Valid()
    requires forall u | u in db.users :: u.id != newId
    modifies db`users
    ensures db.Valid()
    ensures r.success <==> forall u | u in old(db.users) :: u.email != email
    ensures !r.success ==> r == Fail(409, EmailInUse) && db.users == old(db.users)
    ensures r.success ==>
      var u := User(newId, name, email, username, hash(password), now);
      db.users == old(db.users) + [u] && r == Done(201, Created, ToDto(u))
  {
    if UserByEmail(db.users, email).Some? {
      return Fail(409, EmailInUse);
    }
    var u := User(newId, name, email, username, hash(password), now);
    UniqueByAppend(db.users, u, UserKey);
    UniqueByAppend(db.users, u, UserEmail);
    db.users := db.users + [u];
    r := Done(201, Created, ToDto(u));
  }

  /** The `where` of `findAll`: a missing or empty e-mail selects everyone, any other selects by substring. */
  function Matching(users: seq<User>, email: Option<string>): (r: seq<User>)
    ensures email.None? || email.value == "" ==> r == users
    ensures email.Some? && email.value != "" ==>
      && (forall u | u in r :: u in users && Contains(u.email, email.value))
      && (forall u | u in users && Contains(u.email, email.value) :: u in r)
    ensures SubsequenceOf(r, users)
  {
    if email.None? || email.value == "" then
      SubsequenceOfSelf(users);
      users
    else
      FilterIsSubsequence(users, (u: User) => Contains(u.email, email.value));
      Filter(users, (u: User) => Contains(u.email, email.value))
  }

  /** `findAll`: the matching users in table order, without passwords. */
  function FindAll(users: seq<User>, email: Option<string>): (r: ApiResult<seq<UserDto>>)
    ensures r.success && r.code == 200 && r.message == Listed && r.data.Some?
    ensures |r.data.value| == |Matching(users, email)|
    ensures forall i | 0 <= i < |r.data.value| :: r.data.value[i] == ToDto(Matching(users, email)[i])
  {
    var m := Matching(users, email);
    Done(200, Listed, seq(|m|, i requires 0 <= i < |m| => ToDto(m[i])))
  }

  /** `findOneById`: only one's own user, checked before the lookup. */
  function FindOneById(users: seq<User>, id: string, tokenUser: string): (r: ApiResult<UserDto>)
    ensures id != tokenUser ==> r == Fail(403, ReadForbidden)
    ensures id == tokenUser && (forall u | u in users :: u.id != id) ==> r == Fail(404, ReadNotFound)
    ensures r.success <==> id == tokenUser && exists u | u in users :: u.id == id
    ensures r.success ==>
      r.code == 200 && r.message == Found && r.data.Some?
      && exists u | u in users :: u.id == id && r.data.value == ToDto(u)
  {
    if id != tokenUser then Fail(403, ReadForbidden)
    else match UserById(users, id)
      case None => Fail(404, ReadNotFound)
      case Some(u) => Done(200, Found, ToDto(u))
  }

  /**
   * The row `update` writes as the code stands: every present field is
   * copied, and the password is replaced by its hash only when it is a
   * non-empty string, so an empty one is stored as it is.
   */
  function AsWrittenUpdatedRow(u: User, dto: UpdateUserDto, hash: string -> string): (r: User)
    ensures r.id == u.id && r.email == u.email && r.createdAt == u.createdAt
    ensures r.name == dto.name.GetOr(u.name) && r.username == dto.username.GetOr(u.username)
    ensures dto.password.Some? && dto.password.value != "" ==> r.password == hash(dto.password.value)
    ensures dto.password.None? ==> r.password == u.password
    ensures dto.password == Some("") ==> r.password == ""
  {
    var password :=
      if dto.password.Some? && dto.password.value != "" then hash(dto.password.value)
      else dto.password.GetOr(u.password);
    u.(name := dto.name.GetOr(u.name), username := dto.username.GetOr(u.username), password := password)
  }

  /** What the stored password may be after an update: the old one, or the hash of the one supplied. */
  predicate PasswordProtected(before: User, after: User, dto: UpdateUserDto, hash: string -> string) {
    after.password == before.password || (dto.password.Some? && after.password == hash(dto.password.value))
  }

  /** As written, an empty password (which the update validators let through as absent) replaces a stored hash by plain text. */
  lemma AsWrittenStoresEmptyPassword(u: User, hash: string -> string)
    requires u.password != "" && hash("") != ""
    ensures !PasswordProtected(u, AsWrittenUpdatedRow(u, UpdateUserDto(None, None, Some("")), hash),
                               UpdateUserDto(None, None, Some("")), hash)
  {
  }

  /** The corrected row: an empty password is treated as absent, like the validators treat it. */
  function UpdatedRow(u: User, dto: UpdateUserDto, hash: string -> string): (r: User)
    ensures r.id == u.id && r.email == u.email && r.createdAt == u.createdAt
    ensures r.name == dto.name.GetOr(u.name) && r.username == dto.username.GetOr(u.username)
    ensures PasswordProtected(u, r, dto, hash)
    ensures dto.password.Some? && dto.password.value != "" ==> r.password == hash(dto.password.value)
    ensures dto.password.None? || dto.password == Some("") ==> r.password == u.password
  {
    var password :=
      if dto.password.Some? && dto.password.value != "" then hash(dto.password.value) else u.password;
    u.(name := dto.name.GetOr(u.name), username := dto.username.GetOr(u.username), password := password)
  }

  /** The two agree on every update that does not carry an empty password. */
  lemma UpdatedRowAgreesExceptEmptyPassword(u: User, dto: UpdateUserDto, hash: string -> string)
    requires dto.password != Some("")
    ensures UpdatedRow(u, dto, hash) == AsWrittenUpdatedRow(u, dto, hash)
  {
  }

  /**
   * `update`: only oneself, only an existing row, and only that row changes,
   * to the row the code writes (an empty password included).
   */
  method Update(db: Db, id: string, tokenUser: string, dto: UpdateUserDto, hash: string -> string)
    returns (r: ApiResult<UserDto>)
    requires db.Valid()
    modifies db`users
    ensures db.Valid()
    ensures id != tokenUser ==> r == Fail(403, UpdateForbidden)
    ensures id == tokenUser && (forall u | u in old(db.users) :: u.id != id) ==> r == Fail(404, UpdateNotFound)
    ensures !r.success ==> db.users == old(db.users)
    ensures r.success <==> id == tokenUser && exists u | u in old(db.users) :: u.id == id
    ensures r.success ==>
      exists i | 0 <= i < |old(db.users)| ::
        && old(db.users)[i].id == id
        && db.users == old(db.users)[i := AsWrittenUpdatedRow(old(db.users)[i], dto, hash)]
        && r == Done(200, Updated, ToDto(AsWrittenUpdatedRow(old(db.users)[i], dto, hash)))
  {
    if id != tokenUser {
      return Fail(403, UpdateForbidden);
    }
    var found := UserById(db.users, id);
    if found.None? {
      return Fail(404, UpdateNotFound);
    }
    ghost var i := PositionOf(db.users, found.value);
    var row := AsWrittenUpdatedRow(found.value, dto, hash);
    var users := db.users;
    var updated := seq(|users|, j requires 0 <= j < |users| =>
      if users[j].id == id then AsWrittenUpdatedRow(users[j], dto, hash) else users[j]);
    assert updated == users[i := row] by {
      forall j | 0 <= j < |users| && j != i
        ensures users[j].id != id
      {
        if j < i { assert UserKey(users[j]) != UserKey(users[i]); }
        else { assert UserKey(users[i]) != UserKey(users[j]); }
      }
    }
    UniqueBySameKeys(db.users, updated, UserKey);
    UniqueBySameKeys(db.users, updated, UserEmail);
    db.users := updated;
    r := Done(200, Updated, ToDto(row));
  }

  /** `remove`: only oneself; exactly that row is deleted and returned. */
  method Remove(db: Db, id: string, tokenUser: string) returns (r: ApiResult<UserDto>)
    requires db.Valid()
    modifies db`users
    ensures db.Valid()
    ensures id != tokenUser ==> r == Fail(403, RemoveForbidden)
    ensures id == tokenUser && (forall u | u in old(db.users) :: u.id != id) ==> r == Fail(404, RemoveNotFound)
    ensures !r.success ==> db.users == old(db.users)
    ensures r.success <==> id == tokenUser && exists u | u in old(db.users) :: u.id == id
    ensures r.success ==>
      exists i | 0 <= i < |old(db.users)| ::
        && old(db.users)[i].id == id
        && db.users == old(db.users)[..i] + old(db.users)[i + 1..]
        && r == Done(200, Removed, ToDto(old(db.users)[i]))
  {
    if id != tokenUser {
      return Fail(403, RemoveForbidden);
    }
    var found := UserById(db.users, id);
    if found.None? {
      return Fail(404, RemoveNotFound);
    }
    var i := PositionOf(db.users, found.value);
    RemoveUniqueKey(db.users, UserKey, i);
    UniqueByRemove(db.users, UserKey, UserKey, id);
    UniqueByRemove(db.users, UserEmail, UserKey, id);
    db.users := RemoveKey(db.users, UserKey, id);
    r := Done(200, Removed, ToDto(found.value));
    assert old(db.users)[i] == found.value;
  }
}
