/** The follower service: follow edges between two distinct existing users, one per ordered pair. */
module FollowerService {
  import opened Wrappers
  import opened Entities
  import opened Tables
  import opened Store

  const FollowedNotFound := "Usuário a ser seguido não encontrado!"
  const FollowerNotFound := "Usuário seguidor não encontrado!"
  const SelfFollow := "Você não pode seguir a si mesmo!"
  const AlreadyFollowing := "Usuário já está seguindo este usuário!"
  const Created := "Seguidor criado com sucesso!"
  const NotFound := "Seguidor a ser deletado não encontrado !"
  const Removed := "Seguidor deletado com sucesso !"

  datatype FollowerDto = FollowerDto(id: string, userId: string, followerId: string)

  /** `mapToDto`: the edge without its timestamp. */
  function ToDto(f: Follower): (r: FollowerDto)
    ensures r.id == f.id && r.userId == f.userId && r.followerId == f.followerId
  {
    FollowerDto(f.id, f.userId, f.followerId)
  }

  predicate HasEdge(followers: seq<Follower>, userId: string, followerId: string) {
    exists f | f in followers :: f.userId == userId && f.followerId == followerId
  }

  /**
   * `create`: both users must exist (the followed one is checked first), a
   * user cannot follow themself, and an edge is never duplicated.
   */
  method Create(db: Db, userId: string, followerId: string, newId: string, now: nat)
    returns (r: ApiResult<FollowerDto>)
    requires db.Valid()
    requires forall f | f in db.followers :: f.id != newId
    modifies db`followers
    ensures db.Valid()
    ensures !r.success ==> db.followers == old(db.followers)
    ensures UserById(db.users, userId).None? ==> r == Fail(404, FollowedNotFound)
    ensures UserById(db.users, userId).Some? && UserById(db.users, followerId).None? ==>
      r == Fail(404, FollowerNotFound)
    ensures UserById(db.users, userId).Some? && UserById(db.users, followerId).Some? && userId == followerId ==>
      r == Fail(400, SelfFollow)
    ensures UserById(db.users, userId).Some? && UserById(db.users, followerId).Some? && userId != followerId
            && HasEdge(old(db.followers), userId, followerId) ==>
      r == Fail(409, AlreadyFollowing)
    ensures r.success <==>
      UserById(db.users, userId).Some? && UserById(db.users, followerId).Some? && userId != followerId
      && !HasEdge(old(db.followers), userId, followerId)
    ensures r.success ==>
      var f := Follower(newId, userId, followerId, now);
      db.followers == old(db.followers) + [f] && r == Done(201, Created, ToDto(f))
  {
    var userExist := UserById(db.users, userId);
    var followerExist := UserById(db.users, followerId);
    if userExist.None? {
      return Fail(404, FollowedNotFound);
    }
    if followerExist.None? {
      return Fail(404, FollowerNotFound);
    }
    if userId == followerId {
      return Fail(400, SelfFollow);
    }
    if FindFirst(db.followers, (x: Follower) => x.userId == userId && x.followerId == followerId).Some? {
      return Fail(409, AlreadyFollowing);
    }
    var f := Follower(newId, userId, followerId, now);
    UniqueByAppend(db.followers, f, FollowerKey);
    UniqueByAppend(db.followers, f, FollowEdge);
    db.followers := db.followers + [f];
    r := Done(201, Created, ToDto(f));
  }

  /** `remove`: by id alone, with no ownership check; exactly that edge goes. */
  method Remove(db: Db, id: string) returns (r: ApiResult<FollowerDto>)
    requires db.Valid()
    modifies db`followers
    ensures db.Valid()
    ensures r.success <==> exists f | f in old(db.followers) :: f.id == id
    ensures !r.success ==> r == Fail(404, NotFound) && db.followers == old(db.followers)
    ensures r.success ==>
      exists i | 0 <= i < |old(db.followers)| ::
        && old(db.followers)[i].id == id
        && db.followers == old(db.followers)[..i] + old(db.followers)[i + 1..]
        && r == Done(200, Removed, ToDto(old(db.followers)[i]))
  {
    var found := FindFirst(db.followers, (x: Follower) => x.id == id);
    if found.None? {
      return Fail(404, NotFound);
    }
    var i := PositionOf(db.followers, found.value);
    RemoveUniqueKey(db.followers, FollowerKey, i);
    UniqueByRemove(db.followers, FollowerKey, FollowerKey, id);
    UniqueByRemove(db.followers, FollowEdge, FollowerKey, id);
    db.followers := RemoveKey(db.followers, FollowerKey, id);
    r := Done(200, Removed, ToDto(found.value));
    assert old(db.followers)[i] == found.value;
  }
}
