/** The like service: one like per user and tweet, created and removed by its owner. */
module LikeService {
  import opened Wrappers
  import opened Entities
  import opened Tables
  import opened Store

  const CreateForbidden := "Acesso negado: você não tem permissão para curtir este tweet em nome de outro usuário."
  const UserNotFound := "Usuário não encontrado!"
  const TweetNotFound := "Tweet não encontrado!"
  const AlreadyLiked := "Like já existe. Use a função de descurtir para remover."
  const Created := "Like criado com sucesso!"
  const NotFound := "Like a ser deletado não encontrado ou não pertence ao usuário autenticado!"
  const Removed := "Like deletado com sucesso!"

  datatype LikeDto = LikeDto(id: string, userId: string, tweetId: string, createdAt: nat, liked: bool, likeCount: nat)

  /** `mapToDto`: `liked` defaults to false and `likeCount` to 0. */
  function ToDto(l: Like, liked: Option<bool>, likeCount: Option<nat>): (r: LikeDto)
    ensures r.id == l.id && r.userId == l.userId && r.tweetId == l.tweetId && r.createdAt == l.createdAt
    ensures r.liked <==> liked == Some(true)
    ensures likeCount.None? ==> r.likeCount == 0
    ensures likeCount.Some? ==> r.likeCount == likeCount.value
  {
    LikeDto(l.id, l.userId, l.tweetId, l.createdAt, liked.GetOr(false), likeCount.GetOr(0))
  }

  /** Whether `userId` already likes `tweetId`. */
  predicate Likes(likes: seq<Like>, userId: string, tweetId: string) {
    exists l | l in likes :: l.userId == userId && l.tweetId == tweetId
  }

  /**
   * `create`: the caller likes as themself, for an existing user and tweet,
   * at most once; the count returned is the tweet's likes after the insert.
   */
  method Create(db: Db, tokenUser: string, userId: string, tweetId: string, newId: string, now: nat)
    returns (r: ApiResult<LikeDto>)
    requires db.Valid()
    requires forall l | l in db.likes :: l.id != newId
    modifies db`likes
    ensures db.Valid()
    ensures !r.success ==> db.likes == old(db.likes)
    ensures tokenUser != userId ==> r == Fail(403, CreateForbidden)
    ensures tokenUser == userId && UserById(db.users, userId).None? ==> r == Fail(404, UserNotFound)
    ensures tokenUser == userId && UserById(db.users, userId).Some? && TweetById(db.tweets, tweetId).None? ==>
      r == Fail(404, TweetNotFound)
    ensures tokenUser == userId && UserById(db.users, userId).Some? && TweetById(db.tweets, tweetId).Some?
            && Likes(old(db.likes), userId, tweetId) ==>
      r == Fail(409, AlreadyLiked)
    ensures r.success <==>
      tokenUser == userId && UserById(db.users, userId).Some? && TweetById(db.tweets, tweetId).Some?
      && !Likes(old(db.likes), userId, tweetId)
    ensures r.success ==>
      var l := Like(newId, userId, tweetId, now);
      && db.likes == old(db.likes) + [l]
      && r == Done(201, Created, ToDto(l, Some(true), Some(|LikesOf(db.likes, tweetId)|)))
      && r.data.value.likeCount == |LikesOf(old(db.likes), tweetId)| + 1
  {
    if tokenUser != userId {
      return Fail(403, CreateForbidden);
    }
    var userExist := UserById(db.users, userId);
    var tweetExist := TweetById(db.tweets, tweetId);
    if userExist.None? || tweetExist.None? {
      return Fail(404, if userExist.None? then UserNotFound else TweetNotFound);
    }
    if FindFirst(db.likes, (x: Like) => x.userId == userId && x.tweetId == tweetId).Some? {
      return Fail(409, AlreadyLiked);
    }
    var l := Like(newId, userId, tweetId, now);
    UniqueByAppend(db.likes, l, LikeKey);
    UniqueByAppend(db.likes, l, LikePair);
    LikesOfConcat(db.likes, [l], tweetId);
    db.likes := db.likes + [l];
    var likeCount := |LikesOf(db.likes, tweetId)|;
    r := Done(201, Created, ToDto(l, Some(true), Some(likeCount)));
  }

  /**
   * `remove`: only the caller's own like is deleted, exactly that row; the
   * count returned is what remains on its tweet.
   */
  method Remove(db: Db, tokenUser: string, id: string) returns (r: ApiResult<LikeDto>)
    requires db.Valid()
    modifies db`likes
    ensures db.Valid()
    ensures r.success <==> exists l | l in old(db.likes) :: l.id == id && l.userId == tokenUser
    ensures !r.success ==> r == Fail(404, NotFound) && db.likes == old(db.likes)
    ensures r.success ==>
      exists i | 0 <= i < |old(db.likes)| ::
        var l := old(db.likes)[i];
        && l.id == id && l.userId == tokenUser
        && db.likes == old(db.likes)[..i] + old(db.likes)[i + 1..]
        && r == Done(200, Removed, ToDto(l, Some(false), Some(|LikesOf(db.likes, l.tweetId)|)))
        && |LikesOf(db.likes, l.tweetId)| + 1 == |LikesOf(old(db.likes), l.tweetId)|
  {
    var likeFound := FindFirst(db.likes, (x: Like) => x.id == id && x.userId == tokenUser);
    if likeFound.None? {
      return Fail(404, NotFound);
    }
    var l := likeFound.value;
    var i := PositionOf(db.likes, l);
    RemoveUniqueKey(db.likes, LikeKey, i);
    UniqueByRemove(db.likes, LikeKey, LikeKey, id);
    UniqueByRemove(db.likes, LikePair, LikeKey, id);
    LikesOfRemoveAt(db.likes, i);
    db.likes := RemoveKey(db.likes, LikeKey, id);
    var likeCount := |LikesOf(db.likes, l.tweetId)|;
    r := Done(200, Removed, ToDto(l, Some(false), Some(likeCount)));
    assert old(db.likes)[i] == l;
  }
}
