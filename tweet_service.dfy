/** The tweet service: owner-scoped create, read, update and delete of tweets. */
module TweetService {
  import opened Wrappers
  import opened Entities
  import opened Tables
  import opened Store

  const CreateForbidden := "Acesso negado: você não tem permissão para criar um tweet."
  const UserNotFound := "Usuário não encontrado!"
  const Created := "Tweet criado com sucesso !"
  const Listed := "Tweets buscados com sucesso!"
  const ReadForbidden := "Acesso negado: você não tem permissão para acessar este tweet !"
  const Found := "Tweets buscados pelo ID com sucesso!"
  const UpdateForbidden := "Acesso negado: você não tem permissão para atualizar este tweet."
  const Updated := "Tweet atualizado com sucesso!"
  const RemoveForbidden := "Acesso negado: você não tem permissão para deletar este tweet."
  const Removed := "Tweet deletado com sucesso!"

  datatype TweetDto = TweetDto(
    id: string, content: string, kind: TypeTweet, userId: string, createdAt: nat,
    likeCount: nat, likedByCurrentUser: bool,
    like: Option<seq<Like>>, reply: Option<seq<Reply>>)

  /** `mapToDto`: the row's columns, with a count and a flag that default to 0 and false when not supplied. */
  function ToDto(t: Tweet, likeCount: Option<nat>, likedByCurrentUser: Option<bool>,
                 like: Option<seq<Like>>, reply: Option<seq<Reply>>): (r: TweetDto)
    ensures r.id == t.id && r.content == t.content && r.kind == t.kind
    ensures r.userId == t.userId && r.createdAt == t.createdAt
    ensures likeCount.None? ==> r.likeCount == 0
    ensures likeCount.Some? ==> r.likeCount == likeCount.value
    ensures r.likedByCurrentUser <==> likedByCurrentUser == Some(true)
    ensures r.like == like && r.reply == reply
  {
    TweetDto(t.id, t.content, t.kind, t.userId, t.createdAt,
             likeCount.GetOr(0), likedByCurrentUser.GetOr(false), like, reply)
  }

  /** `create`: the caller may only post as themself, and only for an existing user. */
  method Create(db: Db, content: string, kind: TypeTweet, userId: string, authUser: AuthUser, newId: string, now: nat)
    returns (r: ApiResult<TweetDto>)
    requires db.Valid()
    requires forall t | t in db.tweets :: t.id != newId
    modifies db`tweets
    ensures db.Valid()
    ensures userId != authUser.id ==> r == Fail(403, CreateForbidden) && db.tweets == old(db.tweets)
    ensures userId == authUser.id && UserById(db.users, userId).None? ==>
      r == Fail(404, UserNotFound) && db.tweets == old(db.tweets)
    ensures userId == authUser.id && UserById(db.users, userId).Some? ==>
      var t := Tweet(newId, content, kind, userId, now);
      && db.tweets == old(db.tweets) + [t]
      && r.success && r.code == 201 && r.message == Created
      && r.data == Some(ToDto(t, None, None, None, None))
      && r.data.value.likeCount == 0 && !r.data.value.likedByCurrentUser
  {
    if userId != authUser.id {
      return Fail(403, CreateForbidden);
    }
    if UserById(db.users, userId).None? {
      return Fail(404, UserNotFound);
    }
    var t := Tweet(newId, content, kind, userId, now);
    UniqueByAppend(db.tweets, t, TweetKey);
    db.tweets := db.tweets + [t];
    r := Done(201, Created, ToDto(t, None, None, None, None));
  }

  /** The `where` of `findAll`: the type is a filter only when one is given. */
  function OfKind(tweets: seq<Tweet>, kind: Option<TypeTweet>): (r: seq<Tweet>)
    ensures kind.None? ==> r == tweets
    ensures forall t | t in r :: t in tweets && (kind.None? || t.kind == kind.value)
    ensures forall t | t in tweets && (kind.None? || t.kind == kind.value) :: t in r
    ensures SubsequenceOf(r, tweets)
  {
    if kind.None? then
      assert SubsequenceOf(tweets, tweets) by { SubsequenceOfSelf(tweets); }
      tweets
    else
      FilterIsSubsequence(tweets, (t: Tweet) => t.kind == kind.value);
      Filter(tweets, (t: Tweet) => t.kind == kind.value)
  }

  /** One listed tweet: its likes, their number and whether the caller is among the likers. */
  function WithLikes(t: Tweet, likes: seq<Like>, tokenUser: string): TweetDto {
    var own := LikesOf(likes, t.id);
    ToDto(t, Some(|own|), Some(exists l | l in own :: l.userId == tokenUser), Some(own), None)
  }

  /**
   * `findAll`: every tweet of the requested type, in table order, each with
   * its likes, their count, and whether the caller liked it.
   */
  function FindAll(tweets: seq<Tweet>, likes: seq<Like>, tokenUser: string, kind: Option<TypeTweet>)
    : (r: ApiResult<seq<TweetDto>>)
    ensures r.success && r.code == 200 && r.message == Listed && r.data.Some?
    ensures |r.data.value| == |OfKind(tweets, kind)|
    ensures forall i | 0 <= i < |r.data.value| ::
      var t := OfKind(tweets, kind)[i];
      var d := r.data.value[i];
      && d.id == t.id && d.content == t.content && d.kind == t.kind && d.userId == t.userId
      && d.createdAt == t.createdAt
      && d.likeCount == |LikesOf(likes, t.id)|
      && (d.likedByCurrentUser <==> exists l | l in likes :: l.tweetId == t.id && l.userId == tokenUser)
      && d.like == Some(LikesOf(likes, t.id))
      && d.reply.None?
  {
    var selected := OfKind(tweets, kind);
    Done(200, Listed, seq(|selected|, i requires 0 <= i < |selected| => WithLikes(selected[i], likes, tokenUser)))
  }

  /**
   * `findOneById`: only a tweet the caller owns is returned, with all its
   * likes and replies and the number of its likes; any other id is a 403.
   */
  function FindOneById(tweets: seq<Tweet>, likes: seq<Like>, replies: seq<Reply>, id: string, tokenUser: AuthUser)
    : (r: ApiResult<TweetDto>)
    ensures r.success <==> exists t | t in tweets :: t.id == id && t.userId == tokenUser.id
    ensures !r.success ==> r == Fail(403, ReadForbidden)
    ensures r.success ==>
      && r.code == 200 && r.message == Found && r.data.Some?
      && var d := r.data.value;
      && (exists t | t in tweets :: t.id == id && t.userId == tokenUser.id && d.content == t.content
                                    && d.kind == t.kind && d.createdAt == t.createdAt)
      && d.id == id && d.userId == tokenUser.id
      && d.likeCount == |LikesOf(likes, id)| && !d.likedByCurrentUser
      && d.like == Some(LikesOf(likes, id)) && d.reply == Some(RepliesOf(replies, id))
  {
    match OwnedTweet(tweets, id, tokenUser.id)
    case None => Fail(403, ReadForbidden)
    case Some(t) => Done(200, Found, ToDto(t, Some(|LikesOf(likes, id)|), None, Some(LikesOf(likes, id)), Some(RepliesOf(replies, id))))
  }

  /** `tweet.update({ where: { id }, data: { content } })`: an undefined content changes nothing. */
  function SetContent(tweets: seq<Tweet>, id: string, content: Option<string>): (r: seq<Tweet>)
    ensures |r| == |tweets|
    ensures forall i | 0 <= i < |r| :: r[i].id == tweets[i].id
    ensures forall i | 0 <= i < |r| && tweets[i].id != id :: r[i] == tweets[i]
    ensures forall i | 0 <= i < |r| && tweets[i].id == id ::
      r[i] == tweets[i].(content := content.GetOr(tweets[i].content))
  {
    seq(|tweets|, i requires 0 <= i < |tweets| =>
      if tweets[i].id == id then tweets[i].(content := content.GetOr(tweets[i].content)) else tweets[i])
  }

  /** `update`: only the owner's tweet, and only its content, changes. */
  method Update(db: Db, id: string, tokenUserId: string, content: Option<string>) returns (r: ApiResult<TweetDto>)
    requires db.Valid()
    modifies db`tweets
    ensures db.Valid()
    ensures r.success <==> exists t | t in old(db.tweets) :: t.id == id && t.userId == tokenUserId
    ensures !r.success ==> r == Fail(403, UpdateForbidden) && db.tweets == old(db.tweets)
    ensures r.success ==>
      && db.tweets == SetContent(old(db.tweets), id, content)
      && var t := OwnedTweet(old(db.tweets), id, tokenUserId).value;
      && r == Done(200, Updated, ToDto(t.(content := content.GetOr(t.content)), None, None, None, None))
  {
    var found := OwnedTweet(db.tweets, id, tokenUserId);
    if found.None? {
      return Fail(403, UpdateForbidden);
    }
    var updated := SetContent(db.tweets, id, content);
    UniqueBySameKeys(db.tweets, updated, TweetKey);
    db.tweets := updated;
    var t := found.value;
    r := Done(200, Updated, ToDto(t.(content := content.GetOr(t.content)), None, None, None, None));
  }

  /** `remove`: only the owner's tweet is deleted, and exactly that one row goes. */
  method Remove(db: Db, tweetId: string, tokenUser: string) returns (r: ApiResult<TweetDto>)
    requires db.Valid()
    modifies db`tweets
    ensures db.Valid()
    ensures r.success <==> exists t | t in old(db.tweets) :: t.id == tweetId && t.userId == tokenUser
    ensures !r.success ==> r == Fail(403, RemoveForbidden) && db.tweets == old(db.tweets)
    ensures r.success ==>
      && db.tweets == RemoveKey(old(db.tweets), TweetKey, tweetId)
      && (exists i | 0 <= i < |old(db.tweets)| ::
            old(db.tweets)[i].id == tweetId && db.tweets == old(db.tweets)[..i] + old(db.tweets)[i + 1..])
      && r == Done(200, Removed, ToDto(OwnedTweet(old(db.tweets), tweetId, tokenUser).value, None, None, None, None))
  {
    var found := OwnedTweet(db.tweets, tweetId, tokenUser);
    if found.None? {
      return Fail(403, RemoveForbidden);
    }
    var i := PositionOf(db.tweets, found.value);
    RemoveUniqueKey(db.tweets, TweetKey, i);
    UniqueByRemove(db.tweets, TweetKey, TweetKey, tweetId);
    db.tweets := RemoveKey(db.tweets, TweetKey, tweetId);
    r := Done(200, Removed, ToDto(found.value, None, None, None, None));
  }
}
