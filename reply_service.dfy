/**
 * The reply service. Every read and write is scoped to the caller: a reply
 * someone else owns is indistinguishable from a missing one. The reply DTO
 * carries exactly the row's columns, so results carry the row itself.
 */
module ReplyService {
  import opened Wrappers
  import opened Entities
  import opened Tables
  import opened Store

  const CreateForbidden := "Acesso negado: você não tem permissão para responder em nome de outro usuário."
  const UserNotFound := "Usuário não encontrado!"
  const TweetNotFound := "Tweet não encontrado!"
  const Created := "Reply criado com sucesso!"
  const Listed := "Replies buscados com sucesso !"
  const FindNotFound := "Reply a ser buscado não encontrado ou não pertence ao usuário autenticado!"
  const Found := "Reply buscada pelo id com sucesso!"
  const UpdateNotFound := "Reply a ser atualizado não encontrado ou não pertence ao usuário autenticado!"
  const Updated := "Reply atualizado com sucesso !"
  const RemoveNotFound := "Reply a ser deletada não encontrada ou não pertence ao usuário autenticado!"
  const Removed := "Reply deletado com sucesso !"

  /** `create`: as the caller only, user checked before tweet. */
  method Create(db: Db, tokenUser: string, content: string, kind: TypeTweet, userId: string, tweetId: string,
                newId: string, now: nat)
    returns (r: ApiResult<Reply>)
    requires db.Valid()
    requires forall x | x in db.replies :: x.id != newId
    modifies db`replies
    ensures db.Valid()
    ensures !r.success ==> db.replies == old(db.replies)
    ensures tokenUser != userId ==> r == Fail(403, CreateForbidden)
    ensures tokenUser == userId && UserById(db.users, userId).None? ==> r == Fail(404, UserNotFound)
    ensures tokenUser == userId && UserById(db.users, userId).Some? && TweetById(db.tweets, tweetId).None? ==>
      r == Fail(404, TweetNotFound)
    ensures r.success <==>
      tokenUser == userId && UserById(db.users, userId).Some? && TweetById(db.tweets, tweetId).Some?
    ensures r.success ==>
      var x := Reply(newId, content, kind, userId, tweetId, now);
      db.replies == old(db.replies) + [x] && r == Done(201, Created, x)
  {
    if tokenUser != userId {
      return Fail(403, CreateForbidden);
    }
    if UserById(db.users, userId).None? {
      return Fail(404, UserNotFound);
    }
    if TweetById(db.tweets, tweetId).None? {
      return Fail(404, TweetNotFound);
    }
    var x := Reply(newId, content, kind, userId, tweetId, now);
    UniqueByAppend(db.replies, x, ReplyKey);
    db.replies := db.replies + [x];
    r := Done(201, Created, x);
  }

  /** The `where` of `findAll`: the caller's replies, of the given type when one is given. */
  predicate Listable(x: Reply, tokenUser: string, kind: Option<TypeTweet>) {
    x.userId == tokenUser && (kind.None? || x.kind == kind.value)
  }

  /** `findAll`: exactly the caller's replies of the requested type, in table order. */
  function FindAll(replies: seq<Reply>, tokenUser: string, kind: Option<TypeTweet>): (r: ApiResult<seq<Reply>>)
    ensures r.success && r.code == 200 && r.message == Listed && r.data.Some?
    ensures forall x | x in r.data.value :: x in replies && Listable(x, tokenUser, kind)
    ensures forall x | x in replies && Listable(x, tokenUser, kind) :: x in r.data.value
    ensures SubsequenceOf(r.data.value, replies)
  {
    FilterIsSubsequence(replies, (x: Reply) => Listable(x, tokenUser, kind));
    Done(200, Listed, Filter(replies, (x: Reply) => Listable(x, tokenUser, kind)))
  }

  /** `findOneById`: the caller's reply with that id, or a 404 that does not say whether it exists. */
  function FindOneById(replies: seq<Reply>, tokenUser: string, id: string): (r: ApiResult<Reply>)
    ensures r.success <==> exists x | x in replies :: x.id == id && x.userId == tokenUser
    ensures !r.success ==> r == Fail(404, FindNotFound)
    ensures r.success ==>
      r.code == 200 && r.message == Found && r.data.Some?
      && r.data.value in replies && r.data.value.id == id && r.data.value.userId == tokenUser
  {
    match OwnedReply(replies, id, tokenUser)
    case None => Fail(404, FindNotFound)
    case Some(x) => Done(200, Found, x)
  }

  /** `reply.update({ where: { id }, data: { content } })`: an undefined content changes nothing. */
  function SetContent(replies: seq<Reply>, id: string, content: Option<string>): (r: seq<Reply>)
    ensures |r| == |replies|
    ensures forall i | 0 <= i < |r| :: r[i].id == replies[i].id
    ensures forall i | 0 <= i < |r| && replies[i].id != id :: r[i] == replies[i]
    ensures forall i | 0 <= i < |r| && replies[i].id == id ::
      r[i] == replies[i].(content := content.GetOr(replies[i].content))
  {
    seq(|replies|, i requires 0 <= i < |replies| =>
      if replies[i].id == id then replies[i].(content := content.GetOr(replies[i].content)) else replies[i])
  }

  /** `update`: only the content of the caller's own reply changes. */
  method Update(db: Db, id: string, tokenUser: string, content: Option<string>) returns (r: ApiResult<Reply>)
    requires db.Valid()
    modifies db`replies
    ensures db.Valid()
    ensures r.success <==> exists x | x in old(db.replies) :: x.id == id && x.userId == tokenUser
    ensures !r.success ==> r == Fail(404, UpdateNotFound) && db.replies == old(db.replies)
    ensures r.success ==>
      && db.replies == SetContent(old(db.replies), id, content)
      && var x := OwnedReply(old(db.replies), id, tokenUser).value;
      && r == Done(200, Updated, x.(content := content.GetOr(x.content)))
  {
    var found := OwnedReply(db.replies, id, tokenUser);
    if found.None? {
      return Fail(404, UpdateNotFound);
    }
    var updated := SetContent(db.replies, id, content);
    UniqueBySameKeys(db.replies, updated, ReplyKey);
    db.replies := updated;
    var x := found.value;
    r := Done(200, Updated, x.(content := content.GetOr(x.content)));
  }

  /** `remove`: the caller's own reply, exactly that row, is deleted. */
  method Remove(db: Db, tokenUser: string, id: string) returns (r: ApiResult<Reply>)
    requires db.Valid()
    modifies db`replies
    ensures db.Valid()
    ensures r.success <==> exists x | x in old(db.replies) :: x.id == id && x.userId == tokenUser
    ensures !r.success ==> r == Fail(404, RemoveNotFound) && db.replies == old(db.replies)
    ensures r.success ==>
      && db.replies == RemoveKey(old(db.replies), ReplyKey, id)
      && (exists i | 0 <= i < |old(db.replies)| ::
            old(db.replies)[i].id == id && db.replies == old(db.replies)[..i] + old(db.replies)[i + 1..])
      && r == Done(200, Removed, OwnedReply(old(db.replies), id, tokenUser).value)
  {
    var found := OwnedReply(db.replies, id, tokenUser);
    if found.None? {
      return Fail(404, RemoveNotFound);
    }
    var i := PositionOf(db.replies, found.value);
    RemoveUniqueKey(db.replies, ReplyKey, i);
    UniqueByRemove(db.replies, ReplyKey, ReplyKey, id);
    db.replies := RemoveKey(db.replies, ReplyKey, id);
    r := Done(200, Removed, found.value);
  }
}
