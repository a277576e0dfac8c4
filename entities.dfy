/**
 * The rows of the five tables and the revocation store, and the result
 * envelope every service returns. Ids and texts are strings; timestamps
 * are milliseconds as naturals.
 */
module Entities {
  import opened Wrappers

  /** The `TypeTweet` enumeration of the schema. */
  datatype TypeTweet = KindTweet | KindReply
  {
    /** The name the enumeration value has in request bodies. */
    function Name(): string {
      match this
      case KindTweet => "Tweet"
      case KindReply => "Reply"
    }
  }

  datatype User = User(id: string, name: string, email: string, username: string, password: string, createdAt: nat)
  datatype Tweet = Tweet(id: string, content: string, kind: TypeTweet, userId: string, createdAt: nat)
  datatype Like = Like(id: string, userId: string, tweetId: string, createdAt: nat)
  datatype Reply = Reply(id: string, content: string, kind: TypeTweet, userId: string, tweetId: string, createdAt: nat)
  /** A follow edge between the users `userId` and `followerId`; the code does not read the direction the same way everywhere. */
  datatype Follower = Follower(id: string, userId: string, followerId: string, createdAt: nat)

  /** The identity the gate attaches to a request and the payload a token is signed from. */
  datatype AuthUser = AuthUser(id: string, name: string, username: string)

  /** What a valid token decodes to; `exp` and `iat` are in seconds. */
  datatype DecodedToken = DecodedToken(id: string, name: string, username: string, iat: nat, exp: nat)

  /** `ResponseApi`: `data` is absent on every failure except the feed's. */
  datatype ApiResult<T> = ApiResult(success: bool, code: int, message: string, data: Option<T>)

  /** A service call either returns, or raises an exception from the database or a null dereference. */
  datatype Outcome<T> = Returned(result: ApiResult<T>) | Raised

  function Fail<T>(code: int, message: string): (r: ApiResult<T>)
    ensures !r.success && r.code == code && r.message == message && r.data.None?
  {
    ApiResult(false, code, message, None)
  }

  function Done<T>(code: int, message: string, data: T): (r: ApiResult<T>)
    ensures r.success && r.code == code && r.message == message && r.data == Some(data)
  {
    ApiResult(true, code, message, Some(data))
  }

  // Keys of the unique columns and indexes.
  function UserKey(u: User): string { u.id }
  function UserEmail(u: User): string { u.email }
  function TweetKey(t: Tweet): string { t.id }
  function LikeKey(l: Like): string { l.id }
  function LikePair(l: Like): (string, string) { (l.userId, l.tweetId) }
  function ReplyKey(r: Reply): string { r.id }
  function FollowerKey(f: Follower): string { f.id }
  function FollowEdge(f: Follower): (string, string) { (f.userId, f.followerId) }
}
