/** The database: one sequence per table and the revocation store. */
module Store {
  import opened Wrappers
  import opened Entities
  import opened Tables

  class Db {
    var users: seq<User>
    var tweets: seq<Tweet>
    var likes: seq<Like>
    var replies: seq<Reply>
    var followers: seq<Follower>
    /** `revokedToken`: token to `expiresAt` in milliseconds; the token column is unique. */
    var revoked: map<string, nat>

    /**
     * The unique columns: every id, the user e-mail (login looks users up by
     * it with `findUnique`), and the pairs the like and follower services
     * keep unique themselves.
     */
    ghost predicate Valid()
      reads this
    {
      && UniqueBy(users, UserKey)
      && UniqueBy(users, UserEmail)
      && UniqueBy(tweets, TweetKey)
      && UniqueBy(likes, LikeKey)
      && UniqueBy(likes, LikePair)
      && UniqueBy(replies, ReplyKey)
      && UniqueBy(followers, FollowerKey)
      && UniqueBy(followers, FollowEdge)
    }

    constructor()
      ensures Valid()
      ensures users == [] && tweets == [] && likes == [] && replies == [] && followers == []
      ensures revoked == map[]
    {
      users, tweets, likes, replies, followers := [], [], [], [], [];
      revoked := map[];
    }
  }

  /** `user.findUnique({ where: { id } })`. */
  function UserById(users: seq<User>, id: string): (r: Option<User>)
    ensures r.Some? ==> r.value in users && r.value.id == id
    ensures r.None? <==> forall u | u in users :: u.id != id
  {
    FindFirst(users, (u: User) => u.id == id)
  }

  /** `user.findUnique({ where: { email } })`. */
  function UserByEmail(users: seq<User>, email: string): (r: Option<User>)
    ensures r.Some? ==> r.value in users && r.value.email == email
    ensures r.None? <==> forall u | u in users :: u.email != email
  {
    FindFirst(users, (u: User) => u.email == email)
  }

  /** `tweet.findUnique({ where: { id } })`. */
  function TweetById(tweets: seq<Tweet>, id: string): (r: Option<Tweet>)
    ensures r.Some? ==> r.value in tweets && r.value.id == id
    ensures r.None? <==> forall t | t in tweets :: t.id != id
  {
    FindFirst(tweets, (t: Tweet) => t.id == id)
  }

  /** A tweet looked up by id and owner together. */
  function OwnedTweet(tweets: seq<Tweet>, id: string, owner: string): (r: Option<Tweet>)
    ensures r.Some? ==> r.value in tweets && r.value.id == id && r.value.userId == owner
    ensures r.None? <==> forall t | t in tweets :: !(t.id == id && t.userId == owner)
  {
    FindFirst(tweets, (t: Tweet) => t.id == id && t.userId == owner)
  }

  /** The likes of one tweet, in table order. */
  function LikesOf(likes: seq<Like>, tweetId: string): (r: seq<Like>)
    ensures forall l | l in r :: l in likes && l.tweetId == tweetId
    ensures forall l | l in likes && l.tweetId == tweetId :: l in r
  {
    Filter(likes, (l: Like) => l.tweetId == tweetId)
  }

  lemma LikesOfConcat(a: seq<Like>, b: seq<Like>, tweetId: string)
    ensures LikesOf(a + b, tweetId) == LikesOf(a, tweetId) + LikesOf(b, tweetId)
  {
    FilterConcat(a, b, (l: Like) => l.tweetId == tweetId);
  }

  /** Dropping the like at position `i` lowers its tweet's like count by one. */
  lemma LikesOfRemoveAt(likes: seq<Like>, i: nat)
    requires i < |likes|
    ensures |LikesOf(likes[..i] + likes[i + 1..], likes[i].tweetId)| + 1 == |LikesOf(likes, likes[i].tweetId)|
  {
    var t := likes[i].tweetId;
    assert likes == likes[..i] + [likes[i]] + likes[i + 1..];
    LikesOfConcat(likes[..i] + [likes[i]], likes[i + 1..], t);
    LikesOfConcat(likes[..i], [likes[i]], t);
    LikesOfConcat(likes[..i], likes[i + 1..], t);
    assert LikesOf([likes[i]], t) == [likes[i]];
  }

  /** The replies of one tweet, in table order. */
  function RepliesOf(replies: seq<Reply>, tweetId: string): (r: seq<Reply>)
    ensures forall x | x in r :: x in replies && x.tweetId == tweetId
    ensures forall x | x in replies && x.tweetId == tweetId :: x in r
  {
    Filter(replies, (x: Reply) => x.tweetId == tweetId)
  }

  /** A reply looked up by id and owner together. */
  function OwnedReply(replies: seq<Reply>, id: string, owner: string): (r: Option<Reply>)
    ensures r.Some? ==> r.value in replies && r.value.id == id && r.value.userId == owner
    ensures r.None? <==> forall x | x in replies :: !(x.id == id && x.userId == owner)
  {
    FindFirst(replies, (x: Reply) => x.id == id && x.userId == owner)
  }

  /** With distinct keys, the row a lookup returns is the only one with its key. */
  lemma KeyDetermines<T, K>(rows: seq<T>, key: T -> K, x: T, y: T)
    requires UniqueBy(rows, key)
    requires x in rows && y in rows && key(x) == key(y)
    ensures x == y
  {
    var i :| 0 <= i < |rows| && rows[i] == x;
    var j :| 0 <= j < |rows| && rows[j] == y;
    if i < j {
      assert key(rows[i]) != key(rows[j]);
    } else if j < i {
      assert key(rows[j]) != key(rows[i]);
    }
  }

  /** The position of a row in its table. */
  lemma PositionOf<T>(rows: seq<T>, x: T) returns (i: nat)
    requires x in rows
    ensures i < |rows| && rows[i] == x
  {
    i :| 0 <= i < |rows| && rows[i] == x;
  }
}
