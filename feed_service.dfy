/**
 * The feed: the caller's own tweets, tweets naming the caller, and tweets
 * of followed users that name nobody else, newest first.
 */
module FeedService {
  import opened Wrappers
  import opened Entities
  import opened Tables
  import opened Text
  import opened Store

  const UserNotFound := "Usuário não encontrado."

  function FoundMessage(firstName: string): string {
    "Feed de " + firstName + " buscado com sucesso!"
  }

  /** `name.split(' ')[0]`: the name up to its first space, all of it when there is none. */
  function FirstName(name: string): (r: string)
    ensures ' ' !in r && r <= name
    ensures ' ' in name ==> name[|r|] == ' '
    ensures ' ' !in name ==> r == name
  {
    FirstPiece(name, ' ')
  }

  /** The `followerId` of every edge the caller follows along, in table order. */
  function FollowedIds(followers: seq<Follower>, tokenUser: string): (r: seq<string>)
    ensures forall x | x in r :: exists f | f in followers :: f.userId == tokenUser && f.followerId == x
    ensures forall f | f in followers && f.userId == tokenUser :: f.followerId in r
  {
    var edges := Filter(followers, (f: Follower) => f.userId == tokenUser);
    var r := seq(|edges|, i requires 0 <= i < |edges| => edges[i].followerId);
    assert forall x | x in r :: exists f | f in followers :: f.userId == tokenUser && f.followerId == x by {
      forall x | x in r ensures exists f | f in followers :: f.userId == tokenUser && f.followerId == x {
        var i :| 0 <= i < |r| && r[i] == x;
        assert edges[i] in edges;
      }
    }
    assert forall f | f in edges :: f.followerId in r by {
      forall f | f in edges ensures f.followerId in r {
        var i :| 0 <= i < |edges| && edges[i] == f;
        assert r[i] == f.followerId;
      }
    }
    r
  }

  predicate OfType(t: Tweet, kind: Option<TypeTweet>) {
    kind.None? || t.kind == kind.value
  }

  /**
   * The `OR` of the database query: own, naming the caller's first name or
   * `@username` without regard to case, or posted by a followed user.
   */
  predicate Candidate(t: Tweet, me: User, followedIds: seq<string>)
    ensures Candidate(t, me, followedIds) <==> t.userId == me.id || Names(t, me) || t.userId in followedIds
  {
    LowerAt(me.username);
    || t.userId == me.id
    || ContainsInsensitive(t.content, FirstName(me.name))
    || ContainsInsensitive(t.content, "@" + me.username)
    || t.userId in followedIds
  }

  /** A tweet's lower-cased content names a user by `@username` or by first name. */
  predicate Names(t: Tweet, u: User) {
    Contains(Lower(t.content), "@" + Lower(u.username)) || Contains(Lower(t.content), Lower(FirstName(u.name)))
  }

  /** The tweet names someone other than the caller. */
  predicate NamesOther(t: Tweet, allUsers: seq<User>, tokenUser: string) {
    exists o | o in allUsers :: o.id != tokenUser && Names(t, o)
  }

  /** The filter: own or naming the caller is kept; a followed user's is kept iff it names no one else; the rest go. */
  predicate Keep(t: Tweet, me: User, followedIds: seq<string>, allUsers: seq<User>)
    ensures Keep(t, me, followedIds, allUsers) ==> Candidate(t, me, followedIds)
    ensures Names(t, me) ==> Keep(t, me, followedIds, allUsers)
  {
    if t.userId == me.id || Names(t, me) then true
    else if t.userId in followedIds then !NamesOther(t, allUsers, me.id)
    else false
  }

  /** `@x` lower-cased is `@` followed by `x` lower-cased. */
  lemma LowerAt(x: string)
    ensures Lower("@" + x) == "@" + Lower(x)
  {
    LowerConcat("@", x);
    assert Lower("@") == "@" by {
      assert Lower("@")[0] == LowerChar('@');
    }
  }

  predicate SortedNewestFirst(ts: seq<Tweet>) {
    forall i, j | 0 <= i < j < |ts| :: ts[i].createdAt >= ts[j].createdAt
  }

  function Insert(t: Tweet, sorted: seq<Tweet>): (r: seq<Tweet>)
    ensures multiset(r) == multiset(sorted) + multiset{t}
  {
    if |sorted| == 0 then [t]
    else if t.createdAt >= sorted[0].createdAt then [t] + sorted
    else
      assert sorted == [sorted[0]] + sorted[1..];
      [sorted[0]] + Insert(t, sorted[1..])
  }

  lemma {:induction false} InsertSorted(t: Tweet, sorted: seq<Tweet>)
    requires SortedNewestFirst(sorted)
    ensures SortedNewestFirst(Insert(t, sorted))
    decreases |sorted|
  {
    if |sorted| > 0 && t.createdAt < sorted[0].createdAt {
      var rest := Insert(t, sorted[1..]);
      InsertSorted(t, sorted[1..]);
      var r := [sorted[0]] + rest;
      forall j | 0 < j < |r| ensures r[0].createdAt >= r[j].createdAt {
        var x := r[j];
        assert x == rest[j - 1];
        assert x in multiset(rest);
        if x != t {
          assert x in multiset(sorted[1..]);
          var k :| 0 <= k < |sorted[1..]| && sorted[1..][k] == x;
          assert sorted[k + 1] == x;
        }
      }
    }
  }

  /** `orderBy: { createdAt: 'desc' }`: newest first, the same rows. Ties are left in an order the database does not promise. */
  function SortNewestFirst(ts: seq<Tweet>): (r: seq<Tweet>)
    ensures SortedNewestFirst(r)
    ensures multiset(r) == multiset(ts)
  {
    if |ts| == 0 then []
    else
      assert ts == [ts[0]] + ts[1..];
      InsertSorted(ts[0], SortNewestFirst(ts[1..]));
      Insert(ts[0], SortNewestFirst(ts[1..]))
  }

  /** What the database query returns (step 3): candidates of the requested type, newest first. */
  function Candidates(tweets: seq<Tweet>, me: User, followedIds: seq<string>, kind: Option<TypeTweet>)
    : (r: seq<Tweet>)
    ensures SortedNewestFirst(r)
    ensures multiset(r) == multiset(Filter(tweets, (t: Tweet) => OfType(t, kind) && Candidate(t, me, followedIds)))
  {
    SortNewestFirst(Filter(tweets, (t: Tweet) => OfType(t, kind) && Candidate(t, me, followedIds)))
  }

  /** The tweets the feed shows, as a condition on one tweet. */
  predicate Visible(t: Tweet, me: User, followedIds: seq<string>, allUsers: seq<User>, kind: Option<TypeTweet>) {
    OfType(t, kind) && Keep(t, me, followedIds, allUsers)
  }

  /**
   * `findAll`: for an unknown caller a 404 with empty data; otherwise the
   * visible tweets, each as often as in the table, newest first, in the
   * order the query returned them.
   */
  function Feed(users: seq<User>, tweets: seq<Tweet>, followers: seq<Follower>, tokenUser: string,
                kind: Option<TypeTweet>)
    : (r: ApiResult<seq<Tweet>>)
    ensures UserById(users, tokenUser).None? ==> r == ApiResult(false, 404, UserNotFound, Some([]))
    ensures UserById(users, tokenUser).Some? ==>
      var me := UserById(users, tokenUser).value;
      var followedIds := FollowedIds(followers, tokenUser);
      && r.success && r.code == 200 && r.message == FoundMessage(FirstName(me.name)) && r.data.Some?
      && SortedNewestFirst(r.data.value)
      && SubsequenceOf(r.data.value, Candidates(tweets, me, followedIds, kind))
      && multiset(r.data.value) == multiset(Filter(tweets, (t: Tweet) => Visible(t, me, followedIds, users, kind)))
  {
    match UserById(users, tokenUser)
    case None => ApiResult(false, 404, UserNotFound, Some([]))
    case Some(me) =>
      var followedIds := FollowedIds(followers, tokenUser);
      var candidates := Candidates(tweets, me, followedIds, kind);
      var keep := (t: Tweet) => Keep(t, me, followedIds, users);
      var kept := Filter(candidates, keep);
      FeedFacts(tweets, me, followedIds, users, kind);
      Done(200, FoundMessage(FirstName(me.name)), kept)
  }

  /** The steps behind the feed's contract: order and subsequence from the filter, contents from the permutation. */
  lemma FeedFacts(tweets: seq<Tweet>, me: User, followedIds: seq<string>, users: seq<User>, kind: Option<TypeTweet>)
    ensures var candidates := Candidates(tweets, me, followedIds, kind);
      var kept := Filter(candidates, (t: Tweet) => Keep(t, me, followedIds, users));
      && SortedNewestFirst(kept)
      && SubsequenceOf(kept, candidates)
      && multiset(kept) == multiset(Filter(tweets, (t: Tweet) => Visible(t, me, followedIds, users, kind)))
  {
    var cand := (t: Tweet) => OfType(t, kind) && Candidate(t, me, followedIds);
    var keep := (t: Tweet) => Keep(t, me, followedIds, users);
    var visible := (t: Tweet) => Visible(t, me, followedIds, users, kind);
    var candidates := Candidates(tweets, me, followedIds, kind);
    var kept := Filter(candidates, keep);
    FilterIsSubsequence(candidates, keep);
    SubsequenceKeepsOrder(kept, candidates);
    FilterPermutation(candidates, Filter(tweets, cand), keep);
    assert forall t :: visible(t) == (cand(t) && keep(t));
    FilterTwice(tweets, cand, keep, visible);
  }

  /** A subsequence of a list sorted newest first is sorted newest first. */
  lemma {:induction false} SubsequenceKeepsOrder(a: seq<Tweet>, b: seq<Tweet>)
    requires SubsequenceOf(a, b) && SortedNewestFirst(b)
    ensures SortedNewestFirst(a)
    decreases |b|
  {
    if |a| > 0 && |b| > 0 {
      assert SortedNewestFirst(b[1..]);
      if a[0] == b[0] && SubsequenceOf(a[1..], b[1..]) {
        SubsequenceKeepsOrder(a[1..], b[1..]);
        SubsequenceMembers(a[1..], b[1..]);
        forall j | 0 < j < |a| ensures a[0].createdAt >= a[j].createdAt {
          assert a[j] == a[1..][j - 1];
          assert a[j] in a[1..];
          var k :| 0 <= k < |b[1..]| && b[1..][k] == a[j];
          assert b[k + 1] == a[j];
        }
      } else {
        SubsequenceKeepsOrder(a, b[1..]);
      }
    }
  }

  lemma {:induction false} SubsequenceMembers<T>(a: seq<T>, b: seq<T>)
    requires SubsequenceOf(a, b)
    ensures forall x | x in a :: x in b
    decreases |b|
  {
    if |a| > 0 && |b| > 0 {
      if a[0] == b[0] && SubsequenceOf(a[1..], b[1..]) {
        SubsequenceMembers(a[1..], b[1..]);
        assert a == [a[0]] + a[1..];
      } else {
        SubsequenceMembers(a, b[1..]);
      }
    }
  }

  /**
   * The visibility rules, one tweet at a time: own and naming tweets are
   * shown, a followed user's tweet is shown iff it names no one else but
   * the caller, and every other tweet is hidden.
   */
  lemma VisibilityRules(users: seq<User>, tweets: seq<Tweet>, followers: seq<Follower>, tokenUser: string,
                        kind: Option<TypeTweet>, t: Tweet)
    requires UserById(users, tokenUser).Some?
    requires t in tweets && OfType(t, kind)
    ensures var me := UserById(users, tokenUser).value;
      var shown := Feed(users, tweets, followers, tokenUser, kind).data.value;
      var followed := exists f | f in followers :: f.userId == tokenUser && f.followerId == t.userId;
      && (t.userId == tokenUser || Names(t, me) ==> t in shown)
      && (t.userId != tokenUser && !Names(t, me) && followed ==> (t in shown <==> !NamesOther(t, users, tokenUser)))
      && (t.userId != tokenUser && !Names(t, me) && !followed ==> t !in shown)
  {
    var me := UserById(users, tokenUser).value;
    var followedIds := FollowedIds(followers, tokenUser);
    var shown := Feed(users, tweets, followers, tokenUser, kind).data.value;
    var visible := (x: Tweet) => Visible(x, me, followedIds, users, kind);
    assert t in shown <==> t in multiset(shown);
    assert t in multiset(Filter(tweets, visible)) <==> t in Filter(tweets, visible);
  }

  /**
   * The scenario of the service's own tests: the caller follows Johann, and
   * Johann's tweet names Raquel, another user; the tweet is hidden. Had it
   * named the caller, it would be shown.
   */
  lemma FollowedTweetNamingAnotherUserIsHidden(me: User, johann: Tweet, raquel: User, followedIds: seq<string>)
    requires johann.userId != me.id && johann.userId in followedIds && !Names(johann, me)
    requires raquel.id != me.id && Names(johann, raquel)
    ensures !Keep(johann, me, followedIds, [me, raquel])
  {
    assert raquel in [me, raquel];
  }

  /** A caller whose name starts with a space has an empty first name, which every content contains: all of their candidates are kept. */
  lemma EmptyFirstNameKeepsEverything(t: Tweet, me: User, followedIds: seq<string>, allUsers: seq<User>)
    requires FirstName(me.name) == ""
    ensures Keep(t, me, followedIds, allUsers)
  {
    ContainsEmpty(Lower(t.content));
    assert Lower(FirstName(me.name)) == "";
  }
}
