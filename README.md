# GrowTweet authorization core in Dafny

This project models the core of GrowTweet, a small Twitter-like REST API written in TypeScript on Express and Prisma. Users post tweets, reply to them, like them and follow each other. The model covers:

- **the identity gate** (`AuthMiddleware.validate`): it takes the token from the `Authorization` header, refuses revoked tokens, verifies the token, and attaches `{id, name, username}` to the request;
- **login and logout** (`AuthService`) and the **revocation garbage collector** (`TokenCleanup`);
- **the services** for users, tweets, likes, replies, followers and the feed. For each one the model covers the existence checks, the ownership checks, the exact status codes and messages, and the table change it makes;
- **the request validators**: every `validateRequired` / `validateTypes` / `validateData` middleware. The chains that the body-validating routes and `GET /followers` build from them are composed as `Route` functions. The `/feeds` chain (the gate, then `FindAllTweetMiddleware.validateTypes`) and the `/logout` chain (the gate alone) are modelled as their parts and not as one member.

The database is a class `Store.Db` with one `seq` per table (`users`, `tweets`, `likes`, `replies`, `followers`) and a map `revoked` from a token to its expiry in milliseconds. `Db.Valid()` states the unique columns: every id, the user e-mail, the `(userId, tweetId)` pair of a like, and the `(userId, followerId)` edge of a follow. Services that change a table are methods with `modifies db` on that one field. Each states the whole new table and keeps `Valid()`. Services that only read are functions over the tables.

These are parameters:

- the token codec: `sign`, and a `verify` that returns the decoded claims or `None`;
- bcrypt: `hash` and `checkPassword`;
- new row ids (`newId`) and the clock (`now`).

Request bodies and query strings are values of `JsValues.JsValue`. It covers undefined, null, booleans, integers, strings, arrays and objects, plus JavaScript truthiness, `typeof` and `String()`. With it, the validators' `typeof` and truthiness tests keep their exact meaning. UUIDs follow the `regexUuid` pattern: 8-4-4-4-12 hexadecimal digits in either case (`Uuid.IsUuid`). The tweet and like validators define this regular expression locally. The reply and follower validators import a shared `regexUuid` from `src/types`, and that file is not part of this model: it is taken to be the same pattern, anchored and without flags.

The Express behaviour is modelled in `Express`. A middleware that returns after writing a response is a `Step`: either `Next`, or `Stop` with the 400 it wrote. A route's middleware array is `Then`. The two find-all validators that write without returning are an `Effects`: the responses they try to write, and whether `next()` is reached.

## Model

| member | source | states |
|---|---|---|
| Text.SecondPieceOf | src/middlewares/auth/auth.middleware.ts:21 | `split(' ')[1]` of `<prefix> <word>` is the word when neither part contains a space |
| Uuid.IsUuid | src/middlewares/tweet/create-tweet.middleware.ts:78-79 | the `regexUuid` test holds exactly when the string matches the pattern group by group; an identifier is never empty and contains no comma or space |
| JsValues.ToJsString | src/middlewares/follower/find-all-follower.middleware.ts:27-35 | `String(v)`: a string converts to itself, and no value other than a string or an array converts to something of the UUID shape |
| AuthMiddleware.TokenOf | src/middlewares/auth/auth.middleware.ts:21 | there is a token exactly when the header contains a space, and the token itself contains no space |
| AuthMiddleware.AnySchemeYieldsToken | src/middlewares/auth/auth.middleware.ts:21 | `<scheme> <token>` yields the token whatever word the scheme is: no `Bearer` check exists |
| AuthMiddleware.Identity | src/middlewares/auth/auth.middleware.ts:47-51 | the attached identity carries exactly the id, name and username claims |
| AuthMiddleware.Decide | src/middlewares/auth/auth.middleware.ts:11-53 | a missing or empty header is 401 "Token não autenticado!"; a header without a second word is a rejected promise (the undefined-token lookup throws); a revoked token is 401 "Token inválido! …"; an unverifiable token is 401 "Estudante não autenticado!"; otherwise the request is authenticated with the claims' identity |
| AuthMiddleware.AcceptedMeansVerifiedAndNotRevoked | src/middlewares/auth/auth.middleware.ts:23-53 | an accepted request carries a token that is not revoked, that verified, and whose claims are the attached identity |
| AuthMiddleware.OneWordHeaderFaults | src/middlewares/auth/auth.middleware.ts:21-25 | a non-empty one-word header writes no response and never reaches `next` |
| AuthMiddleware.Validate | src/middlewares/auth/auth.middleware.ts:6-54 | `req.authUser` is written only on acceptance, with the decided identity; `next` is called exactly when the request is accepted |
| AuthService.TweetsOf | src/services/auth.service.ts:15-21 | the user's `Tweet` relation: all and only the rows posted by the user |
| AuthService.FollowersOf | src/services/auth.service.ts:15-21 | the user's `followers` relation: all and only the edges whose followed side is the user |
| AuthService.SelectedTweetId | src/services/auth.service.ts:52-54 | with a non-empty liked tweet id, the result is that id when it is among the user's tweets, else absent; otherwise it is the user's first tweet's id, or absent when the user has none |
| AuthService.SelectedTweetIsOwn | src/services/auth.service.ts:52-54 | the tweet id in the login data always names a tweet of the logging-in user |
| AuthService.Login | src/services/auth.service.ts:9-69 | an unknown e-mail is 404 "E-mail ou senha incorretos!"; a wrong password is 404 "E-mail ou senha inválidos!"; success holds exactly when both checks pass; then the token is signed over exactly `{id, name, username}`, and the data carries the user id, the selected tweet id and the ids of the user's follower rows, in order |
| AuthService.Logout | src/services/auth.service.ts:71-87 | it raises, leaving the store unchanged, exactly when the token does not verify or is already revoked; otherwise it adds one record expiring at `exp * 1000` and answers 200 "Logout efetuado com sucesso!" |
| AuthService.LogoutKeepsRecordsMatched | src/services/auth.service.ts:75-80 | after logout every record still expires at its own token's `exp` in milliseconds |
| AuthService.LoggedOutTokenIsRefused | src/services/auth.service.ts:75-80 | once a token is recorded, the gate answers 401 "Token inválido! …" to every header carrying it, whatever it verifies to |
| TokenCleanup.Unexpired | src/utils/TokenCleanup.ts:5-9 | keeps exactly the records expiring at `now` or later, with their expiry unchanged |
| TokenCleanup.RemoveExpiredTokens | src/utils/TokenCleanup.ts:4-10 | only the revocation store changes, to its unexpired records |
| TokenCleanup.CleanupIdempotent | src/utils/TokenCleanup.ts:5-9 | after cleanup no record has expired, and a second cleanup at the same instant removes nothing |
| TokenCleanup.CleanupKeepsBoundary | src/utils/TokenCleanup.ts:7 | a record expiring exactly at `now` survives (the comparison is strict `lt`) |
| TokenCleanup.CleanupKeepsRefusals | src/utils/TokenCleanup.ts:5-9 | when records match their tokens' expiry and the verifier refuses expired tokens, the gate accepts exactly the same requests before and after cleanup |
| LoginMiddleware.ValidateRequired | src/middlewares/auth/login.middleware.ts:4-27 | `next` iff e-mail and password are both truthy; otherwise the 400 for the first missing one |
| LoginMiddleware.ValidateTypes | src/middlewares/auth/login.middleware.ts:29-51 | `next` iff both are strings; otherwise the 400 for the first non-string |
| LoginMiddleware.Route | src/routes/auth.routes.ts:10-14 | the login chain reaches the controller exactly for a non-empty string e-mail and password; otherwise it answers 400 |
| CreateUserMiddleware.ValidateRequired | src/middlewares/user/create-user.middleware.ts:4-44 | `next` iff name, e-mail, username and password are all truthy; otherwise the first missing field's 400 |
| CreateUserMiddleware.ValidateTypes | src/middlewares/user/create-user.middleware.ts:46-86 | `next` iff all four are strings; otherwise the first non-string field's 400 |
| CreateUserMiddleware.ValidateData | src/middlewares/user/create-user.middleware.ts:87-127 | `next` iff the name has at least 3 characters, the e-mail contains "@" and ".com", and username and password have at least 5; otherwise the first failing check's 400 |
| CreateUserMiddleware.EmailShapedIsNotEmpty | src/middlewares/user/create-user.middleware.ts:87-127 | an e-mail string passing the `@` and `.com` test is never empty, so it also passes the required check |
| CreateUserMiddleware.Route | src/routes/user.routes.ts:14-22 | the create-user chain passes exactly the bodies of four strings meeting the data rules; otherwise it answers 400 |
| UpdateUserMiddleware.ValidateTypes | src/middlewares/user/update-user.middleware.ts:4-36 | `next` iff each of name, username and password is falsy or a string |
| UpdateUserMiddleware.ValidateData | src/middlewares/user/update-user.middleware.ts:37-69 | `next` iff each present field has its minimum length (3, 5, 5) |
| UpdateUserMiddleware.Route | src/routes/user.routes.ts:36-44 | the update chain passes exactly when each field is falsy or a long-enough string; otherwise it answers 400 |
| UpdateUserMiddleware.EmptyBodyPasses | src/routes/user.routes.ts:36-44 | an empty body passes the update chain |
| FindAllUserMiddleware.ValidateTypes | src/middlewares/user/find-all-user.middleware.ts:4-16 | `next` iff the e-mail query is falsy or a string |
| FindAllUserMiddleware.RepeatedEmailRejected | src/middlewares/user/find-all-user.middleware.ts:7-14 | a repeated `email` query parameter (an array) is a 400 |
| CreateTweetMiddleware.ValidateRequired | src/middlewares/tweet/create-tweet.middleware.ts:5-37 | `next` iff content, type and userId are truthy; otherwise the first missing one's 400 |
| CreateTweetMiddleware.ValidateTypes | src/middlewares/tweet/create-tweet.middleware.ts:39-71 | `next` iff all three are strings |
| CreateTweetMiddleware.ValidateData | src/middlewares/tweet/create-tweet.middleware.ts:72-106 | `next` iff the content has at least 5 characters, the type is "Tweet" and userId is a UUID |
| CreateTweetMiddleware.Route | src/routes/tweet.routes.ts:12-20 | the create-tweet chain passes exactly a string content of at least 5 characters, the type "Tweet" and a UUID string userId; otherwise it answers 400 |
| UpdateTweetMiddleware.ValidateTypes | src/middlewares/tweet/update-tweet.middleware.ts:5-29 | `next` iff content and type are each falsy or a string |
| UpdateTweetMiddleware.ValidateData | src/middlewares/tweet/update-tweet.middleware.ts:30-54 | `next` iff a present content has at least 5 characters and a present type is "Tweet" |
| UpdateTweetMiddleware.Route | src/routes/tweet.routes.ts:34-42 | the update-tweet chain passes exactly when the content is falsy or a string of at least 5 characters and the type is falsy or "Tweet"; otherwise it answers 400 |
| FindAllTweetMiddleware.ValidateTypes | src/middlewares/tweet/find-all-tweet.middleware.ts:5-18 | `next` iff the type query is falsy or exactly "Tweet" |
| FindAllTweetMiddleware.MessageNamesType | src/middlewares/tweet/find-all-tweet.middleware.ts:8-16 | the 400 message names the offending value; a "Reply" type is refused |
| CreateReplyMiddleware.HeaderValue | src/middlewares/reply/create-reply.middleware.ts:12-13 | a header is a string exactly when it is present |
| CreateReplyMiddleware.ValidateRequired | src/middlewares/reply/create-reply.middleware.ts:6-48 | `next` iff body content and type and the `x-user-id`/`x-tweet-id` headers are truthy |
| CreateReplyMiddleware.ValidateTypes | src/middlewares/reply/create-reply.middleware.ts:50-92 | `next` iff content and type are strings and both headers are present |
| CreateReplyMiddleware.HeadersNeverFailTypes | src/middlewares/reply/create-reply.middleware.ts:50-92 | after the required check, the header type checks can never fail |
| CreateReplyMiddleware.ValidateData | src/middlewares/reply/create-reply.middleware.ts:94-136 | `next` iff the content has at least 5 characters, the type is "Reply" and both ids are UUIDs |
| CreateReplyMiddleware.Route | src/routes/reply.routes.ts:13-21 | the create-reply chain passes exactly a string content of at least 5 characters, the type "Reply" and two UUID headers; otherwise it answers 400 |
| UpdateReplyMiddleware.ValidateTypes | src/middlewares/reply/update-reply.middleware.ts:4-20 | `next` iff the content is falsy or a string |
| UpdateReplyMiddleware.ValidateData | src/middlewares/reply/update-reply.middleware.ts:21-37 | `next` iff a present content has at least 5 characters |
| UpdateReplyMiddleware.Route | src/routes/reply.routes.ts:35-43 | the update-reply chain passes exactly a falsy content or a string of at least 5 characters; otherwise it answers 400 |
| FindAllReplyMiddleware.ValidateTypes | src/middlewares/reply/find-all-reply.middleware.ts:5-18 | `next` iff the type query is falsy or exactly "Reply" |
| FindAllReplyMiddleware.MessageNamesType | src/middlewares/reply/find-all-reply.middleware.ts:8-16 | the 400 message names the offending value; a "Tweet" type is refused |
| CreateLikeMiddleware.ValidateRequired | src/middlewares/like/create-like.middleware.ts:4-28 | `next` iff userId and tweetId are truthy |
| CreateLikeMiddleware.ValidateTypes | src/middlewares/like/create-like.middleware.ts:30-54 | `next` iff both are strings |
| CreateLikeMiddleware.ValidateData | src/middlewares/like/create-like.middleware.ts:56-82 | `next` iff both are UUIDs |
| CreateLikeMiddleware.Route | src/routes/like.routes.ts:13-21 | the create-like chain passes exactly two UUID strings; otherwise it answers 400 |
| FindAllLikeMiddleware.ValidateTypes | src/middlewares/like/find-all-like.middleware.ts:5-23 | exactly one 400 is written for each truthy non-string id, userId's first; with nothing written it calls `next`; with one written it still calls `next`; with two, the second write raises and `next` is not reached |
| FindAllLikeMiddleware.WritesAndContinues | src/middlewares/like/find-all-like.middleware.ts:8-22 | a bad userId alone, or a bad tweetId alone, writes exactly its own 400 and still calls `next` |
| CreateFollowerMiddleware.ValidateRequired | src/middlewares/follower/create-follower.middleware.ts:5-29 | `next` iff userId and followerId are truthy |
| CreateFollowerMiddleware.ValidateTypes | src/middlewares/follower/create-follower.middleware.ts:31-55 | `next` iff both are strings |
| CreateFollowerMiddleware.ValidateData | src/middlewares/follower/create-follower.middleware.ts:57-81 | `next` iff both are UUIDs |
| CreateFollowerMiddleware.Route | src/routes/follower.routes.ts:13-21 | the create-follower chain passes exactly two UUID strings; otherwise it answers 400 |
| FindAllFollowerMiddleware.ValidateTypes | src/middlewares/follower/find-all-follower.middleware.ts:5-23 | as in the like validator: exactly one 400 per truthy non-string id, userId's first, and `next` unless two were written |
| FindAllFollowerMiddleware.ValidateData | src/middlewares/follower/find-all-follower.middleware.ts:24-44 | `next` iff each truthy id, converted with `String()`, matches the UUID pattern; otherwise the first failing id's 400 |
| FindAllFollowerMiddleware.AbsentIdsPass | src/middlewares/follower/find-all-follower.middleware.ts:5-44 | absent ids write nothing and pass both steps |
| FindAllFollowerMiddleware.SingletonArrayPassesData | src/middlewares/follower/find-all-follower.middleware.ts:8-43 | a one-element array holding a UUID gets a 400 from the type check, which still calls `next`, and then passes the data check |
| FindAllFollowerMiddleware.PairArrayFailsData | src/middlewares/follower/find-all-follower.middleware.ts:27-32 | an id given twice is joined with a comma and fails the UUID test |
| FindAllFollowerMiddleware.Route | src/routes/follower.routes.ts:23-30 | the find-all chain writes nothing and reaches the controller exactly when each id is falsy or a UUID string; every write is a 400, and `next` is reached after at most one |
| Store.OwnedTweet | src/services/tweet.service.ts:123-125 | `findFirst({ where: { id, userId } })`: a found tweet has the id and the owner; nothing is found exactly when no row has both |
| TweetService.ToDto | src/services/tweet.service.ts:183-215 | copies the row's fields; likeCount defaults to 0 and likedByCurrentUser to false |
| TweetService.Create | src/services/tweet.service.ts:13-50 | 403 when the body's userId is not the caller; 404 for an unknown user; otherwise appends exactly one tweet, with 0 likes, and answers 201 |
| TweetService.OfKind | src/services/tweet.service.ts:56-58 | all and only the tweets of the requested type, in table order; every tweet when no type is given |
| TweetService.FindAll | src/services/tweet.service.ts:52-83 | one entry per selected tweet, in order, carrying the tweet's fields; likeCount is the number of likes on that tweet; likedByCurrentUser holds iff the caller liked it; `like` is exactly its likes |
| TweetService.FindOneById | src/services/tweet.service.ts:85-116 | success iff the tweet exists and the caller owns it, else 403; the data carries its likes, its replies and its like count |
| TweetService.SetContent | src/services/tweet.service.ts:136-139 | only the row with the id changes, and only its content; an absent content changes nothing |
| TweetService.Update | src/services/tweet.service.ts:118-147 | success iff the caller owns the tweet; on failure 403 and nothing changes; otherwise the tweets become `SetContent(old, id, content)` |
| TweetService.Remove | src/services/tweet.service.ts:149-181 | success iff the caller owns the tweet; then exactly that row is removed; otherwise 403 and nothing changes |
| LikeService.ToDto | src/services/like.service.ts:98-110 | copies the like's fields; liked defaults to false and likeCount to 0 |
| LikeService.Create | src/services/like.service.ts:7-69 | 403 when userId is not the caller; 404 for an unknown user, then for an unknown tweet; 409 when the pair already exists; otherwise appends one like, answers 201 with liked true, and the count is one more than before |
| LikeService.Remove | src/services/like.service.ts:71-96 | success iff a like with the id belongs to the caller; then exactly that row is removed, liked is false and the count is one less; otherwise 404 and nothing changes |
| Store.OwnedReply | src/services/reply.service.ts:87-89 | `findFirst({ where: { id, userId } })`: a found reply has the id and the owner; nothing is found exactly when no row has both |
| ReplyService.Create | src/services/reply.service.ts:7-61 | 403 when userId is not the caller; 404 for an unknown user, then for an unknown tweet; otherwise appends exactly one reply and answers 201 with it |
| ReplyService.FindAll | src/services/reply.service.ts:63-80 | all and only the caller's replies of the requested type, in table order |
| ReplyService.FindOneById | src/services/reply.service.ts:82-106 | success iff a reply with the id belongs to the caller, else 404 |
| ReplyService.SetContent | src/services/reply.service.ts:122-125 | only the row with the id changes, and only its content |
| ReplyService.Update | src/services/reply.service.ts:108-133 | success iff the caller owns the reply; otherwise 404 and nothing changes; the replies become `SetContent(old, id, content)` |
| ReplyService.Remove | src/services/reply.service.ts:135-159 | success iff the caller owns the reply; then exactly that row is removed; otherwise 404 and nothing changes |
| FollowerService.ToDto | src/services/follower.service.ts:100-106 | copies id, userId and followerId |
| FollowerService.Create | src/services/follower.service.ts:7-73 | 404 for an unknown followed user, then for an unknown follower; 400 for self-follow; 409 for an existing edge; otherwise appends exactly one edge and answers 201 |
| FollowerService.Remove | src/services/follower.service.ts:75-98 | success iff an edge with the id exists; then exactly that row is removed; otherwise 404 and nothing changes |
| UserService.ToDto | src/services/user.service.ts:224-228 | copies id, name, e-mail, username and createdAt, and never the password |
| UserService.Create | src/services/user.service.ts:14-47 | 409 exactly when the e-mail is in use, with nothing changed; otherwise appends one user whose password is the hash of the given one and answers 201 |
| UserService.Matching | src/services/user.service.ts:50-54 | no e-mail, or an empty one, selects every user; otherwise all and only the users whose e-mail contains it, in order |
| UserService.FindAll | src/services/user.service.ts:49-61 | one DTO per matching user, in order |
| UserService.FindOneById | src/services/user.service.ts:63-129 | 403 when the id is not the caller's; 404 when no such user exists; otherwise the user's DTO |
| UserService.AsWrittenUpdatedRow | src/services/user.service.ts:157-170 | the row written by `update`: id, e-mail and createdAt kept; name and username as given or kept; a non-empty password becomes its hash, an absent one keeps the digest, and an empty one is stored as the empty string |
| UserService.AsWrittenStoresEmptyPassword | src/services/user.service.ts:160-168 | with an empty password in the update, the code stores "" and not a digest |
| UserService.UpdatedRow | src/services/user.service.ts:157-170 | the corrected row: a non-empty password is stored hashed; an absent or empty one keeps the old digest |
| UserService.UpdatedRowAgreesExceptEmptyPassword | src/services/user.service.ts:157-170 | the corrected row and the written one agree on every update without an empty password |
| UserService.Update | src/services/user.service.ts:131-178 | 403 when the id is not the caller's; 404 when no such user exists; otherwise exactly that row becomes `AsWrittenUpdatedRow` (an empty password is stored as given) and the answer is its DTO |
| UserService.Remove | src/services/user.service.ts:180-212 | 403 or 404 as in `update`; otherwise exactly the caller's row is removed |
| FeedService.FollowedIds | src/services/feed.service.ts:26-31 | all and only the followerIds of the edges whose userId is the caller |
| FeedService.FirstName | src/services/feed.service.ts:41 | `name.split(' ')[0]`: the name up to its first space, or the whole name when it has none |
| FeedService.Candidate | src/services/feed.service.ts:34-54 | the query's `OR`: the caller's own tweet, one naming the caller by `@username` or first name without regard to case, or one by a followed user |
| FeedService.Keep | src/services/feed.service.ts:74-104 | every tweet the in-memory filter keeps was already returned by the query, and a tweet naming the caller is always kept |
| FeedService.InsertSorted | src/services/feed.service.ts:54 | inserting into a newest-first list keeps it newest first |
| FeedService.SortNewestFirst | src/services/feed.service.ts:54 | `orderBy createdAt desc`: newest first, and a permutation of its input |
| FeedService.Candidates | src/services/feed.service.ts:34-66 | the query's rows: exactly the tweets of the type that are the caller's own, name the caller's first name or `@username` without regard to case, or come from a followed user, newest first |
| FeedService.Feed | src/services/feed.service.ts:6-112 | an unknown caller is 404 with empty data; otherwise 200 with "Feed de <first name> buscado com sucesso!", and the data is newest first, in query order, and holds each visible tweet as often as the table does |
| FeedService.FeedFacts | src/services/feed.service.ts:74-104 | filtering the query's rows keeps their order and gives exactly the visible tweets |
| FeedService.SubsequenceKeepsOrder | src/services/feed.service.ts:74-104 | a subsequence of a newest-first list is newest first |
| FeedService.VisibilityRules | src/services/feed.service.ts:74-104 | own tweets and tweets naming the caller are shown; a followed user's tweet is shown iff it names no one else but the caller; every other tweet is hidden |
| FeedService.FollowedTweetNamingAnotherUserIsHidden | src/services/feed.service.ts:89-100 | a followed user's tweet naming another user, and not the caller, is hidden |
| FeedService.EmptyFirstNameKeepsEverything | src/services/feed.service.ts:79-86 | when the caller's name starts with a space, the first name is empty and every candidate is kept |

## Left out

- The controllers, routes and server wiring. The model covers the route chains only as compositions of the validators. How a controller picks `tokenUser`, and the reply controller's `userId` default, are not modelled.
- The `:id` path check in front of the update, find-one and delete routes (`ValidateUuidMiddleware`): `src/middlewares/validate-uuid.middleware.ts` is not part of this model. The update chains are modelled without it.
- The `GET /likes` route: its array names `FindAllLikeMiddleware.validateData`, which the class does not define (see below). The route is not composed.
- `jsonwebtoken` and `bcrypt` are function parameters (`sign`, `verify`, `hash`, `checkPassword`). Signatures, the HS256 secret and the one-hour expiry are not modelled. In the code the gate and logout call `verifyToken` while `src/utils/jwt.ts` defines `validateToken`; the model treats both as the one `verify`.
- Prisma: queries are reads of the sequences. `Promise.all` reads are sequential. `updatedAt` columns are not kept.
- Deletion never cascades to other tables. The schema's referential actions are not part of this model.
- Prisma's `contains` (in users' `findAll` and the feed query) is a plain substring test. Database collation and `LIKE` escaping are not modelled.
- `insensitive` matching and `toLowerCase` cover ASCII letters only. Case folding outside A–Z is not modelled.
- Lengths count characters as Dafny does, not UTF-16 code units.
- JavaScript numbers are integers. Floats and NaN are left out.
- UserService.ToDto: the included relations are not projected (tweets with their likes and replies, likes, followers, following). Nor are the user, likes and replies included with each feed tweet. A DTO carries the row's own scalar fields.
- UserService.Update: the DTO has no `email` field. The update controller passes only name, username and password.
- AuthService.Login: the `Array.isArray(user.followers)` branch is not modelled. An included relation is always an array, so its `[]` arm cannot run.
- FeedService.Feed: tweets with the same `createdAt` come in no proved order. The contract claims newest-first order and the exact multiset, and not one particular tie order.
- The services take their body fields as `Option<string>`. A falsy value of another type (`null`, `0`, `false`) passes the update validators, which test `x && typeof x !== 'string'`, reaches `prisma.*.update` and makes it raise. That value and that exception are not modelled; the update chains' `Route` functions do state that such values pass.

## Behaviour worth knowing

- **Token scheme.** A fixed `Bearer` scheme is not checked: the gate takes the second word of any header (`AuthMiddleware.AnySchemeYieldsToken`). A header of one word makes the revocation lookup throw; no response is written (`AuthMiddleware.OneWordHeaderFaults`).
- **Repeated logout.** Logging out the same token twice raises: `logout` calls `revokedToken.create` on a unique column, and the second insert violates it (`AuthService.Logout`).
- **Writing without returning.** The find-all like and follower type checks write a 400 and do not return, so `next()` runs after the write. When both ids are bad they write twice. Express refuses the second write (the headers were already sent) by throwing, so `next()` is not reached in that case (`Express.Effects`).
- **An undefined handler.** `src/routes/like.routes.ts:25` passes `FindAllLikeMiddleware.validateData`, which `src/middlewares/like/find-all-like.middleware.ts` does not define. As written, TypeScript rejects that line. Compiled anyway, the array holds `undefined`, and Express's router throws a `TypeError` when the route is set up with a handler that is not a function. This is read from the code, not executed.
- **Direction of a follow edge.** The code reads `Follower(userId, followerId)` two ways. In `FollowerService.Create`, `userId` is the user to be followed ("Usuário a ser seguido não encontrado!") and `followerId` is the follower. The feed query takes the edges with `userId` equal to the caller as the users the caller follows, and collects their `followerId`s (`FeedService.FollowedIds`). The model keeps each reading where the code uses it.

## Findings

| source | as written | input that shows it | evidently intended | confidence | as-written member | corrected member |
|---|---|---|---|---|---|---|
| src/services/user.service.ts:160-168 | `passwordHash` is set only for a truthy password, but `...updateUserDto` copies the password field unconditionally, so an empty password is written as is | `update(id, id, { password: "" })` on an existing user: the stored password becomes `""`, and no bcrypt digest will ever match it | an empty password leaves the stored digest unchanged, as the update validator treats `""` as absent | not executed | UserService.AsWrittenStoresEmptyPassword | UserService.UpdatedRow |
