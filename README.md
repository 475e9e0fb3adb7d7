# Reddit-clone GraphQL resolvers in Dafny

This project models the rule-bearing logic of a tutorial GraphQL backend for a link aggregator. The database and the session are replaced by in-memory state: a user table, a post table and the request's `session.userId`. The modelled parts are:

- **`validateRegister`** (module `Validation`): the ordered chain of four input checks. The first failing check wins and yields a one-element `{field, message}` list with the source's exact strings. `null` is modelled as `None`. An independent rule table (`Rules`, `FirstFailure`) restates the same checks as a scan, and `FirstFailureWins` proves that the two agree on every input.
- **The user resolver** (module `UserResolver`, class `UserStore`). The class holds the user table keyed by serial id, the next serial value, the request's session and an outbox of sent mail. `register`, `login`, `logout`, `me` and `forgotPassword` are methods over this state. `argon2.hash` and `argon2.verify` are function parameters, and nothing is assumed about them. The `uuid` token is an input, and `sendEmail` appends to the outbox. `Valid()` keeps keys equal to row ids, positive and below the next serial value. It also keeps username and email unique, because the entity declares both unique. `register` preserves this invariant: an insert that would break it is the `23505` unique-violation path.
- **The post resolver**: `textSnippet`, `posts`, `post` and the table rewrites behind `updatePost` and `deletePost` are pure functions over the rows of the post table (module `PostQueries`). `createPost`, `updatePost` and `deletePost` are methods of class `PostStore` (module `PostResolver`), whose invariant keeps post ids unique. `posts` is filter by cursor, then sort newest first, then `take(min(50, limit))`. The query builder adds a LIMIT only when that value is truthy, so the model has three cases. For `limit >= 1`, `posts` returns the newest `min(50, limit)` eligible posts. For `limit` 0 it returns every eligible post, which can be more than 50 (see "## Findings"). For a negative `limit` the query is rejected. Every page is ordered newest first and skips no eligible post newer than one it returns. With a non-empty cursor, a page holds only posts older than the cursor. `CappedPosts` is the corrected query that never returns more than 50 rows, and cursor pagination is proved about it.
- **`isAuth`** (module `Middleware`): a pure guard over the session and a `next` thunk. It throws `"not authenticated"` when `session.userId` is falsy; an id of 0 counts as falsy. Otherwise it returns exactly `next()`. `PostStore.CreatePost` runs behind this guard.

The session's `userId` is `Option<int>`. JavaScript truthiness is written out in `Context.HasUserId`: both an absent id and 0 read as "no user". Serial ids start at 1, so a user who logs in always passes `isAuth`.

Three facts about the code that the model keeps:
- `deletePost` answers `true` whether or not a post with the id existed.
- `forgotPassword` generates a token but stores it nowhere. There is no token store and no `changePassword` resolver.
- `updatePost`'s not-found branch (src/resolvers/post.ts:93-95) can never be taken: `findOne` is not awaited, so `post` is always a promise, which is truthy.

## Model

| member | source | states |
|---|---|---|
| `Middleware.IsAuth` | src/middleware/isAuth.ts:7-14 | The guard lets the call through exactly when `session.userId` is present and non-zero, and then the result is exactly `next()`. That falsy test is the predicate `Context.HasUserId`. Otherwise it throws "not authenticated". The context is a value and is not changed. |
| `Middleware.ZeroUserIdRejected` | src/middleware/isAuth.ts:8-10 | A user id of 0 is rejected just like a missing id, with "not authenticated". |
| `Middleware.VerdictIndependentOfNext` | src/middleware/isAuth.ts:8-13 | Whether the guard throws depends only on the session, never on the wrapped resolver. |
| `Validation.ValidateRegister` | src/utils/validateRegister.ts:3-49 | The result is `null` iff the username is longer than 2 and has no '@', the email has an '@', and the password is longer than 3. Any non-null result holds exactly one error. |
| `Validation.FirstFailure` | src/utils/validateRegister.ts:8-45 | In a rule table, this finds the position of the first rule the input breaks: every earlier rule passes and that rule fails. It gives none iff every rule passes. |
| `Validation.FirstFailureWins` | src/utils/validateRegister.ts:8-48 | `validateRegister` returns exactly the error of the first broken rule, in the order username length, username without '@', email with '@', password length. It returns `null` when no rule is broken. |
| `Validation.ValidateRegisterCases` | src/utils/validateRegister.ts:8-45 | These are the four exact one-element results, each under the checks that precede it: "length must be greater than 2", "username cannot include '@'", "invalid email", "length must be greater than 3". |
| `UserResolver.ResetLink` | src/resolvers/user.ts:58-61 | The reset mail body is the fixed link prefix, then the token, then the fixed suffix. So the link embeds the token at a known position. |
| `UserResolver.ResetLinkInjective` | src/resolvers/user.ts:56-61 | Distinct tokens produce distinct links, so the token can be recovered from the link. |
| `UserResolver.LoginQuery` | src/resolvers/user.ts:139-141 | The query is by email iff the identifier contains '@'. A user matches iff their email equals the identifier (for an identifier with '@') or their username equals it (for one without). |
| `UserResolver.TakenIffInsertBreaksUniqueness` | src/entities/User.ts:23-27 | `UserResolver.Taken` is the condition of the 23505 branch at src/resolvers/user.ts:112: some row already has the username or the email. Adding a row under a new key keeps username and email unique iff neither is already taken. So the 23505 branch fires exactly on an insert that the unique columns forbid. |
| `UserResolver.UserStore.FindOne` | src/resolvers/user.ts:136-142 | It returns the table row matching an email or username query, and that row is the only match. It returns nothing iff no row matches. It is read-only. |
| `UserResolver.UserStore.ForgotPassword` | src/resolvers/user.ts:47-62 | It always answers true. It sends one mail carrying the token's reset link to the address iff a user has that email, and otherwise it sends nothing. Only the outbox changes, so the store stays valid. |
| `UserResolver.UserStore.Me` | src/resolvers/user.ts:67-75 | With no truthy session id (`Context.HasUserId` is false) the result is null. Otherwise it is the row with that id, or null if there is none. It is read-only. |
| `UserResolver.UserStore.Register` | src/resolvers/user.ts:80-124 | Validation errors are returned unchanged and the table is untouched. A username or email clash gives exactly "username already taken" and adds no row. Otherwise exactly one row is added under a fresh id, holding the username, the email and `hash(password)`, and it is returned. The uniqueness invariant is preserved. |
| `UserResolver.UserStore.Login` | src/resolvers/user.ts:129-171 | An identifier containing '@' is looked up by email, and any other by username. No match gives "username/email doesn't exist", and a rejected password gives "incorrect password". In both cases the session is unchanged. On success the session holds the user's id, which passes `isAuth`, and the user is returned. |
| `UserResolver.UserStore.Logout` | src/resolvers/user.ts:174-186 | The answer is false exactly when destroying the session reports an error. Afterwards the session carries no user, and the store stays valid. |
| `UserResolver.RegisterThenLogin` | src/resolvers/user.ts:85-170 | A successful registration followed by a login with the same username and password logs the new user in. This holds whenever `verify` accepts a password against its own hash. |
| `UserResolver.LoginThenMe` | src/resolvers/user.ts:67-170 | After a successful login, `me` returns the user who logged in. After a failed one, the session is as before. |
| `PostQueries.TextSnippet` | src/resolvers/post.ts:33-35 | The snippet is the prefix of the text of length min(50, length of text). |
| `PostQueries.SnippetIsWholeTextIffShort` | src/resolvers/post.ts:34 | The snippet is the whole text iff the text has at most 50 characters. |
| `PostQueries.RealLimit` | src/resolvers/post.ts:45 | The page size is at most 50 and at most `limit`, and it is one of the two. |
| `PostQueries.OlderThan` | src/resolvers/post.ts:56-60 | It keeps exactly the rows whose `createdAt` is strictly before the cursor time, every copy of each, and adds no row: each post's multiplicity is its multiplicity in the table if older, else 0. |
| `PostQueries.Eligible` | src/resolvers/post.ts:56-60 | A null or empty cursor applies no filter. That falsy test is the predicate `PostQueries.FiltersByCursor`. A non-empty cursor keeps exactly the rows older than the decoded cursor, with their multiplicities. |
| `PostQueries.InsertByDate` | src/resolvers/post.ts:53 | Inserting into a newest-first sequence keeps it newest first and adds exactly the one post. |
| `PostQueries.SortNewestFirst` | src/resolvers/post.ts:53 | The result is ordered by `createdAt` descending and is a permutation of the input. |
| `PostQueries.NewestPrefix` | src/resolvers/post.ts:53-54 | Taking a prefix of a newest-first sequence keeps it newest first and leaves behind no element newer than one taken. |
| `PostQueries.NewestEligible` | src/resolvers/post.ts:49-61 | It gives the newest `n` eligible posts, or all of them if fewer exist. They are ordered by `createdAt` descending, each comes from the table, and with a non-empty cursor each is older than the cursor. |
| `PostQueries.NewestEligibleSkipsNoNewer` | src/resolvers/post.ts:53-54 | Those posts are a sub-multiset of the eligible posts, and all of them when `n` covers them. No eligible post left out is newer than one taken. |
| `PostQueries.Posts` | src/resolvers/post.ts:40-62 | The query is rejected iff `limit` is negative. For `limit >= 1` the page holds min(50, limit) eligible posts, or all of them if fewer, so never more than 50. For `limit` 0 it holds every eligible post. Every page is ordered by `createdAt` descending and comes from the table. With a non-empty cursor, every post on it is older than the cursor. |
| `PostQueries.PostsSkipsNoNewer` | src/resolvers/post.ts:53-54 | A page is a sub-multiset of the eligible posts, and all of them when `limit` is 0. No eligible post left off it is newer than a post on it, so it is the newest eligible posts in `createdAt` descending order. |
| `PostQueries.PostsZeroLimitUncapped` | src/resolvers/post.ts:45-54 | With `limit` 0, no cursor and more than 50 posts in the table, the page holds every post, so more than 50. |
| `PostQueries.PostsZeroLimitExample` | src/resolvers/post.ts:45-54 | On a concrete table of 51 posts, `posts(limit: 0)` answers 51 rows. |
| `PostQueries.CappedPosts` | src/resolvers/post.ts:45-61 | This is the corrected query. For every limit it returns min(50, limit) eligible posts, or all of them if fewer, and none when that bound is not positive, so never more than 50. It is ordered newest first and respects the cursor. It agrees with `Posts` for every `limit >= 1`. |
| `PostQueries.NextPageIsOlder` | src/resolvers/post.ts:53-60 | If the next page is requested with the oldest timestamp of this page as cursor, every post on it is strictly older than every post on this page. |
| `PostQueries.FindPost` | src/resolvers/post.ts:68-73 | It returns a row with the requested id, or nothing iff no row has that id. |
| `PostQueries.FindPostUnique` | src/resolvers/post.ts:72-73 | With unique ids, the row found is the one row with that id. |
| `PostQueries.WithTitle` | src/resolvers/post.ts:96-98 | The row with the id gets the new title. Every other column of that row, and every other row, is unchanged. |
| `PostQueries.WithTitleMissingId` | src/resolvers/post.ts:96-98 | Updating an id that no row has changes nothing. |
| `PostQueries.WithoutPost` | src/resolvers/post.ts:104-106 | No row with the id remains, every other row is kept with its multiplicity, and a missing id changes nothing. |
| `PostQueries.WithoutPostUnique` | src/resolvers/post.ts:104-107 | Deleting keeps ids unique and removes exactly one row when the id was present. With an absent id it removes none. |
| `PostResolver.PostStore.CreatePost` | src/resolvers/post.ts:77-84 | Without a truthy session id, `isAuth` throws and no row is written. Otherwise exactly one row is appended under a fresh id, with the input's title and text and `creatorId` equal to the session's user, and that row is returned. The creator is read through `Context.UserIdOf`, as at src/resolvers/post.ts:83. |
| `PostResolver.PostStore.UpdatePost` | src/resolvers/post.ts:87-100 | An absent title leaves the table alone. A supplied title, the empty string included, replaces only the title of the row with that id. |
| `PostResolver.PostStore.DeletePost` | src/resolvers/post.ts:103-107 | Afterwards no row has the id and every other row remains. The answer is true whether or not the id existed. |

## Left out

- Server bootstrap, including Express, CORS, the Redis session store and the Apollo server (src/index.ts), and the ORM configuration (src/mikro-orm.config.ts). These are I/O plumbing.
- The `hello` resolver (src/resolvers/hello.ts). It returns a constant.
- The entity and input declarations (src/entities/User.ts, src/entities/Post.ts, src/resolvers/UsernamePasswordInput.ts, src/typings/sessionData.ts). They only shape the records; the unique columns of User become the `Valid()` invariant.
- Timestamps of users (`createdAt`, `updatedAt`) and a post's `updatedAt`. They come from the clock and no rule reads them. A post's `createdAt` is the `now` parameter of `CreatePost`.
- `UserResolver.UserStore.Register`: a failed insert with an error code other than 23505 is swallowed by the source, which returns the unsaved user. That failure is not modelled; the only insert failure modelled is the unique violation.
- `UserResolver.UserStore.Register`: it does not state that the stored hash differs from the plaintext. argon2 is a parameter with no assumed properties.
- `UserResolver.UserStore.Logout`: the session store and the cookie are not modelled. Only the boolean answer and the request's session losing its user are stated.
- `PostResolver.PostStore.UpdatePost`: the post it returns is not modelled. `findOne` is not awaited, so whether the returned post shows the old or the new title depends on timing. An explicit GraphQL `null` title, as opposed to an absent one, is not modelled either.
- `PostQueries.Posts`: the cases for `limit` 0 (no LIMIT clause) and a negative `limit` (a negative LIMIT, which the database rejects) follow how the query builder treats a falsy or negative `take`. That is library behaviour outside the repository. Posts with equal `createdAt` come in the order the model's sort gives; the database may order them differently.
- `PostQueries.Eligible`: the decoding of the cursor string (`parseInt` and `new Date`) is an abstract function parameter. A cursor that does not parse is not modelled.
- `Middleware.IsAuth`: `next` is a pure thunk. That `next` is not called on the throwing path is stated only as "the result does not depend on `next`".
- String lengths: JavaScript's `length` and `slice` count UTF-16 code units, while a Dafny `char` is a Unicode scalar value. So lengths differ for characters outside the Basic Multilingual Plane: "a😀" has JavaScript length 3 but model length 2. The same applies to the username and password length checks and to where `textSnippet` cuts. A snippet cut inside a surrogate pair, and lone surrogates in general, cannot be represented.
- Asynchrony and concurrency: each resolver is one sequential step.

## Findings

| source | as written | input that shows it | evidently intended | confidence | as-written member | corrected member |
|---|---|---|---|---|---|---|
| src/resolvers/post.ts:45-54 | `Math.min(50, limit)` goes to `take`, which adds a LIMIT only when the value is truthy | `posts(limit: 0, cursor: null)` on a table of 51 posts answers all 51 rows | at most 50 rows for every limit (`realLimit` caps the page at 50) | medium, not executed; relies on the query builder omitting LIMIT for a falsy `take` | `PostQueries.PostsZeroLimitUncapped` | `PostQueries.CappedPosts` |
