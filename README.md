# Feed ranking and page tokens

A Dafny model of the news-feed engine of the social app in `src/app/planetscale/`:
the signed page-token codec, the post score, the per-post interaction counters,
the candidate query, and the two `generateFeed` variants. One is in the posts module
`planetscale.ts`. The other is the server action in `generate-feed.ts`.

- `JsNumber` models the JavaScript built-ins the codec depends on, following the
  ECMAScript 2024 Language Specification. These are `Number.prototype.toString` on
  integral numbers, `parseInt(s, 10)` and `split(":")`. `parseInt` skips leading white
  space and reads an optional sign, then the longest run of digits. The result is `NaN`
  or an integer.
- `PageToken` covers `hashPageToken`, `generatePageToken` and `parsePageToken`. A token is
  `<hex digest of the timestamp text>:<timestamp text>`. The HMAC-SHA256 digest keyed with
  the server salt is the parameter `hmac`. `HexDigest(hmac)` states the only fact the
  codec uses: every digest is lowercase hex.
- `Score` covers `calculateScore`: `(likes + 2*comments + 3*shares) / (ageDays + 1)`,
  computed in exact reals. The clock reading is a parameter.
- `Sorting` is the stable descending sort behind `toSorted((a, b) => b.score - a.score)`.
  `ORDER BY createdAt DESC` uses the same sort. It also holds the proof that sortedness
  and stability determine the result.
- `Candidates` is the candidate query over an in-memory table. It keeps the rows with
  `createdAt < lastTimestamp`, newest first, and at most `limit` of them.
- `Interactions` covers `getUserInteractionsForPosts`. It is a loop that fills a map with
  one entry per post id. Each counter is the number of rows its query returned, or 0 if
  the query was rejected. A count query always answers with one row, so a fulfilled
  counter is 1 whatever the count inside that row is. The model keeps this behaviour.
- `Feed` covers `generateFeed` in `planetscale.ts`, and `FeedAction` covers the server
  action in `generate-feed.ts`. The server action also requires a user id, refuses a zero
  timestamp on the last item of a full page, and echoes the request token as
  `previousPageToken`.

Storage is replaced by values. `table` is the list of post rows the query reads, in
storage order. `queries` gives, for each post id, how its like, comment and share queries
settled. `now` is `Date.now()` when the boundary is resolved. `scoreNow` is the clock
reading at which scores are computed. The thrown `invariant` failures become
`Err(InvalidPageToken)`, `Err(UserIdRequired)` and `Err(InvalidLastPostTimestamp)`.

Three behaviours of the code are easy to miss, and the model keeps them:

- Any string whose first field is the digest of the number parsed from its second field
  is accepted. So trailing text, extra `:` fields and a `+` sign are all accepted, and
  decoding is not injective.
- Counters are row counts, not the `COUNT` values.
- The next token comes from the `pageSize`-th item by score, not from the oldest item
  fetched.

## Model

| member | source | states |
|---|---|---|
| JsNumber.Decimal | src/app/planetscale/planetscale.ts:23 | the decimal text of a timestamp is a non-empty run of digits with no `:`, whose first digit is `0` only for the one-character text of 0 |
| JsNumber.ToString | src/app/planetscale/planetscale.ts:40 | the text of any token number is non-empty and holds no `:` |
| JsNumber.TrimStart | src/app/planetscale/planetscale.ts:30 | `parseInt` drops exactly the leading white space: every character dropped is white space, and what remains is a suffix that does not start with white space |
| JsNumber.LeadingDigits | src/app/planetscale/planetscale.ts:30 | `parseInt` reads the longest digit prefix: all digits, followed by a non-digit or the end |
| JsNumber.ParseInt | src/app/planetscale/planetscale.ts:30-31 | `parseInt(…, 10)`: nothing but white space gives `NaN`, a string of digits gives its value, and only a leading `-` gives a negative; `ParseIntToString` and `ParseIntIgnoresTail` show it reads back what `toString` writes, with any non-digit tail |
| JsNumber.Split | src/app/planetscale/planetscale.ts:29 | `split(":")` gives at least one field, no field holds `:`, the first is a prefix, and joining the fields with `:` gives back the token |
| JsNumber.DecimalValue | src/app/planetscale/planetscale.ts:23 | the digits of the decimal text denote the number |
| JsNumber.ParseIntToString | src/app/planetscale/planetscale.ts:30-31 | `parseInt` reads back every integer `toString` renders, negatives included, and `NaN` too |
| JsNumber.ParseIntIgnoresTail | src/app/planetscale/planetscale.ts:30 | text after the digits that does not begin with a digit does not change the parsed value |
| JsNumber.ParseIntUnsigned | src/app/planetscale/planetscale.ts:30 | a digit run then a non-digit parses to the run's value |
| JsNumber.ParseIntNegative | src/app/planetscale/planetscale.ts:30 | `-`, a digit run, then a non-digit parses to the negated value |
| JsNumber.LeadingDigitsOfDigits | src/app/planetscale/planetscale.ts:30 | an all-digit string is read whole |
| JsNumber.LeadingDigitsIgnoresTail | src/app/planetscale/planetscale.ts:30 | the digit prefix stops at the first non-digit |
| JsNumber.SplitAppend | src/app/planetscale/planetscale.ts:29 | splitting `a + ":" + b` gives the fields of `a` then those of `b` |
| JsNumber.SplitNoColon | src/app/planetscale/planetscale.ts:29 | a `:`-free string is a single field |
| JsNumber.SplitColonFreePrefix | src/app/planetscale/planetscale.ts:29 | a `:`-free prefix joins the first field and leaves later fields unchanged |
| PageToken.ParsePageToken | src/app/planetscale/planetscale.ts:27-37 | the result is `null` exactly when the first field is not the digest of the number parsed from the second field (or `"undefined"` when there is none); an accepted token's first field is the digest of the value returned |
| PageToken.HashPageToken | src/app/planetscale/planetscale.ts:20-25 | the digest of the timestamp text is lowercase hex and so holds no `:`; `RejectsAlteredTimestamp` shows a timestamp whose digest differs is refused |
| PageToken.GeneratePageToken | src/app/planetscale/planetscale.ts:39-41 | a generated token splits into exactly two fields, the digest and the timestamp text; `RoundTrip` shows it decodes back to its timestamp |
| PageToken.TimestampField | src/app/planetscale/planetscale.ts:29 | a token without `:` has second field `undefined`; otherwise the second field is the whole `:`-free run after the first `:`, ending at the next `:` or at the end |
| PageToken.SplitGenerated | src/app/planetscale/planetscale.ts:39-41 | a generated token splits into the digest, then the fields of the timestamp text |
| PageToken.RoundTrip | src/app/planetscale/planetscale.ts:20-41 | `parsePageToken(generatePageToken(t)) == t` for every integer `t` |
| PageToken.AcceptsTrailingText | src/app/planetscale/planetscale.ts:27-37 | a generated token followed by text that does not begin with a digit still decodes to the same timestamp |
| PageToken.IgnoresExtraFields | src/app/planetscale/planetscale.ts:29 | fields after the second never change the result |
| PageToken.RejectsNonHexSignature | src/app/planetscale/planetscale.ts:30-33 | a token whose first field is not lowercase hex is rejected |
| PageToken.RejectsAlteredTimestamp | src/app/planetscale/planetscale.ts:30-33 | replacing a token's timestamp by one with a different digest makes it rejected |
| PageToken.AcceptsExplicitPlusSign | src/app/planetscale/planetscale.ts:30-31 | a `+` before the timestamp is still accepted with the same value, so decoding is not injective |
| Score.CalculateScore | src/app/planetscale/planetscale.ts:137-150 | score times (age in days + 1) is `likes + 2*comments + 3*shares` |
| Score.ZeroIffNoEngagement | src/app/planetscale/planetscale.ts:144-149 | the score is 0 exactly when all three counters are 0 |
| Score.NonNegative | src/app/planetscale/planetscale.ts:141-149 | a post created less than one day after `now` never scores below 0 |
| Score.AtMostEngagement | src/app/planetscale/planetscale.ts:141-149 | a post not from the future scores at most its weighted engagement |
| Score.OlderScoresLower | src/app/planetscale/planetscale.ts:141-149 | with equal counters an older post never outscores a newer one |
| Score.MoreEngagementScoresHigher | src/app/planetscale/planetscale.ts:144-149 | at equal age more weighted engagement never scores lower |
| Score.TwoDayOldExample | src/app/planetscale/planetscale.ts:137-150 | 10 likes, 5 comments and 1 share, two days old, score 23/3 |
| Sorting.Insert | src/app/planetscale/planetscale.ts:183 | inserting into a sorted sequence keeps it sorted and adds exactly that element |
| Sorting.SortDesc | src/app/planetscale/planetscale.ts:183 | the result is sorted by non-increasing key and is a permutation of the input |
| Sorting.InsertStable | src/app/planetscale/planetscale.ts:183 | insertion puts an element ahead of later elements with the same key |
| Sorting.SortDescStableAt | src/app/planetscale/planetscale.ts:183 | for one key, the sort keeps the input order of the elements with that key |
| Sorting.SortDescStable | src/app/planetscale/planetscale.ts:183 | the sort is stable: for every key, elements with that key keep their input order |
| Sorting.WithKeyConcat | src/app/planetscale/planetscale.ts:183 | per-key subsequences distribute over concatenation |
| Sorting.WithKeyFront | src/app/planetscale/planetscale.ts:183 | the first element leads its key's subsequence, and no key above the first occurs in a sorted sequence |
| Sorting.WithKeyAbove | src/app/planetscale/planetscale.ts:183 | no element carries a key above all keys present |
| Sorting.SortedSameOrderEqual | src/app/planetscale/planetscale.ts:183 | two sorted sequences with the same per-key order are equal |
| Sorting.SortDescUnique | src/app/planetscale/planetscale.ts:183 | any sorted, stable rearrangement of the input equals `SortDesc` of it |
| Sorting.SortedPrefix | src/app/planetscale/planetscale.ts:190 | a truncated sorted sequence is sorted |
| Sorting.WithKeyPrefix | src/app/planetscale/planetscale.ts:190 | truncation keeps a prefix of each key's subsequence |
| Candidates.CreatedBefore | src/app/planetscale/planetscale.ts:228 | keeps exactly the rows created strictly before the boundary, each as often as in the table |
| Candidates.NothingBefore | src/app/planetscale/planetscale.ts:228 | with no row older than the boundary the filter keeps nothing |
| Candidates.DroppedAreOlder | src/app/planetscale/planetscale.ts:229-230 | in a newest-first list, what the limit cuts off is no newer than what it keeps |
| Candidates.NewestFirst | src/app/planetscale/planetscale.ts:229-230 | sorting by `createdAt` descending and limiting keeps `n` rows, newest first, from the input, none newer than a dropped one |
| Candidates.GetPostsFromFollowedBrandsAndCreators | src/app/planetscale/planetscale.ts:199-234 | at most `limit` rows, all from the table and created before `lastTimestamp`, in non-increasing `createdAt`, all eligible rows when fewer than `limit`, and no eligible row left out is newer than one returned |
| Interactions.GetUserInteractionsForPosts | src/app/planetscale/planetscale.ts:91-135 | the map has an entry for exactly the given ids; each counter is its query's row count when fulfilled and 0 when rejected, independently of the other two |
| Interactions.Counter | src/app/planetscale/planetscale.ts:126-128 | a counter is 0 exactly when its query was rejected or returned no rows, and otherwise the number of rows; `SingleRowCounterIsOne` shows a fulfilled `COUNT` query counts 1 |
| Interactions.InteractionOf | src/app/planetscale/planetscale.ts:125-129 | each counter comes from its own query, and three rejected queries give zero counters; `RejectionIsolated` shows one rejection touches only its own counter |
| Interactions.InteractionsFor | src/app/planetscale/planetscale.ts:125-129 | the map has an entry for exactly the given ids, each holding that post's counters; `GetUserInteractionsForPosts` is proved equal to it |
| Interactions.SingleRowCounterIsOne | src/app/planetscale/planetscale.ts:95-128 | a fulfilled count query, which returns one row, counts 1 whatever count that row holds |
| Interactions.RejectionIsolated | src/app/planetscale/planetscale.ts:119-129 | a rejected query zeroes its own counter and leaves the other two unchanged |
| Feed.ResolveBoundary | src/app/planetscale/planetscale.ts:157-161 | without a (non-empty) token the boundary is `now`; with one it is the token's timestamp; `null`, `NaN` and 0 fail with "Invalid page token" |
| Feed.PostIds | src/app/planetscale/planetscale.ts:168 | the ids of the candidates, position by position |
| Feed.FetchCandidates | src/app/planetscale/planetscale.ts:163-167 | at most `pageSize + 1` table rows, all created before the boundary, and every such row when fewer come back |
| Feed.ScorePosts | src/app/planetscale/planetscale.ts:171-181 | each post is paired with its score, computed from its map entry or from zero counters when it has none |
| Feed.InteractionOrNone | src/app/planetscale/planetscale.ts:175-179 | a post's map entry when it has one, otherwise zero counters; `UnlistedPostScoresZero` shows such a post scores 0 |
| Feed.ScoredCandidates | src/app/planetscale/planetscale.ts:163-181 | one scored entry per fetched candidate |
| Feed.Ranked | src/app/planetscale/planetscale.ts:183 | the scored candidates, rearranged into non-increasing score order |
| Feed.Paginate | src/app/planetscale/planetscale.ts:185-197 | the page is the first `pageSize` ranked items and a token for item `pageSize-1` exactly when more than `pageSize` were ranked, otherwise all of them and no token; a sorted ranking gives a sorted page |
| Feed.GenerateFeed | src/app/planetscale/planetscale.ts:152-197 | fails, with `InvalidPageToken`, exactly when the boundary is invalid; otherwise returns `Paginate` of the ranked candidates fetched before the boundary: at most `pageSize` items, in non-increasing score |
| Feed.ScoredCandidateCounters | src/app/planetscale/planetscale.ts:168-181 | every scored candidate was fetched and is scored from its own post's counters |
| Feed.ItemsAreScoredCandidates | src/app/planetscale/planetscale.ts:163-194 | every item is a table row created before the boundary, scored from its own like, comment and share queries |
| Feed.PageIsStable | src/app/planetscale/planetscale.ts:183-190 | for each score, the page lists a prefix of the candidates with that score, in fetch order |
| Feed.PageHoldsTopScores | src/app/planetscale/planetscale.ts:183-190 | no ranked candidate left off the page scores above an item on it |
| Feed.NextTokenResumesAtLastItem | src/app/planetscale/planetscale.ts:185-191 | a next token comes with a full page, decodes to the last item's `createdAt`, and a follow-up request resumes before it, or fails when it is 0 |
| Feed.NoCandidatesEmptyPage | src/app/planetscale/planetscale.ts:163-195 | with nothing before the boundary the result is an empty page with no next token |
| Feed.FailedCountersScoreZero | src/app/planetscale/planetscale.ts:119-129 | a candidate whose three count queries all fail is still ranked, with score 0 |
| Feed.UnlistedPostScoresZero | src/app/planetscale/planetscale.ts:175-179 | a post without an interactions entry scores 0 |
| FeedAction.CutPage | src/app/planetscale/generate-feed.ts:50-66 | fails exactly when the page is full and ranked item `pageSize-1` has timestamp 0; otherwise the first `pageSize` ranked items with the token of that item, or all of them with no token, and the request token echoed |
| FeedAction.GenerateFeed | src/app/planetscale/generate-feed.ts:15-67 | a missing or empty user id fails first; then an invalid token; then "Invalid last post timestamp" exactly when the last item of a full page has timestamp 0; otherwise the page as in the posts module, sorted by score, with `previousPageToken` equal to the request's token |
| FeedAction.AgreesWithPostsModule | src/app/planetscale/generate-feed.ts:15-67 | with a user id, the action returns the posts module's page and next token, except that a next token for timestamp 0 becomes an error |
| FeedAction.OnlyBoundaryDependsOnToken | src/app/planetscale/generate-feed.ts:22-65 | two request tokens that resolve to the same boundary give the same items and next token, and differ only in `previousPageToken` |

## Left out

- Database access is not modelled: the connection, the drizzle query builders, the
  follow lookup, `selectUser*`, `followEntity` and `unfollowEntity` are bare queries.
  The table of posts and the settled count-query outcomes are inputs instead.
- Candidates.GetPostsFromFollowedBrandsAndCreators: does not restrict candidates to
  followed brands and creators. The second `.where` may replace the follow filter in
  the query library, so the model claims no follow restriction. `table` stands for the
  rows the query ranges over.
- Candidates.GetPostsFromFollowedBrandsAndCreators: rows with equal `createdAt` come in
  storage order. SQL leaves that order unspecified.
- HMAC-SHA256 is the parameter `hmac`. Only its lowercase-hex output is used.
  Resistance to forgery is a cryptographic assumption and is not proved.
- Interactions.GetUserInteractionsForPosts: the `Promise.allSettled` fan-out runs one
  post at a time. The outcomes are a function of the post id, so the order of completion
  cannot change the map.
- Score.CalculateScore: uses exact reals, not IEEE doubles. It excludes the one instant,
  `createdAt == now + 1 day`, where the JavaScript division by zero gives `Infinity` or
  `NaN`. Both feeds require this of every table row.
- Every score in one request is computed at a single clock reading `scoreNow`. The source
  calls `new Date()` once per post.
- Numbers are unbounded integers. Rounding above 2^53 and the exponent notation that
  `toString` uses from 1e21 upward are not modelled. `-0` is folded into 0, and both
  are falsy.
- The model does not prove that following `nextPageToken` visits every post exactly
  once. That is not true: the token is taken from a score-ranked item, not the oldest
  fetched one, so pages can overlap or skip posts.
- Both feeds require `pageSize >= 1`. `planetscale.ts` reads index `pageSize - 1` without
  a check.
- Schema declarations, seeding, UI components and configuration are not part of this
  model.
