/**
 * `generateFeed` of the posts module: resolve the boundary timestamp, fetch
 * `pageSize + 1` candidates, count their interactions, score, rank by score
 * (stable), and cut the page, issuing a next-page token when a candidate is left over.
 */
module Feed {
  import opened Wrappers
  import opened JsNumber
  import opened PageToken
  import opened Posts
  import opened Score
  import opened Sorting
  import opened Candidates
  import opened Interactions

  /** A post together with its score (`{ ...post, score }`). */
  datatype ScoredPost = ScoredPost(post: Post, score: real)

  datatype PaginatedResult = PaginatedResult(items: seq<ScoredPost>, nextPageToken: Option<string>)

  /** The failures `invariant` raises, by message. */
  datatype FeedError = InvalidPageToken | UserIdRequired | InvalidLastPostTimestamp

  function ScoreKey(scored: ScoredPost): real
  {
    scored.score
  }

  /** A page token is used only when it is truthy: present and not empty. */
  predicate HasToken(pageToken: Option<string>)
  {
    pageToken.Some? && pageToken.value != ""
  }

  /**
   * The boundary timestamp: the token's timestamp when a token is given, the
   * clock reading `now` otherwise; a falsy result (`null`, `NaN`, 0) is an
   * invalid page token.
   */
  function ResolveBoundary(hmac: Hmac, pageToken: Option<string>, now: int): (r: Result<int, FeedError>)
    ensures !HasToken(pageToken) ==> r == if now != 0 then Ok(now) else Err(InvalidPageToken)
    ensures HasToken(pageToken) && r.Ok? ==> ParsePageToken(hmac, pageToken.value) == Some(Integral(r.value))
    ensures HasToken(pageToken) && r.Err? ==>
      forall t: int :: t != 0 ==> ParsePageToken(hmac, pageToken.value) != Some(Integral(t))
    ensures r.Ok? ==> r.value != 0
    ensures r.Err? ==> r.error == InvalidPageToken
  {
    var lastTimestamp := if HasToken(pageToken) then ParsePageToken(hmac, pageToken.value) else Some(Integral(now));
    if lastTimestamp.Some? && Truthy(lastTimestamp.value) then Ok(lastTimestamp.value.value)
    else Err(InvalidPageToken)
  }

  function PostIds(posts: seq<Post>): (ids: seq<int>)
    ensures |ids| == |posts| && forall i :: 0 <= i < |posts| ==> ids[i] == posts[i].postId
  {
    if posts == [] then [] else [posts[0].postId] + PostIds(posts[1..])
  }

  /** `interactions.get(postId) || { likes: 0, comments: 0, shares: 0 }`. */
  function InteractionOrNone(interactions: map<int, UserInteraction>, postId: int): (interaction: UserInteraction)
    ensures postId in interactions ==> interaction == interactions[postId]
    ensures postId !in interactions ==> interaction == NoInteraction
  {
    if postId in interactions then interactions[postId] else NoInteraction
  }

  /** Each post with its score, in fetch order. */
  function ScorePosts(posts: seq<Post>, interactions: map<int, UserInteraction>, now: int): (scored: seq<ScoredPost>)
    requires forall p :: p in posts ==> ScoreDefined(p.createdAt, now)
    ensures |scored| == |posts|
    ensures forall i :: 0 <= i < |posts| ==>
      scored[i] == ScoredPost(posts[i], CalculateScore(posts[i], InteractionOrNone(interactions, posts[i].postId), now))
  {
    if posts == [] then []
    else
      [ScoredPost(posts[0], CalculateScore(posts[0], InteractionOrNone(interactions, posts[0].postId), now))]
      + ScorePosts(posts[1..], interactions, now)
  }

  /** The candidates: at most `pageSize + 1` posts created before `boundary`, newest first. */
  function FetchCandidates(table: seq<Post>, boundary: int, pageSize: nat): (posts: seq<Post>)
    ensures |posts| <= pageSize + 1
    ensures forall p :: p in posts ==> p in table && p.createdAt < boundary
    ensures |posts| <= pageSize ==> multiset(posts) == multiset(CreatedBefore(table, boundary))
  {
    GetPostsFromFollowedBrandsAndCreators(table, boundary, pageSize + 1)
  }

  /** The candidates scored, in fetch order. */
  function ScoredCandidates(table: seq<Post>, queries: int -> PostQueries, boundary: int, pageSize: nat, now: int)
    : (scored: seq<ScoredPost>)
    requires forall p :: p in table ==> ScoreDefined(p.createdAt, now)
    ensures |scored| == |FetchCandidates(table, boundary, pageSize)|
  {
    var posts := FetchCandidates(table, boundary, pageSize);
    ScorePosts(posts, InteractionsFor(PostIds(posts), queries), now)
  }

  /** The scored candidates, highest score first, ties in fetch order. */
  function Ranked(table: seq<Post>, queries: int -> PostQueries, boundary: int, pageSize: nat, now: int)
    : (ranked: seq<ScoredPost>)
    requires forall p :: p in table ==> ScoreDefined(p.createdAt, now)
    ensures |ranked| == |FetchCandidates(table, boundary, pageSize)|
    ensures multiset(ranked) == multiset(ScoredCandidates(table, queries, boundary, pageSize, now))
    ensures SortedDesc(ranked, ScoreKey)
  {
    SortDesc(ScoredCandidates(table, queries, boundary, pageSize, now), ScoreKey)
  }

  /**
   * The page cut from the ranked candidates: the first `pageSize` of them and a
   * token for the last one kept when there are more, all of them and no token otherwise.
   */
  function Paginate(hmac: Hmac, ranked: seq<ScoredPost>, pageSize: nat): (page: PaginatedResult)
    requires pageSize >= 1
    ensures page.nextPageToken.Some? <==> |ranked| > pageSize
    ensures page.items == if |ranked| > pageSize then ranked[..pageSize] else ranked
    ensures page.nextPageToken.Some? ==>
      page.nextPageToken.value == GeneratePageToken(hmac, ranked[pageSize - 1].post.createdAt)
    ensures SortedDesc(ranked, ScoreKey) ==> SortedDesc(page.items, ScoreKey)
  {
    if |ranked| > pageSize then
      SortedPrefix(ranked, pageSize, ScoreKey);
      PaginatedResult(ranked[..pageSize], Some(GeneratePageToken(hmac, ranked[pageSize - 1].post.createdAt)))
    else
      PaginatedResult(ranked, None)
  }

  /**
   * `generateFeed`: `now` is `Date.now()` for the boundary, `scoreNow` the
   * clock reading the scores are computed at.
   */
  function GenerateFeed(hmac: Hmac, table: seq<Post>, queries: int -> PostQueries,
                        pageToken: Option<string>, pageSize: nat, now: int, scoreNow: int)
    : (r: Result<PaginatedResult, FeedError>)
    requires pageSize >= 1
    requires forall p :: p in table ==> ScoreDefined(p.createdAt, scoreNow)
    ensures r.Err? <==> ResolveBoundary(hmac, pageToken, now).Err?
    ensures r.Err? ==> r.error == InvalidPageToken
    ensures r.Ok? ==>
      var ranked := Ranked(table, queries, ResolveBoundary(hmac, pageToken, now).value, pageSize, scoreNow);
      r.value == Paginate(hmac, ranked, pageSize)
    ensures r.Ok? ==> |r.value.items| <= pageSize && SortedDesc(r.value.items, ScoreKey)
  {
    var boundary := ResolveBoundary(hmac, pageToken, now);
    if boundary.Err? then Err(boundary.error)
    else Ok(Paginate(hmac, Ranked(table, queries, boundary.value, pageSize, scoreNow), pageSize))
  }

  /** Each scored candidate carries its own post's counters. */
  lemma ScoredCandidateCounters(table: seq<Post>, queries: int -> PostQueries, boundary: int, pageSize: nat,
                                now: int, x: ScoredPost)
    requires forall p :: p in table ==> ScoreDefined(p.createdAt, now)
    requires x in ScoredCandidates(table, queries, boundary, pageSize, now)
    ensures x.post in FetchCandidates(table, boundary, pageSize)
    ensures x.score == CalculateScore(x.post, InteractionOf(queries(x.post.postId)), now)
  {
    var posts := FetchCandidates(table, boundary, pageSize);
    var scored := ScoredCandidates(table, queries, boundary, pageSize, now);
    var i :| 0 <= i < |scored| && scored[i] == x;
    assert PostIds(posts)[i] == posts[i].postId;
  }

  /**
   * Every item on the page is a candidate created before the boundary and
   * scored from its own like, comment and share counters.
   */
  lemma ItemsAreScoredCandidates(hmac: Hmac, table: seq<Post>, queries: int -> PostQueries,
                                 pageToken: Option<string>, pageSize: nat, now: int, scoreNow: int)
    requires pageSize >= 1
    requires forall p :: p in table ==> ScoreDefined(p.createdAt, scoreNow)
    requires GenerateFeed(hmac, table, queries, pageToken, pageSize, now, scoreNow).Ok?
    ensures var boundary := ResolveBoundary(hmac, pageToken, now).value;
      forall x :: x in GenerateFeed(hmac, table, queries, pageToken, pageSize, now, scoreNow).value.items ==>
        && x.post in table
        && x.post.createdAt < boundary
        && x.score == CalculateScore(x.post, InteractionOf(queries(x.post.postId)), scoreNow)
  {
    var boundary := ResolveBoundary(hmac, pageToken, now).value;
    var ranked := Ranked(table, queries, boundary, pageSize, scoreNow);
    var items := GenerateFeed(hmac, table, queries, pageToken, pageSize, now, scoreNow).value.items;
    forall x | x in items
      ensures x.post in table && x.post.createdAt < boundary
      ensures x.score == CalculateScore(x.post, InteractionOf(queries(x.post.postId)), scoreNow)
    {
      assert x in multiset(ranked);
      ScoredCandidateCounters(table, queries, boundary, pageSize, scoreNow, x);
    }
  }

  /** Ties keep fetch order: per score, the page lists a prefix of the candidates with that score, in fetch order. */
  lemma PageIsStable(hmac: Hmac, table: seq<Post>, queries: int -> PostQueries,
                     pageToken: Option<string>, pageSize: nat, now: int, scoreNow: int, k: real)
    requires pageSize >= 1
    requires forall p :: p in table ==> ScoreDefined(p.createdAt, scoreNow)
    requires GenerateFeed(hmac, table, queries, pageToken, pageSize, now, scoreNow).Ok?
    ensures var boundary := ResolveBoundary(hmac, pageToken, now).value;
      WithKey(GenerateFeed(hmac, table, queries, pageToken, pageSize, now, scoreNow).value.items, ScoreKey, k)
        <= WithKey(ScoredCandidates(table, queries, boundary, pageSize, scoreNow), ScoreKey, k)
  {
    var boundary := ResolveBoundary(hmac, pageToken, now).value;
    var scored := ScoredCandidates(table, queries, boundary, pageSize, scoreNow);
    var ranked := Ranked(table, queries, boundary, pageSize, scoreNow);
    SortDescStableAt(scored, ScoreKey, k);
    if |ranked| > pageSize {
      WithKeyPrefix(ranked, pageSize, ScoreKey, k);
    }
  }

  /** No candidate left off the page scores higher than any item on it. */
  lemma PageHoldsTopScores(hmac: Hmac, table: seq<Post>, queries: int -> PostQueries,
                           pageToken: Option<string>, pageSize: nat, now: int, scoreNow: int)
    requires pageSize >= 1
    requires forall p :: p in table ==> ScoreDefined(p.createdAt, scoreNow)
    requires GenerateFeed(hmac, table, queries, pageToken, pageSize, now, scoreNow).Ok?
    ensures var boundary := ResolveBoundary(hmac, pageToken, now).value;
      var ranked := Ranked(table, queries, boundary, pageSize, scoreNow);
      var items := GenerateFeed(hmac, table, queries, pageToken, pageSize, now, scoreNow).value.items;
      forall i, j :: 0 <= i < |items| <= j < |ranked| ==> items[i].score >= ranked[j].score
  {
    var boundary := ResolveBoundary(hmac, pageToken, now).value;
    var ranked := Ranked(table, queries, boundary, pageSize, scoreNow);
    var page := GenerateFeed(hmac, table, queries, pageToken, pageSize, now, scoreNow).value;
    assert page == Paginate(hmac, ranked, pageSize);
    var items := page.items;
    assert items <= ranked;
    assert SortedDesc(ranked, ScoreKey);
    forall i, j | 0 <= i < |items| <= j < |ranked| ensures items[i].score >= ranked[j].score {
      assert items[i] == ranked[i];
      assert ScoreKey(ranked[i]) >= ScoreKey(ranked[j]);
    }
  }

  /**
   * The next-page token decodes to the creation time of the last item on the
   * page, and a follow-up request resumes strictly before that instant.
   */
  lemma NextTokenResumesAtLastItem(hmac: Hmac, table: seq<Post>, queries: int -> PostQueries,
                                   pageToken: Option<string>, pageSize: nat, now: int, scoreNow: int, later: int)
    requires HexDigest(hmac)
    requires pageSize >= 1
    requires forall p :: p in table ==> ScoreDefined(p.createdAt, scoreNow)
    requires GenerateFeed(hmac, table, queries, pageToken, pageSize, now, scoreNow).Ok?
    requires GenerateFeed(hmac, table, queries, pageToken, pageSize, now, scoreNow).value.nextPageToken.Some?
    ensures var page := GenerateFeed(hmac, table, queries, pageToken, pageSize, now, scoreNow).value;
      var last := page.items[pageSize - 1].post.createdAt;
      && |page.items| == pageSize
      && ParsePageToken(hmac, page.nextPageToken.value) == Some(Integral(last))
      && ResolveBoundary(hmac, page.nextPageToken, later) == (if last != 0 then Ok(last) else Err(InvalidPageToken))
  {
    var page := GenerateFeed(hmac, table, queries, pageToken, pageSize, now, scoreNow).value;
    var last := page.items[pageSize - 1].post.createdAt;
    RoundTrip(hmac, last);
  }

  /** With no candidate before the boundary, the page is empty and has no next token. */
  lemma NoCandidatesEmptyPage(hmac: Hmac, table: seq<Post>, queries: int -> PostQueries,
                              pageToken: Option<string>, pageSize: nat, now: int, scoreNow: int)
    requires pageSize >= 1
    requires forall p :: p in table ==> ScoreDefined(p.createdAt, scoreNow)
    requires ResolveBoundary(hmac, pageToken, now).Ok?
    requires forall p :: p in table ==> p.createdAt >= ResolveBoundary(hmac, pageToken, now).value
    ensures GenerateFeed(hmac, table, queries, pageToken, pageSize, now, scoreNow) == Ok(PaginatedResult([], None))
  {
    var boundary := ResolveBoundary(hmac, pageToken, now).value;
    NothingBefore(table, boundary);
    assert |FetchCandidates(table, boundary, pageSize)| == 0;
    var ranked := Ranked(table, queries, boundary, pageSize, scoreNow);
    assert ranked == [];
  }

  /** A candidate whose three count queries all fail still appears, with score 0. */
  lemma FailedCountersScoreZero(table: seq<Post>, queries: int -> PostQueries, boundary: int, pageSize: nat,
                                now: int, x: ScoredPost)
    requires forall p :: p in table ==> ScoreDefined(p.createdAt, now)
    requires x in ScoredCandidates(table, queries, boundary, pageSize, now)
    requires queries(x.post.postId) == PostQueries(Rejected, Rejected, Rejected)
    ensures x.score == 0.0
  {
    ScoredCandidateCounters(table, queries, boundary, pageSize, now, x);
    ZeroIffNoEngagement(x.post, InteractionOf(queries(x.post.postId)), now);
  }

  /** A post with no entry in the interactions map is scored as if it had no engagement: 0. */
  lemma UnlistedPostScoresZero(posts: seq<Post>, interactions: map<int, UserInteraction>, now: int, i: nat)
    requires forall p :: p in posts ==> ScoreDefined(p.createdAt, now)
    requires i < |posts| && posts[i].postId !in interactions
    ensures ScorePosts(posts, interactions, now)[i].score == 0.0
  {
    ZeroIffNoEngagement(posts[i], NoInteraction, now);
  }
}
