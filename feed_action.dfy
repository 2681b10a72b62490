/**
 * `generateFeed` of the server action: the same pipeline as `Feed.GenerateFeed`,
 * but it first requires a user id, refuses a zero timestamp on the last item of
 * a full page, and echoes the request's page token as `previousPageToken`.
 */
module FeedAction {
  import opened Wrappers
  import opened JsNumber
  import opened PageToken
  import opened Posts
  import opened Score
  import opened Sorting
  import opened Interactions
  import opened Feed

  datatype FeedPage = FeedPage(items: seq<ScoredPost>, nextPageToken: Option<string>, previousPageToken: Option<string>)

  /** `invariant(options.userId, ...)` passes only a present, non-empty id. */
  predicate HasUserId(userId: Option<string>)
  {
    userId.Some? && userId.value != ""
  }

  /** The page cut from the ranked candidates, with the next-page token and its timestamp check. */
  function CutPage(hmac: Hmac, ranked: seq<ScoredPost>, pageSize: nat, pageToken: Option<string>)
    : (r: Result<FeedPage, FeedError>)
    requires pageSize >= 1
    ensures r.Err? <==> |ranked| > pageSize && ranked[pageSize - 1].post.createdAt == 0
    ensures r.Err? ==> r.error == InvalidLastPostTimestamp
    ensures r.Ok? ==>
      && r.value.previousPageToken == pageToken
      && (r.value.nextPageToken.Some? <==> |ranked| > pageSize)
      && r.value.items == (if |ranked| > pageSize then ranked[..pageSize] else ranked)
      && (r.value.nextPageToken.Some? ==>
            r.value.nextPageToken.value == GeneratePageToken(hmac, ranked[pageSize - 1].post.createdAt))
    ensures r.Ok? && SortedDesc(ranked, ScoreKey) ==> SortedDesc(r.value.items, ScoreKey)
  {
    if |ranked| > pageSize then
      SortedPrefix(ranked, pageSize, ScoreKey);
      var lastPostTimestamp := ranked[pageSize - 1].post.createdAt;
      if lastPostTimestamp == 0 then Err(InvalidLastPostTimestamp)
      else Ok(FeedPage(ranked[..pageSize], Some(GeneratePageToken(hmac, lastPostTimestamp)), pageToken))
    else
      Ok(FeedPage(ranked, None, pageToken))
  }

  /** The case the server action refuses: a full page whose last ranked item was created at time 0. */
  predicate LastItemAtEpoch(hmac: Hmac, table: seq<Post>, queries: int -> PostQueries, userId: Option<string>,
                            pageToken: Option<string>, pageSize: nat, now: int, scoreNow: int)
    requires pageSize >= 1
    requires forall p :: p in table ==> ScoreDefined(p.createdAt, scoreNow)
  {
    && HasUserId(userId)
    && ResolveBoundary(hmac, pageToken, now).Ok?
    && var ranked := Ranked(table, queries, ResolveBoundary(hmac, pageToken, now).value, pageSize, scoreNow);
       |ranked| > pageSize && ranked[pageSize - 1].post.createdAt == 0
  }

  function GenerateFeed(hmac: Hmac, table: seq<Post>, queries: int -> PostQueries, userId: Option<string>,
                        pageToken: Option<string>, pageSize: nat, now: int, scoreNow: int)
    : (r: Result<FeedPage, FeedError>)
    requires pageSize >= 1
    requires forall p :: p in table ==> ScoreDefined(p.createdAt, scoreNow)
    ensures !HasUserId(userId) ==> r == Err(UserIdRequired)
    ensures HasUserId(userId) && ResolveBoundary(hmac, pageToken, now).Err? ==> r == Err(InvalidPageToken)
    ensures HasUserId(userId) && ResolveBoundary(hmac, pageToken, now).Ok? ==>
      r == CutPage(hmac, Ranked(table, queries, ResolveBoundary(hmac, pageToken, now).value, pageSize, scoreNow),
                   pageSize, pageToken)
    ensures r == Err(InvalidLastPostTimestamp) <==> LastItemAtEpoch(hmac, table, queries, userId, pageToken, pageSize, now, scoreNow)
  {
    if !HasUserId(userId) then Err(UserIdRequired)
    else
      var boundary := ResolveBoundary(hmac, pageToken, now);
      if boundary.Err? then Err(boundary.error)
      else
        CutPage(hmac, Ranked(table, queries, boundary.value, pageSize, scoreNow), pageSize, pageToken)
  }

  /**
   * Given a user id, the action returns what `Feed.GenerateFeed` returns, plus the
   * echoed token, except that a next-page token for timestamp 0 becomes an error.
   */
  lemma AgreesWithPostsModule(hmac: Hmac, table: seq<Post>, queries: int -> PostQueries, userId: Option<string>,
                              pageToken: Option<string>, pageSize: nat, now: int, scoreNow: int)
    requires pageSize >= 1
    requires forall p :: p in table ==> ScoreDefined(p.createdAt, scoreNow)
    requires HasUserId(userId)
    ensures var plain := Feed.GenerateFeed(hmac, table, queries, pageToken, pageSize, now, scoreNow);
      var action := GenerateFeed(hmac, table, queries, userId, pageToken, pageSize, now, scoreNow);
      && (plain.Err? ==> action == Err(InvalidPageToken))
      && (plain.Ok? && plain.value.nextPageToken.Some? ==> |plain.value.items| == pageSize)
      && (plain.Ok? && plain.value.nextPageToken.Some? && plain.value.items[pageSize - 1].post.createdAt == 0 ==>
            action == Err(InvalidLastPostTimestamp))
      && (plain.Ok? && (plain.value.nextPageToken.None? || plain.value.items[pageSize - 1].post.createdAt != 0) ==>
            action == Ok(FeedPage(plain.value.items, plain.value.nextPageToken, pageToken)))
  {
    var boundary := ResolveBoundary(hmac, pageToken, now);
    if boundary.Ok? {
      var ranked := Ranked(table, queries, boundary.value, pageSize, scoreNow);
      var plain := Feed.GenerateFeed(hmac, table, queries, pageToken, pageSize, now, scoreNow);
      var action := GenerateFeed(hmac, table, queries, userId, pageToken, pageSize, now, scoreNow);
      if |ranked| > pageSize {
        assert plain.value.items == ranked[..pageSize];
        assert plain.value.items[pageSize - 1] == ranked[pageSize - 1];
      } else {
        assert plain == Ok(PaginatedResult(ranked, None));
        assert action == Ok(FeedPage(ranked, None, pageToken));
      }
    }
  }

  /**
   * The request's page token matters only through the boundary it resolves to:
   * two tokens with the same boundary give the same items and next-page token.
   */
  lemma OnlyBoundaryDependsOnToken(hmac: Hmac, table: seq<Post>, queries: int -> PostQueries, userId: Option<string>,
                                   token1: Option<string>, token2: Option<string>, pageSize: nat, now: int, scoreNow: int)
    requires pageSize >= 1
    requires forall p :: p in table ==> ScoreDefined(p.createdAt, scoreNow)
    requires ResolveBoundary(hmac, token1, now) == ResolveBoundary(hmac, token2, now)
    ensures var r1 := GenerateFeed(hmac, table, queries, userId, token1, pageSize, now, scoreNow);
      var r2 := GenerateFeed(hmac, table, queries, userId, token2, pageSize, now, scoreNow);
      && r1.Ok? == r2.Ok?
      && (r1.Ok? ==> r1.value.(previousPageToken := token2) == r2.value)
  {
    var boundary := ResolveBoundary(hmac, token1, now);
    if HasUserId(userId) && boundary.Ok? {
      var ranked := Ranked(table, queries, boundary.value, pageSize, scoreNow);
      var r1 := GenerateFeed(hmac, table, queries, userId, token1, pageSize, now, scoreNow);
      var r2 := GenerateFeed(hmac, table, queries, userId, token2, pageSize, now, scoreNow);
      if |ranked| > pageSize {
        var last := ranked[pageSize - 1].post.createdAt;
        assert r1 == if last == 0 then Err(InvalidLastPostTimestamp)
          else Ok(FeedPage(ranked[..pageSize], Some(GeneratePageToken(hmac, last)), token1));
        assert r2 == if last == 0 then Err(InvalidLastPostTimestamp)
          else Ok(FeedPage(ranked[..pageSize], Some(GeneratePageToken(hmac, last)), token2));
      } else {
        assert r1 == Ok(FeedPage(ranked, None, token1));
        assert r2 == Ok(FeedPage(ranked, None, token2));
      }
    }
  }
}
