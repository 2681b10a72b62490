/**
 * `getUserInteractionsForPosts`: one entry per post id, each counter taken from
 * the outcome of that post's like, comment or share query. The concurrent
 * fan-out is run here one post at a time.
 */
module Interactions {
  import opened Score

  /** A row of a count query's result set. */
  datatype CountRow = CountRow(count: int)

  /** How a query settled: fulfilled with its result rows, or rejected. */
  datatype QueryOutcome = Fulfilled(rows: seq<CountRow>) | Rejected

  /** The outcomes of the three queries issued for one post. */
  datatype PostQueries = PostQueries(likes: QueryOutcome, comments: QueryOutcome, shares: QueryOutcome)

  /** A counter is the number of rows its query returned, or 0 when the query was rejected. */
  function Counter(outcome: QueryOutcome): (n: nat)
    ensures n == 0 <==> outcome.Rejected? || outcome.rows == []
    ensures outcome.Fulfilled? ==> n == |outcome.rows|
  {
    if outcome.Fulfilled? then |outcome.rows| else 0
  }

  /** The three counters of one post, each from its own query. */
  function InteractionOf(queries: PostQueries): (interaction: UserInteraction)
    ensures interaction.likes == Counter(queries.likes)
    ensures interaction.comments == Counter(queries.comments)
    ensures interaction.shares == Counter(queries.shares)
    ensures queries == PostQueries(Rejected, Rejected, Rejected) ==> interaction == NoInteraction
  {
    UserInteraction(Counter(queries.likes), Counter(queries.comments), Counter(queries.shares))
  }

  /** The map the method builds, as a value: what the feed reads. */
  function InteractionsFor(postIds: seq<int>, queries: int -> PostQueries): (interactions: map<int, UserInteraction>)
    ensures interactions.Keys == set id | id in postIds
    ensures forall id :: id in interactions ==> interactions[id] == InteractionOf(queries(id))
  {
    map id | id in postIds :: InteractionOf(queries(id))
  }

  method GetUserInteractionsForPosts(postIds: seq<int>, queries: int -> PostQueries)
    returns (interactions: map<int, UserInteraction>)
    ensures interactions.Keys == set id | id in postIds
    ensures forall id :: id in interactions ==>
      && interactions[id].likes == Counter(queries(id).likes)
      && interactions[id].comments == Counter(queries(id).comments)
      && interactions[id].shares == Counter(queries(id).shares)
    ensures interactions == InteractionsFor(postIds, queries)
  {
    interactions := map[];
    for i := 0 to |postIds|
      invariant interactions.Keys == set id | id in postIds[..i]
      invariant forall id :: id in interactions ==> interactions[id] == InteractionOf(queries(id))
    {
      interactions := interactions[postIds[i] := InteractionOf(queries(postIds[i]))];
      assert postIds[..i + 1] == postIds[..i] + [postIds[i]];
    }
    assert postIds[..|postIds|] == postIds;
  }

  /**
   * A count query answers with a single row holding the count, so a fulfilled
   * counter is 1 whatever that count is.
   */
  lemma SingleRowCounterIsOne(count: int)
    ensures Counter(Fulfilled([CountRow(count)])) == 1
  {
  }

  /** The rejection of one query zeroes its own counter and leaves the other two as they were. */
  lemma RejectionIsolated(queries: PostQueries)
    ensures InteractionOf(queries.(likes := Rejected)) == InteractionOf(queries).(likes := 0)
    ensures InteractionOf(queries.(comments := Rejected)) == InteractionOf(queries).(comments := 0)
    ensures InteractionOf(queries.(shares := Rejected)) == InteractionOf(queries).(shares := 0)
  {
  }
}
