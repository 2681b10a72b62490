/**
 * `calculateScore`: weighted engagement divided by the post's age in days plus one.
 * The clock reading `now` is a parameter and the arithmetic is exact.
 */
module Score {
  import opened Posts

  /** `ms("1d")`. */
  const DayMs: int := 86_400_000

  /** The three engagement counters of a post. */
  datatype UserInteraction = UserInteraction(likes: nat, comments: nat, shares: nat)

  const NoInteraction := UserInteraction(0, 0, 0)

  /** The weighted engagement: a like counts 1, a comment 2, a share 3. */
  function Engagement(interactions: UserInteraction): nat
  {
    interactions.likes + interactions.comments * 2 + interactions.shares * 3
  }

  /** The age of a post in (fractional) days at time `now`. */
  function AgeDays(createdAt: int, now: int): real
  {
    (now - createdAt) as real / DayMs as real
  }

  /** The one instant at which the score's denominator is zero is excluded. */
  predicate ScoreDefined(createdAt: int, now: int)
  {
    createdAt != now + DayMs
  }

  function CalculateScore(post: Post, interactions: UserInteraction, now: int): (score: real)
    requires ScoreDefined(post.createdAt, now)
    ensures score * (AgeDays(post.createdAt, now) + 1.0) == Engagement(interactions) as real
  {
    Engagement(interactions) as real / (AgeDays(post.createdAt, now) + 1.0)
  }

  /** Facts about division, stated on bare reals so that no score definition is unfolded around them. */
  lemma DivZero(e: real, d: real)
    requires d != 0.0
    ensures e / d == 0.0 <==> e == 0.0
  {
  }

  lemma DivNonNegative(e: real, d: real)
    requires e >= 0.0 && d > 0.0
    ensures e / d >= 0.0
  {
  }

  lemma DivMonotoneNumerator(e1: real, e2: real, d: real)
    requires e1 <= e2 && d > 0.0
    ensures e1 / d <= e2 / d
  {
  }

  lemma DivAntitoneDenominator(e: real, d1: real, d2: real)
    requires e >= 0.0 && d1 >= d2 > 0.0
    ensures e / d1 <= e / d2
  {
  }

  lemma DivAtMostNumerator(e: real, d: real)
    requires e >= 0.0 && d >= 1.0
    ensures e / d <= e
  {
  }

  /** The score is zero exactly when the post has no likes, comments or shares. */
  lemma ZeroIffNoEngagement(post: Post, interactions: UserInteraction, now: int)
    requires ScoreDefined(post.createdAt, now)
    ensures CalculateScore(post, interactions, now) == 0.0 <==> interactions == NoInteraction
  {
    DivZero(Engagement(interactions) as real, AgeDays(post.createdAt, now) + 1.0);
  }

  /** No post created less than a day after `now` has a negative score. */
  lemma NonNegative(post: Post, interactions: UserInteraction, now: int)
    requires post.createdAt < now + DayMs
    ensures CalculateScore(post, interactions, now) >= 0.0
  {
    DivNonNegative(Engagement(interactions) as real, AgeDays(post.createdAt, now) + 1.0);
  }

  /** A post that is not from the future scores at most its weighted engagement. */
  lemma AtMostEngagement(post: Post, interactions: UserInteraction, now: int)
    requires post.createdAt <= now
    ensures CalculateScore(post, interactions, now) <= Engagement(interactions) as real
  {
    DivAtMostNumerator(Engagement(interactions) as real, AgeDays(post.createdAt, now) + 1.0);
  }

  /** With the same engagement, an older post never outscores a newer one. */
  lemma OlderScoresLower(older: Post, newer: Post, interactions: UserInteraction, now: int)
    requires older.createdAt <= newer.createdAt < now + DayMs
    ensures CalculateScore(older, interactions, now) <= CalculateScore(newer, interactions, now)
  {
    DivAntitoneDenominator(Engagement(interactions) as real,
      AgeDays(older.createdAt, now) + 1.0, AgeDays(newer.createdAt, now) + 1.0);
  }

  /** At the same age, more weighted engagement never scores lower. */
  lemma MoreEngagementScoresHigher(post: Post, less: UserInteraction, more: UserInteraction, now: int)
    requires post.createdAt < now + DayMs
    requires Engagement(less) <= Engagement(more)
    ensures CalculateScore(post, less, now) <= CalculateScore(post, more, now)
  {
    DivMonotoneNumerator(Engagement(less) as real, Engagement(more) as real,
      AgeDays(post.createdAt, now) + 1.0);
  }

  /** A post two days old with 10 likes, 5 comments and 1 share scores 23/3. */
  lemma TwoDayOldExample(post: Post, now: int)
    requires now - post.createdAt == 2 * DayMs
    ensures CalculateScore(post, UserInteraction(10, 5, 1), now) == 23.0 / 3.0
  {
    assert AgeDays(post.createdAt, now) == 2.0;
  }
}
