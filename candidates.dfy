/**
 * The candidate query of `getPostsFromFollowedBrandsAndCreators` over an
 * in-memory table: `createdAt < lastTimestamp`, newest first, at most `limit` rows.
 * `table` holds the rows the query ranges over, in storage order; rows with
 * the same `createdAt` keep that order.
 */
module Candidates {
  import opened Posts
  import opened Sorting

  function CreatedAtKey(post: Post): real
  {
    post.createdAt as real
  }

  function Min(a: nat, b: nat): nat
  {
    if a <= b then a else b
  }

  /** The rows created strictly before `lastTimestamp`, in storage order. */
  function CreatedBefore(table: seq<Post>, lastTimestamp: int): (rows: seq<Post>)
    ensures forall p :: p in rows <==> p in table && p.createdAt < lastTimestamp
    ensures multiset(rows) <= multiset(table)
    ensures forall p :: p in table && p.createdAt < lastTimestamp ==>
      multiset(rows)[p] == multiset(table)[p]
  {
    if table == [] then []
    else
      assert table == [table[0]] + table[1..];
      var rest := CreatedBefore(table[1..], lastTimestamp);
      if table[0].createdAt < lastTimestamp then [table[0]] + rest else rest
  }

  /** With no row older than `lastTimestamp`, nothing passes the filter. */
  lemma {:induction false} NothingBefore(table: seq<Post>, lastTimestamp: int)
    requires forall p :: p in table ==> p.createdAt >= lastTimestamp
    ensures CreatedBefore(table, lastTimestamp) == []
  {
    if table != [] {
      NothingBefore(table[1..], lastTimestamp);
    }
  }

  lemma PrefixMultiset<T>(s: seq<T>, n: nat)
    requires n <= |s|
    ensures multiset(s[..n]) <= multiset(s)
  {
    assert s == s[..n] + s[n..];
  }

  /** In a newest-first sequence, whatever is left after the first `n` is no newer than what is kept. */
  lemma DroppedAreOlder(sorted: seq<Post>, n: nat, p: Post)
    requires n <= |sorted| && SortedDesc(sorted, CreatedAtKey)
    requires p in sorted && p !in sorted[..n]
    ensures forall q :: q in sorted[..n] ==> p.createdAt <= q.createdAt
  {
    var j :| 0 <= j < |sorted| && sorted[j] == p;
    assert forall k :: 0 <= k < n ==> sorted[k] == sorted[..n][k];
    assert j >= n;
    forall q | q in sorted[..n] ensures p.createdAt <= q.createdAt {
      var i :| 0 <= i < n && sorted[..n][i] == q;
      assert CreatedAtKey(sorted[i]) >= CreatedAtKey(sorted[j]);
    }
  }

  /** The newest `n` of `eligible`, newest first. */
  lemma NewestFirst(eligible: seq<Post>, n: nat)
    requires n <= |eligible|
    ensures var kept := SortDesc(eligible, CreatedAtKey)[..n];
      && |kept| == n
      && multiset(kept) <= multiset(eligible)
      && (n == |eligible| ==> multiset(kept) == multiset(eligible))
      && (forall i, j :: 0 <= i < j < n ==> kept[i].createdAt >= kept[j].createdAt)
      && (forall p :: p in eligible && p !in kept ==> forall q :: q in kept ==> p.createdAt <= q.createdAt)
  {
    var sorted := SortDesc(eligible, CreatedAtKey);
    var kept := sorted[..n];
    PrefixMultiset(sorted, n);
    assert n == |eligible| ==> kept == sorted;
    forall i, j | 0 <= i < j < n ensures kept[i].createdAt >= kept[j].createdAt {
      assert CreatedAtKey(sorted[i]) >= CreatedAtKey(sorted[j]);
    }
    forall p | p in eligible && p !in kept
      ensures forall q :: q in kept ==> p.createdAt <= q.createdAt
    {
      assert p in multiset(sorted);
      DroppedAreOlder(sorted, n, p);
    }
  }

  /**
   * `SELECT * FROM posts WHERE createdAt < lastTimestamp ORDER BY createdAt DESC LIMIT limit`.
   */
  function GetPostsFromFollowedBrandsAndCreators(table: seq<Post>, lastTimestamp: int, limit: nat): (posts: seq<Post>)
    ensures |posts| == Min(limit, |CreatedBefore(table, lastTimestamp)|)
    ensures forall p :: p in posts ==> p in table && p.createdAt < lastTimestamp
    ensures forall i, j :: 0 <= i < j < |posts| ==> posts[i].createdAt >= posts[j].createdAt
    ensures multiset(posts) <= multiset(table)
    ensures |posts| < limit ==> multiset(posts) == multiset(CreatedBefore(table, lastTimestamp))
    ensures forall p :: p in table && p.createdAt < lastTimestamp && p !in posts ==>
      forall q :: q in posts ==> p.createdAt <= q.createdAt
  {
    var eligible := CreatedBefore(table, lastTimestamp);
    var n := Min(limit, |eligible|);
    NewestFirst(eligible, n);
    var posts := SortDesc(eligible, CreatedAtKey)[..n];
    assert forall p :: p in posts ==> p in multiset(eligible);
    posts
  }
}
