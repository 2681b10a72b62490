/** A row of the posts table, read-only to the feed. Timestamps are milliseconds since the epoch. */
module Posts {
  import opened Wrappers

  datatype Post = Post(
    postId: int,
    authorClerkUserId: Option<string>,
    brandId: Option<int>,
    creatorId: Option<int>,
    content: string,
    mediaUrl: Option<string>,
    publishedAt: Option<int>,
    createdAt: int,
    updatedAt: int)
}
