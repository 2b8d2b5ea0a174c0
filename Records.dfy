/**
 * A post as the feed returns it, reduced to the fields the report job reads.
 */
module Records {

  /**
   * `created` is the post's creation time in milliseconds since the epoch (the
   * feed's naive timestamp read as UTC); `payout` is `total_payout_value`, a
   * currency-tagged decimal such as "1.000 SBD"; `kind` is `json_metadata.type`.
   */
  datatype Post = Post(
    created: int,
    payout: string,
    kind: string,
    author: string,
    title: string,
    url: string)

  /** The feed order: newest first. */
  ghost predicate Descending(s: seq<Post>)
  {
    forall i, j :: 0 <= i < j < |s| ==> s[i].created >= s[j].created
  }

  /** No post was created after the instant `now`. */
  ghost predicate CreatedBy(s: seq<Post>, now: int)
  {
    forall i :: 0 <= i < |s| ==> s[i].created <= now
  }
}
