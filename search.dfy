/**
 * `_search_comments_impl`: scan a comment stream and keep, in stream order,
 * the comments whose body contains the query, ignoring case, until `limit`
 * of them are kept.
 *
 * `stream` is what `search_target.comments(limit=limit)` yields before it
 * ends, and `raises` says whether it then raises instead of ending (a
 * network or API error); which subreddit it comes from is decided by PRAW
 * and is not modelled.
 */
module Search {
  import opened Text
  import opened Comments

  /** `query.lower() in comment.body.lower()`. */
  predicate Matches(query: string, c: Comment) {
    Contains(Lower(c.body), Lower(query))
  }

  /** The comments of the stream that match, in stream order. */
  function Matching(query: string, stream: seq<Comment>): seq<Comment>
    decreases |stream|
  {
    if stream == [] then []
    else (if Matches(query, stream[0]) then [stream[0]] else []) + Matching(query, stream[1..])
  }

  /** A comment is among the matches exactly when it is in the stream and matches. */
  lemma {:induction false} MatchingMembers(query: string, stream: seq<Comment>, c: Comment)
    ensures c in Matching(query, stream) <==> c in stream && Matches(query, c)
    decreases |stream|
  {
    if stream != [] {
      MatchingMembers(query, stream[1..], c);
      assert stream == [stream[0]] + stream[1..];
    }
  }

  /** Filtering a concatenation filters each part. */
  lemma {:induction false} MatchingAppend(query: string, a: seq<Comment>, b: seq<Comment>)
    ensures Matching(query, a + b) == Matching(query, a) + Matching(query, b)
    decreases |a|
  {
    if a == [] {
      assert a + b == b;
    } else {
      var ab := a + b;
      assert ab[0] == a[0] && ab[1..] == a[1..] + b;
      MatchingAppend(query, a[1..], b);
      var head := if Matches(query, a[0]) then [a[0]] else [];
      calc {
        Matching(query, ab);
        head + Matching(query, a[1..] + b);
        head + (Matching(query, a[1..]) + Matching(query, b));
        (head + Matching(query, a[1..])) + Matching(query, b);
      }
    }
  }

  /** The record kept for a match: the comment with its body cut to the 200-character preview. */
  function Summary(c: Comment): Comment {
    c.(body := Truncate(c.body))
  }

  /** How many matches the search keeps: `limit`, but at least one, since the limit is tested after the append. */
  function Kept(limit: int): nat {
    if limit < 1 then 1 else limit
  }

  /**
   * The search returns the previews of the first `limit` matches (of the first
   * match when `limit <= 0`), or of all matches when there are fewer. It stops
   * reading the stream once it has enough, so a stream that raises only
   * matters when there are fewer: then the `except` clause discards what was
   * collected and the result is empty.
   */
  method SearchComments(stream: seq<Comment>, raises: bool, query: string, limit: int := 10)
    returns (comments: seq<Comment>)
    ensures Kept(limit) <= |Matching(query, stream)| ==> |comments| == Kept(limit)
    ensures |Matching(query, stream)| < Kept(limit) && !raises ==> |comments| == |Matching(query, stream)|
    ensures |Matching(query, stream)| < Kept(limit) && raises ==> comments == []
    ensures forall k :: 0 <= k < |comments| ==> comments[k] == Summary(Matching(query, stream)[k])
  {
    comments := [];
    var i := 0;
    while i < |stream|
      invariant 0 <= i <= |stream|
      invariant |comments| == |Matching(query, stream[..i])| < Kept(limit)
      invariant forall k :: 0 <= k < |comments| ==> comments[k] == Summary(Matching(query, stream[..i])[k])
    {
      var comment := stream[i];
      assert stream[..i + 1] == stream[..i] + [comment];
      MatchingAppend(query, stream[..i], [comment]);
      if Contains(Lower(comment.body), Lower(query)) {
        comments := comments + [Summary(comment)];
        if |comments| >= limit {
          MatchingAppend(query, stream[..i + 1], stream[i + 1..]);
          assert stream[..i + 1] + stream[i + 1..] == stream;
          return;
        }
      }
      i := i + 1;
    }
    assert stream[..i] == stream;
    if raises {
      comments := [];
    }
  }
}
