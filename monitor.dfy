/**
 * `monitor_post`: poll a submission's comments `max_checks` times and collect
 * every comment not seen before, sleeping `check_interval` seconds between
 * checks.
 *
 * `poll(k)` is the list of top-level comments that the k-th check (counting
 * from 0) finds after `submission.comments.replace_more(limit=0)`.
 */
module Monitor {
  import opened Wrappers
  import opened Comments

  /** The comments of the first `n` checks, one snapshot after the other. */
  function Polled(poll: nat -> seq<Comment>, n: nat): seq<Comment> {
    if n == 0 then [] else Polled(poll, n - 1) + poll(n - 1)
  }

  /** The ids of the first `n` comments of `s`. */
  function SeenIds(s: seq<Comment>, n: nat): set<string>
    requires n <= |s|
  {
    if n == 0 then {} else SeenIds(s, n - 1) + {s[n - 1].id}
  }

  /** The first `n` comments of `s`, keeping each comment whose id did not occur before it. */
  function FirstSeen(s: seq<Comment>, n: nat): seq<Comment>
    requires n <= |s|
  {
    if n == 0 then []
    else if s[n - 1].id in SeenIds(s, n - 1) then FirstSeen(s, n - 1)
    else FirstSeen(s, n - 1) + [s[n - 1]]
  }

  /** Every comment of `s`, with each later comment of an id already seen dropped. */
  function Dedup(s: seq<Comment>): seq<Comment> {
    FirstSeen(s, |s|)
  }

  /** Some comment of `s` has this id. */
  ghost predicate HasId(s: seq<Comment>, id: string) {
    exists i :: 0 <= i < |s| && s[i].id == id
  }

  /** An id is among the first `n` ids exactly when one of the first `n` comments has it. */
  lemma {:induction false} SeenIdsMember(s: seq<Comment>, n: nat, id: string)
    requires n <= |s|
    ensures id in SeenIds(s, n) <==> exists i :: 0 <= i < n && s[i].id == id
  {
    if n > 0 {
      SeenIdsMember(s, n - 1, id);
    }
  }

  /** The position of the first comment of `s` with this id. */
  function FirstIndex(s: seq<Comment>, id: string): (i: nat)
    requires HasId(s, id)
    ensures i < |s| && s[i].id == id
    ensures forall j :: 0 <= j < i ==> s[j].id != id
  {
    if s[0].id == id then 0
    else
      assert HasId(s[1..], id) by {
        var i :| 0 <= i < |s| && s[i].id == id;
        assert s[1..][i - 1].id == id;
      }
      1 + FirstIndex(s[1..], id)
  }

  /** A comment with no earlier comment of the same id is at the first index of its id. */
  lemma FirstIndexAt(s: seq<Comment>, i: nat)
    requires i < |s|
    requires forall j :: 0 <= j < i ==> s[j].id != s[i].id
    ensures HasId(s, s[i].id) && FirstIndex(s, s[i].id) == i
  {
    assert HasId(s, s[i].id);
  }

  /** The ids Dedup keeps after `n` comments are the ids of those comments. */
  lemma {:induction false} FirstSeenIds(s: seq<Comment>, n: nat)
    requires n <= |s|
    ensures var r := FirstSeen(s, n); SeenIds(r, |r|) == SeenIds(s, n)
  {
    if n > 0 {
      FirstSeenIds(s, n - 1);
      var p := FirstSeen(s, n - 1);
      if s[n - 1].id !in SeenIds(s, n - 1) {
        SeenIdsPrefix(p, s[n - 1]);
      }
    }
  }

  /** Appending a comment adds its id to those already seen. */
  lemma SeenIdsPrefix(p: seq<Comment>, c: Comment)
    ensures SeenIds(p + [c], |p| + 1) == SeenIds(p, |p|) + {c.id}
  {
    SeenIdsSame(p, p + [c], |p|);
  }

  /** The ids of a prefix depend only on that prefix. */
  lemma {:induction false} SeenIdsSame(a: seq<Comment>, b: seq<Comment>, n: nat)
    requires n <= |a| && n <= |b|
    requires forall i :: 0 <= i < n ==> a[i] == b[i]
    ensures SeenIds(a, n) == SeenIds(b, n)
  {
    if n > 0 {
      SeenIdsSame(a, b, n - 1);
    }
  }

  /** `c` is the first comment of `s` with its id, and that comment lies among the first `n`. */
  ghost predicate FirstOfId(s: seq<Comment>, n: nat, c: Comment) {
    HasId(s, c.id) && FirstIndex(s, c.id) < n && c == s[FirstIndex(s, c.id)]
  }

  /**
   * After `n` comments, each comment Dedup keeps is the first comment of `s`
   * with its id, and that first comment lies among the `n`.
   */
  lemma {:induction false} FirstSeenFirst(s: seq<Comment>, n: nat)
    requires n <= |s|
    ensures forall k :: 0 <= k < |FirstSeen(s, n)| ==> FirstOfId(s, n, FirstSeen(s, n)[k])
  {
    if n > 0 {
      FirstSeenFirst(s, n - 1);
      var c := s[n - 1];
      var p := FirstSeen(s, n - 1);
      if c.id !in SeenIds(s, n - 1) {
        SeenIdsMember(s, n - 1, c.id);
        FirstIndexAt(s, n - 1);
        var r := p + [c];
        assert FirstSeen(s, n) == r;
        forall k | 0 <= k < |r|
          ensures FirstOfId(s, n, r[k])
        {
          if k < |p| {
            assert r[k] == p[k] && FirstOfId(s, n - 1, p[k]);
          }
        }
      } else {
        assert FirstSeen(s, n) == p;
        forall k | 0 <= k < |p|
          ensures FirstOfId(s, n, p[k])
        {
          assert FirstOfId(s, n - 1, p[k]);
        }
      }
    }
  }

  /** The comments of `r` are in the order in which their ids first occur in `s`. */
  ghost predicate InFirstOrder(s: seq<Comment>, r: seq<Comment>)
    requires forall k :: 0 <= k < |r| ==> HasId(s, r[k].id)
  {
    forall i, j :: 0 <= i < j < |r| ==> FirstIndex(s, r[i].id) < FirstIndex(s, r[j].id)
  }

  /** A comment whose id first occurs after those of `p` extends the order of `p`. */
  lemma AppendInFirstOrder(s: seq<Comment>, p: seq<Comment>, c: Comment, n: nat)
    requires forall k :: 0 <= k < |p| ==> HasId(s, p[k].id) && FirstIndex(s, p[k].id) < n
    requires InFirstOrder(s, p)
    requires HasId(s, c.id) && FirstIndex(s, c.id) == n
    ensures forall k :: 0 <= k < |p + [c]| ==> HasId(s, (p + [c])[k].id)
    ensures InFirstOrder(s, p + [c])
  {
    var r := p + [c];
    forall k | 0 <= k < |r|
      ensures HasId(s, r[k].id)
    {
      if k < |p| {
        assert r[k] == p[k];
      }
    }
    forall i, j | 0 <= i < j < |r|
      ensures FirstIndex(s, r[i].id) < FirstIndex(s, r[j].id)
    {
      assert r[i] == p[i];
      if j < |p| {
        assert r[j] == p[j];
      }
    }
  }

  /** After `n` comments, the kept comments are in the order in which their ids first occur. */
  lemma {:induction false} FirstSeenOrder(s: seq<Comment>, n: nat)
    requires n <= |s|
    ensures forall k :: 0 <= k < |FirstSeen(s, n)| ==> HasId(s, FirstSeen(s, n)[k].id)
    ensures InFirstOrder(s, FirstSeen(s, n))
  {
    FirstSeenFirst(s, n);
    if n > 0 {
      FirstSeenOrder(s, n - 1);
      var c := s[n - 1];
      if c.id !in SeenIds(s, n - 1) {
        FirstSeenFirst(s, n - 1);
        SeenIdsMember(s, n - 1, c.id);
        FirstIndexAt(s, n - 1);
        AppendInFirstOrder(s, FirstSeen(s, n - 1), c, n - 1);
      }
    }
  }

  /** Dedup keeps exactly the ids of its input. */
  lemma DedupIds(s: seq<Comment>)
    ensures var r := Dedup(s); SeenIds(r, |r|) == SeenIds(s, |s|)
  {
    FirstSeenIds(s, |s|);
  }

  /**
   * Dedup keeps, for every id, the first comment with that id, and lists the
   * kept comments in the order in which their ids first occur.
   */
  lemma DedupFirstSeen(s: seq<Comment>)
    ensures forall k :: 0 <= k < |Dedup(s)| ==> HasId(s, Dedup(s)[k].id)
    ensures forall k :: 0 <= k < |Dedup(s)| ==> Dedup(s)[k] == s[FirstIndex(s, Dedup(s)[k].id)]
    ensures InFirstOrder(s, Dedup(s))
  {
    FirstSeenFirst(s, |s|);
    FirstSeenOrder(s, |s|);
    assert Dedup(s) == FirstSeen(s, |s|);
  }

  /** No id is kept twice. */
  lemma DedupDistinct(s: seq<Comment>)
    ensures var r := Dedup(s); forall i, j :: 0 <= i < j < |r| ==> r[i].id != r[j].id
  {
    DedupFirstSeen(s);
    var r := Dedup(s);
    forall i, j | 0 <= i < j < |r|
      ensures r[i].id != r[j].id
    {
      assert FirstIndex(s, r[i].id) < FirstIndex(s, r[j].id);
    }
  }

  /** `[x] * n` for the sleeps; empty when `n <= 0`. */
  function Repeat(x: int, n: int): seq<int>
    decreases n
  {
    if n <= 0 then [] else Repeat(x, n - 1) + [x]
  }

  /** `[x] * n` holds `max(n, 0)` copies of `x` and nothing else. */
  lemma {:induction false} RepeatSpec(x: int, n: int)
    ensures |Repeat(x, n)| == if n <= 0 then 0 else n
    ensures forall k :: 0 <= k < |Repeat(x, n)| ==> Repeat(x, n)[k] == x
    decreases n
  {
    if n > 0 {
      RepeatSpec(x, n - 1);
    }
  }

  /** Polling more checks never yields fewer comments. */
  lemma {:induction false} PolledLength(poll: nat -> seq<Comment>, c: nat, m: nat)
    requires c < m
    ensures |Polled(poll, c)| + |poll(c)| <= |Polled(poll, m)|
    decreases m
  {
    if c < m - 1 {
      PolledLength(poll, c, m - 1);
    }
  }

  /** The snapshot of check `c` sits right after the snapshots before it in every longer poll. */
  lemma {:induction false} PolledAt(poll: nat -> seq<Comment>, c: nat, m: nat, j: nat)
    requires c < m && j < |poll(c)|
    ensures |Polled(poll, c)| + j < |Polled(poll, m)|
    ensures Polled(poll, m)[|Polled(poll, c)| + j] == poll(c)[j]
    decreases m
  {
    if c < m - 1 {
      PolledAt(poll, c, m - 1, j);
    }
  }

  /** In every longer poll, the snapshot of check `c` comes right after the snapshots before it. */
  lemma {:induction false} PolledSnapshot(poll: nat -> seq<Comment>, c: nat, m: nat)
    requires c < m
    ensures |Polled(poll, c)| + |poll(c)| <= |Polled(poll, m)|
    ensures forall j :: 0 <= j < |poll(c)| ==> Polled(poll, m)[|Polled(poll, c)| + j] == poll(c)[j]
  {
    PolledLength(poll, c, m);
    forall j | 0 <= j < |poll(c)|
      ensures Polled(poll, m)[|Polled(poll, c)| + j] == poll(c)[j]
    {
      PolledAt(poll, c, m, j);
    }
  }

  /** One comment more: its id joins the seen ids, and it is kept exactly when its id is new. */
  lemma ScanStep(s: seq<Comment>, n: nat, c: Comment)
    requires n < |s| && s[n] == c
    ensures SeenIds(s, n + 1) == SeenIds(s, n) + {c.id}
    ensures FirstSeen(s, n + 1) == if c.id in SeenIds(s, n) then FirstSeen(s, n) else FirstSeen(s, n) + [c]
  {
  }

  /**
   * The inner loop of `monitor_post` over one snapshot: records the id of
   * every comment not seen before and appends it to the new and the overall
   * responses. `s` is everything polled so far, of which the first `done`
   * comments were scanned before and the snapshot comes next.
   */
  method ScanSnapshot(comments: seq<Comment>, seen: set<string>, responses: seq<Comment>,
                      ghost s: seq<Comment>, ghost done: nat)
    returns (seenCommentIds: set<string>, newResponses: seq<Comment>, allResponses: seq<Comment>)
    requires done + |comments| <= |s|
    requires forall j :: 0 <= j < |comments| ==> s[done + j] == comments[j]
    requires seen == SeenIds(s, done) && responses == FirstSeen(s, done)
    ensures seenCommentIds == SeenIds(s, done + |comments|)
    ensures allResponses == FirstSeen(s, done + |comments|)
    ensures allResponses == responses + newResponses
  {
    seenCommentIds, newResponses, allResponses := seen, [], responses;
    var j := 0;
    while j < |comments|
      invariant 0 <= j <= |comments|
      invariant seenCommentIds == SeenIds(s, done + j)
      invariant allResponses == FirstSeen(s, done + j)
      invariant allResponses == responses + newResponses
    {
      var comment := comments[j];
      ScanStep(s, done + j, comment);
      if comment.id !in seenCommentIds {
        seenCommentIds := seenCommentIds + {comment.id};
        newResponses := newResponses + [comment];
        allResponses := allResponses + [comment];
      }
      j := j + 1;
    }
  }

  /**
   * One check of `monitor_post`: scans the comments found by check number
   * `check` after those of the checks before it; all `n` checks together
   * poll `Polled(poll, n)`.
   */
  method Check(poll: nat -> seq<Comment>, check: nat, seen: set<string>, responses: seq<Comment>,
               ghost n: nat, ghost done: nat)
    returns (seenCommentIds: set<string>, allResponses: seq<Comment>)
    requires check < n && done == |Polled(poll, check)| <= |Polled(poll, n)|
    requires seen == SeenIds(Polled(poll, n), done) && responses == FirstSeen(Polled(poll, n), done)
    ensures |Polled(poll, check + 1)| <= |Polled(poll, n)|
    ensures seenCommentIds == SeenIds(Polled(poll, n), |Polled(poll, check + 1)|)
    ensures allResponses == FirstSeen(Polled(poll, n), |Polled(poll, check + 1)|)
  {
    var comments := poll(check);
    PolledSnapshot(poll, check, n);
    var newResponses;
    seenCommentIds, newResponses, allResponses := ScanSnapshot(comments, seen, responses, Polled(poll, n), done);
  }

  /** `time.sleep(check_interval)` raises ValueError after the first check. */
  predicate SleepRaises(checkInterval: int, maxChecks: int) {
    checkInterval < 0 && 2 <= maxChecks
  }

  /**
   * `monitor_post(submission, check_interval, max_checks)`: returns every
   * comment whose id is new, in the order first seen, and sleeps between
   * consecutive checks only. A negative interval makes the first sleep raise
   * ValueError, which nothing catches: then nothing is returned (`None`).
   */
  method MonitorPost(poll: nat -> seq<Comment>, checkInterval: int := 30, maxChecks: int := 10)
    returns (allResponses: Option<seq<Comment>>, sleeps: seq<int>)
    ensures SleepRaises(checkInterval, maxChecks) ==> allResponses == None && sleeps == []
    ensures !SleepRaises(checkInterval, maxChecks) ==>
      allResponses == Some(Dedup(Polled(poll, if maxChecks <= 0 then 0 else maxChecks))) &&
      sleeps == Repeat(checkInterval, maxChecks - 1)
  {
    ghost var total := Polled(poll, if maxChecks <= 0 then 0 else maxChecks);
    var responses: seq<Comment> := [];
    var seenCommentIds: set<string> := {};
    sleeps := [];
    var check: nat := 0;
    ghost var done: nat := 0;
    while check < maxChecks
      invariant check == 0 || check <= maxChecks
      invariant SleepRaises(checkInterval, maxChecks) ==> check == 0
      invariant done == |Polled(poll, check)| <= |total|
      invariant seenCommentIds == SeenIds(total, done)
      invariant responses == FirstSeen(total, done)
      invariant sleeps == Repeat(checkInterval, if check < maxChecks then check else maxChecks - 1)
      decreases maxChecks - check
    {
      seenCommentIds, responses := Check(poll, check, seenCommentIds, responses, maxChecks, done);
      done := |Polled(poll, check + 1)|;
      if check < maxChecks - 1 {
        if checkInterval < 0 {
          return None, sleeps;
        }
        sleeps := sleeps + [checkInterval];
      }
      check := check + 1;
    }
    return Some(responses), sleeps;
  }

  /** Scenario: snapshots {A}, {A,B}, {A,B,C} over three checks give A, B, C once each. */
  lemma ThreeChecksCollectEachOnce(a: Comment, b: Comment, c: Comment)
    requires a.id != b.id && a.id != c.id && b.id != c.id
    ensures Dedup(Polled(k => if k == 0 then [a] else if k == 1 then [a, b] else [a, b, c], 3)) == [a, b, c]
  {
    var s := [a, a, b, a, b, c];
    var poll := k => if k == 0 then [a] else if k == 1 then [a, b] else [a, b, c];
    assert Polled(poll, 1) == [a];
    assert Polled(poll, 2) == [a, a, b];
    assert Polled(poll, 3) == s;
    assert SeenIds(s, 1) == {a.id};
    assert SeenIds(s, 2) == {a.id};
    assert SeenIds(s, 3) == {a.id, b.id};
    assert SeenIds(s, 4) == {a.id, b.id};
    assert SeenIds(s, 5) == {a.id, b.id};
    assert FirstSeen(s, 1) == [a];
    assert FirstSeen(s, 2) == [a];
    assert FirstSeen(s, 3) == [a, b];
    assert FirstSeen(s, 4) == [a, b];
    assert FirstSeen(s, 5) == [a, b];
    assert FirstSeen(s, 6) == [a, b, c];
  }
}
