# reddit_cli in Dafny

A model of the parts of `reddit_cli.py` (a command-line client over PRAW, the
Python Reddit API wrapper) that hold logic of their own rather than forwarding
to PRAW:

- **Retry executor** (`RedditCLI._execute_with_retry`). Most public methods of
  the client route their PRAW call through it. Configuration loading, the
  connection check, `get_post_responses`, `get_post_by_url` and
  `monitor_post` call PRAW directly. The executor invokes the wrapped call up
  to `max_retries` times and classifies each exception by class and by
  substring tests on its text. It retries rate limits and unexpected errors
  with exponential backoff and gives up, returning `None`, on everything
  else. Many callers turn that `None` into `[]` or `False` with `or`; others,
  such as `post_to_subreddit` and `comment_on_post`, return it unchanged.
- **Startup connection check** (`_test_connection_with_retry`). Same state
  machine as the executor, but terminal failures call `sys.exit(1)`.
- **Post monitor** (`monitor_post`). It polls a submission's comments
  `max_checks` times and collects each comment whose id was not seen before.
  It sleeps `check_interval` seconds between checks.
- **Comment search** (`_search_comments_impl`). A case-insensitive substring
  filter over a comment stream that stops once `limit` comments are kept. An
  exception while reading the stream discards what was collected and gives
  `[]`.
- **String helpers**:
  - the 200-character preview with `"..."`;
  - comment-id extraction `url.split('/')[-1]`;
  - the `"comment" in url` test that picks the comment vote or the post vote.

Modules:

- `Wrappers`: `Option`, Python's `None`.
- `Comments`: the comment record.
- `Text`: substring search, ASCII lowercasing, truncation, split and join,
  comment ids, vote dispatch.
- `Retry`: the executor and the connection check, plus the `or []` / `or
  False` coalescing.
- `Search`: the comment filter.
- `Monitor`: the de-duplicating poll.

The loops of the source are methods. Each is proved equal to a recursive
specification function: `Retry.Execute`, `Search.Matching` and `Monitor.Dedup`.
The lemmas about those functions state what the source promises.

The wrapped PRAW call is a parameter `op: nat -> Outcome<T>`, the outcome of
its k-th invocation. The poll of the monitor is likewise `poll: nat ->
seq<Comment>`, the comments found at the k-th check. `time.sleep` is recorded
as the list of durations slept. `time.sleep` raises ValueError on a negative
duration, and nothing in these routines catches it. The model records that
outcome: `SleepFailed` for the executor, `SleepError` for the connection
check, and `None` for the monitor.

How the code classifies failures:

- The rate-limit test looks for `"RATE_LIMIT"` or `"429"`, case-sensitively.
  It applies only to `RedditAPIException`.
- The `"401"`/`"unauthorized"` test applies only to `ClientException`. Its
  second half compares the lowercased text.
- Every `ClientException` ends the call either way. The test only chooses the
  printed message.

## Model

| member | source | states |
|---|---|---|
| Retry.ExecuteWithRetry | reddit_cli.py:101-138 | the loop's verdict, number of invocations and sleeps are exactly those of the specification `Execute` |
| Retry.TestConnectionWithRetry | reddit_cli.py:58-99 | the connection check makes the same invocations and sleeps as the executor; success gives True, every terminal failure `sys.exit(1)`, a loop that never runs False |
| Retry.ClassifySpec | reddit_cli.py:107-129 | a failure is retried exactly when it is not a RedditAPIException or ClientException, or is a RedditAPIException whose text contains "RATE_LIMIT" or "429"; a ClientException counts as unauthorized exactly when its text contains "401" or its lowercased text contains "unauthorized", and is never retried |
| Retry.ExecuteCharacterized | reddit_cli.py:101-138 | a run is the executor's exactly when it meets an independent description: at most `max_retries` invocations, all but the last failed in a retryable way, the last decides the result, sleeps follow the doubling schedule |
| Retry.ExecuteIsRun | reddit_cli.py:101-138 | the executor meets that description |
| Retry.RunIsUnique | reddit_cli.py:101-138 | the description admits a single run |
| Retry.Backoff | reddit_cli.py:109-113 | the first sleep lasts `delay` and each later one twice the one before, as `delay *= 2` makes them |
| Retry.ExecuteBounds | reddit_cli.py:103-113 | at most `max_retries` invocations, none and a None result when `max_retries <= 0`; one sleep between consecutive invocations and none after the last; the k-th sleep is `delay * 2^k` |
| Retry.ExecuteReturnsFirstSuccess | reddit_cli.py:104-105 | if the k-th invocation succeeds after only retryable failures (and the delay is not negative when k > 0), the executor returns its value after k+1 invocations |
| Retry.ExecuteNegativeDelay | reddit_cli.py:109-111 | with a negative delay, the executor raises ValueError exactly when the first invocation fails in a retryable way and another attempt is allowed; it then stops after that one invocation, and it never sleeps |
| Retry.ExecuteValueHasSource | reddit_cli.py:104-105 | a returned value is the value of the last invocation, and every earlier invocation failed in a retryable way |
| Retry.ExecuteStopsOnFatal | reddit_cli.py:117-127 | a RedditAPIException without rate-limit marker or any ClientException ends the call after one invocation, with no sleep and a None result |
| Retry.ExecuteFailsOnLastAttempt | reddit_cli.py:114-136 | when only retryable failures come before it (and the delay is not negative unless there is one attempt), a failure of any kind on the last allowed attempt gives None after `max_retries` invocations and `max_retries - 1` sleeps |
| Retry.ConnectionOutcomes | reddit_cli.py:58-99 | the check returns False exactly when `max_retries <= 0`; it returns True exactly when some attempt succeeds after only retryable failures; it raises exactly when the first retry would sleep a negative delay; it exits only with status 1 |
| Retry.AttemptsShape | reddit_cli.py:103-136 | from any attempt number, unless a retry would sleep a negative delay, the loop invokes the call until a success, a failure that is not retried, or the last attempt, and that invocation decides the result |
| Retry.AttemptsSleeps | reddit_cli.py:109-113 | from any attempt number, unless a retry would sleep a negative delay, the sleeps are `delay, 2*delay, ...`, one fewer than the invocations |
| Retry.RetryStep | reddit_cli.py:129-134 | a retryable failure with attempts left and a non-negative delay sleeps that delay, doubles it and moves to the next attempt |
| Retry.SleepFailStep | reddit_cli.py:109-111 | a retryable failure with attempts left and a negative delay ends the loop in the ValueError of `time.sleep`, without sleeping |
| Retry.FinalStep | reddit_cli.py:104-136 | a success, a failure that is not retried, or a failure on the last attempt ends the loop with that invocation's verdict |
| Retry.OrEmpty | reddit_cli.py:189-194 | `result or []`: a failed call reads as the empty list, a list result as itself |
| Retry.OrFalse | reddit_cli.py:245-250 | `result or False` is true exactly when the call returned True |
| Monitor.MonitorPost | reddit_cli.py:970-1009 | returns `Dedup` of all comments polled over `max_checks` checks, and sleeps `check_interval` exactly `max(max_checks - 1, 0)` times; with a negative interval and at least two checks, the first sleep raises ValueError and nothing is returned |
| Monitor.Check | reddit_cli.py:979-997 | one check scans the comments it finds, after those of the earlier checks, extending the seen ids and the responses as `FirstSeen` does |
| Monitor.RepeatSpec | reddit_cli.py:1006-1007 | the recorded sleeps are `max(n, 0)` copies of the check interval |
| Monitor.ScanSnapshot | reddit_cli.py:985-997 | scanning one snapshot extends the seen ids and the responses exactly as `FirstSeen` over the comments polled so far, and the new responses are what it appends |
| Monitor.DedupIds | reddit_cli.py:976-997 | the collected comments carry exactly the ids of all polled comments |
| Monitor.DedupFirstSeen | reddit_cli.py:976-997 | each collected comment is the first polled comment with its id, and they are listed in the order in which their ids were first seen |
| Monitor.DedupDistinct | reddit_cli.py:986-988 | no id is collected twice |
| Monitor.FirstSeenFirst | reddit_cli.py:985-997 | after any number of scanned comments, each collected comment is the first one with its id, among those scanned |
| Monitor.FirstSeenOrder | reddit_cli.py:985-997 | after any number of scanned comments, the collected comments are in first-seen order |
| Monitor.FirstSeenIds | reddit_cli.py:986-988 | the seen-id set equals the ids of the collected comments |
| Monitor.AppendInFirstOrder | reddit_cli.py:996-997 | appending a comment whose id first occurs after all collected ones keeps first-seen order |
| Monitor.SeenIdsMember | reddit_cli.py:986-987 | an id is in the seen set exactly when an already scanned comment has it |
| Monitor.FirstIndex | reddit_cli.py:986-987 | the position of the first comment with a given id |
| Monitor.FirstIndexAt | reddit_cli.py:986-987 | a comment with no earlier comment of its id is at that position |
| Monitor.ScanStep | reddit_cli.py:985-997 | one comment more adds its id to the seen set and is collected exactly when the id is new |
| Monitor.PolledSnapshot | reddit_cli.py:979-985 | the snapshot of each check follows the snapshots of the checks before it |
| Monitor.ThreeChecksCollectEachOnce | reddit_cli.py:979-997 | snapshots {A}, {A,B}, {A,B,C} over three checks collect A, B, C once each, in that order |
| Search.SearchComments | reddit_cli.py:829-856 | returns the previews of the first `limit` matches in stream order; with `limit <= 0` the first match still gets through; with fewer matches, all of them if the stream ends normally and `[]` if it raises |
| Search.MatchingMembers | reddit_cli.py:838 | a comment is kept exactly when it is in the stream and its lowercased body contains the lowercased query |
| Search.MatchingAppend | reddit_cli.py:837-838 | filtering a concatenated stream filters each part |
| Text.TruncateSpec | reddit_cli.py:841 | a preview is the text when it has at most 200 characters, otherwise its first 200 characters followed by "...", 203 in all |
| Text.CommentIdSpec | reddit_cli.py:306 | the extracted id is the text after the last '/', the whole URL when it has none, and empty when the URL ends in '/' |
| Text.LastPartSpec | reddit_cli.py:553 | the last part of a split is a suffix of the text without the separator, preceded by a separator unless it is the whole text |
| Text.JoinSplit | reddit_cli.py:573 | joining the parts of a split with the separator gives back the text |
| Text.Split | reddit_cli.py:893 | a split has at least one part and no part contains the separator |
| Text.VoteDispatch | reddit_cli.py:1353 | the comment vote is chosen exactly when "comment" occurs in the URL |
| Text.ContainsIff | reddit_cli.py:1363 | Python's `t in s` holds exactly when `t` occurs at some index of `s` |
| Text.Lower | reddit_cli.py:838 | the lowercased text has the same length and no upper-case letter; each upper-case letter becomes the letter 32 code points further, and every other character is unchanged |
| Text.LowerIdempotent | reddit_cli.py:838 | lowercasing twice is lowercasing once |

## Left out

- PRAW and the network: every `self.reddit.*` call and the `_impl` bodies that map PRAW objects to dictionaries. The call the executor wraps is the parameter `op`. The comments a check finds are `poll`. The search stream is `stream`, whatever `comments(limit=limit)` yields, with `raises` saying whether it ends in an exception.
- Configuration file loading and template writing (reddit_cli.py:27-56, 140-151): file I/O.
- The fixed 10-second wait before the first connection check (reddit_cli.py:48-49): `time.sleep` is only recorded, never performed.
- All printed messages and emoji: presentation only. The 401 test of the executor is kept because it fixes the reported kind. In the connection check it only picks a message, so only whether the failure is retried is used there.
- Date formatting with `datetime.fromtimestamp(...).strftime(...)`: it depends on the local time zone.
- `main` and argparse (reddit_cli.py:1012-1522). Only the `"comment" in args.url` dispatch test is modelled.
- `sys.exit(1)` is modelled as the outcome `Exit(1)`, without process semantics.
- Text.Lower: lowercases ASCII letters only. Python's `str.lower()` also folds other Unicode letters.
- Monitor.MonitorPost: returns the comment records themselves. The source returns dictionaries built from them (author, body, score, date, permalink), one per new comment, in the same order. Building those dictionaries is per-comment presentation.
- Monitor.ScanSnapshot: the inner loop of `monitor_post` is a method of its own. Its ghost parameters name everything polled so far and how much of it was already scanned.
- Search.SearchComments: returns the comments with their bodies cut to the preview. The source builds dictionaries carrying more PRAW fields (subreddit, URL, date, author). An exception raised while building one of them (reading `comment.subreddit`, formatting the date) is not modelled. Like a failing stream, it would make the result `[]`.
- Monitor.Check: one pass of the outer loop of `monitor_post` is a method of its own. Its ghost parameters name the number of checks and how many comments the earlier checks found.
- Only `_post_to_subreddit_impl` and `_get_subreddit_flairs_impl` let exceptions reach the executor; the other `_impl` functions catch every exception themselves. The executor is modelled for any outcome sequence.
- Integer widths: Python integers are unbounded, like Dafny's, so the doubling delay needs no wrap-around.
