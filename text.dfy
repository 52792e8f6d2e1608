/**
 * The small string helpers the command handlers of reddit_cli.py use inline:
 * substring tests (`t in s`), ASCII lowercasing, the 200-character preview,
 * comment-id extraction with `url.split('/')[-1]` and the vote dispatch test.
 */
module Text {

  /** `t` occurs in `s` starting at index `i`. */
  ghost predicate OccursAt(s: string, t: string, i: int) {
    0 <= i && i + |t| <= |s| && s[i..i + |t|] == t
  }

  predicate IsPrefix(t: string, s: string) {
    |t| <= |s| && s[..|t|] == t
  }

  predicate IsSuffix(t: string, s: string) {
    |t| <= |s| && s[|s| - |t|..] == t
  }

  /** Python's `t in s` for strings: `t` is a contiguous substring of `s`. */
  predicate Contains(s: string, t: string)
    decreases |s|
  {
    IsPrefix(t, s) || (|s| > 0 && Contains(s[1..], t))
  }

  /** The scan in Contains finds an occurrence exactly when there is one. */
  lemma {:induction false} ContainsIff(s: string, t: string)
    ensures Contains(s, t) <==> exists i :: OccursAt(s, t, i)
    decreases |s|
  {
    if Contains(s, t) {
      if IsPrefix(t, s) {
        assert OccursAt(s, t, 0);
      } else {
        ContainsIff(s[1..], t);
        var i :| OccursAt(s[1..], t, i);
        assert s[1..][i..i + |t|] == s[i + 1..i + 1 + |t|];
        assert OccursAt(s, t, i + 1);
      }
    }
    if exists i :: OccursAt(s, t, i) {
      var i :| OccursAt(s, t, i);
      if i == 0 {
        assert IsPrefix(t, s);
      } else {
        assert s[1..][i - 1..i - 1 + |t|] == s[i..i + |t|];
        assert OccursAt(s[1..], t, i - 1);
        ContainsIff(s[1..], t);
      }
    }
  }

  /** Lowercasing of one character; only 'A'..'Z' change. */
  function LowerChar(c: char): char {
    if 'A' <= c <= 'Z' then (c as int + 32) as char else c
  }

  /**
   * Python's `str.lower()`, restricted to ASCII letters: the result has no
   * upper-case letter, each upper-case letter becomes its lower-case partner
   * 32 code points further, and every other character stays as it is.
   */
  function Lower(s: string): (r: string)
    ensures |r| == |s|
    ensures forall i :: 0 <= i < |s| ==> !('A' <= r[i] <= 'Z')
    ensures forall i :: 0 <= i < |s| && 'A' <= s[i] <= 'Z' ==> r[i] as int == s[i] as int + 32
    ensures forall i :: 0 <= i < |s| && !('A' <= s[i] <= 'Z') ==> r[i] == s[i]
  {
    seq(|s|, i requires 0 <= i < |s| => LowerChar(s[i]))
  }

  /** Lowercasing twice is lowercasing once. */
  lemma LowerIdempotent(s: string)
    ensures Lower(Lower(s)) == Lower(s)
  {
  }

  /** How many characters of a text the listings show before the ellipsis. */
  const PreviewLength: nat := 200

  /** `text[:200] + "..." if len(text) > 200 else text`. */
  function Truncate(text: string): string {
    if |text| > PreviewLength then text[..PreviewLength] + "..." else text
  }

  /**
   * A preview is never longer than 203 characters, always starts with the
   * first (up to 200) characters of the text, and is the text itself when
   * the text fits; otherwise it ends with the ellipsis.
   */
  lemma TruncateSpec(text: string)
    ensures |Truncate(text)| <= PreviewLength + 3
    ensures |text| <= PreviewLength ==> Truncate(text) == text
    ensures |text| > PreviewLength ==>
      |Truncate(text)| == PreviewLength + 3 &&
      IsPrefix(text[..PreviewLength], Truncate(text)) &&
      IsSuffix("...", Truncate(text))
  {
    if |text| > PreviewLength {
      var r := Truncate(text);
      assert r[..PreviewLength] == text[..PreviewLength];
      assert r[|r| - 3..] == "...";
    }
  }

  /** Python's `s.split(sep)` for a one-character separator. */
  function Split(s: string, sep: char): (parts: seq<string>)
    ensures |parts| >= 1
    ensures forall k :: 0 <= k < |parts| ==> sep !in parts[k]
    decreases |s|
  {
    if |s| == 0 then [""]
    else
      var rest := Split(s[1..], sep);
      if s[0] == sep then [""] + rest
      else [[s[0]] + rest[0]] + rest[1..]
  }

  /** Python's `sep.join(parts)`. */
  function Join(parts: seq<string>, sep: char): string
    requires |parts| >= 1
    decreases |parts|
  {
    if |parts| == 1 then parts[0] else parts[0] + [sep] + Join(parts[1..], sep)
  }

  /** Splitting loses nothing: joining the parts gives back the text. */
  lemma {:induction false} JoinSplit(s: string, sep: char)
    ensures Join(Split(s, sep), sep) == s
    decreases |s|
  {
    if |s| > 0 {
      var rest := Split(s[1..], sep);
      JoinSplit(s[1..], sep);
      if s[0] == sep {
        assert Split(s, sep)[1..] == rest;
      } else {
        var parts := Split(s, sep);
        assert parts[1..] == rest[1..];
        if |rest| > 1 {
          assert Join(rest, sep) == rest[0] + [sep] + Join(rest[1..], sep);
        }
      }
    }
  }

  /** The id part of a comment URL: `url.split('/')[-1]`. */
  function CommentId(url: string): string {
    var parts := Split(url, '/');
    parts[|parts| - 1]
  }

  /** Dropping the first character does not change a suffix that fits in the rest. */
  lemma TailSuffix(s: string, n: nat)
    requires 0 < |s| && n < |s|
    ensures s[1..][|s| - 1 - n..] == s[|s| - n..]
    ensures n < |s| - 1 ==> s[1..][|s| - 2 - n] == s[|s| - 1 - n]
  {
  }

  /**
   * The last part of a split is a suffix of the text without the separator:
   * the whole text when the split found no separator, and otherwise the text
   * after a separator.
   */
  lemma {:induction false} LastPartSpec(s: string, sep: char)
    ensures var parts := Split(s, sep);
      var r := parts[|parts| - 1];
      |r| <= |s| && r == s[|s| - |r|..] && sep !in r &&
      (|parts| == 1 ==> |r| == |s|) &&
      (|parts| > 1 ==> |r| < |s| && s[|s| - |r| - 1] == sep)
    decreases |s|
  {
    if |s| > 0 {
      LastPartSpec(s[1..], sep);
      var rest := Split(s[1..], sep);
      var r := rest[|rest| - 1];
      TailSuffix(s, |r|);
      var parts := Split(s, sep);
      if s[0] == sep {
        assert parts == [""] + rest;
        assert parts[|parts| - 1] == r;
      } else if |rest| == 1 {
        assert parts == [[s[0]] + r];
        assert [s[0]] + s[1..] == s;
        assert parts[|parts| - 1] == s;
      } else {
        assert parts == [[s[0]] + rest[0]] + rest[1..];
        assert parts[|parts| - 1] == r;
      }
    }
  }

  /**
   * The extracted id is the text after the last '/' of the URL (the whole URL
   * when it has none), and it is empty when the URL ends in '/'.
   */
  lemma CommentIdSpec(url: string)
    ensures IsSuffix(CommentId(url), url)
    ensures '/' !in CommentId(url)
    ensures CommentId(url) == url || url[|url| - |CommentId(url)| - 1] == '/'
    ensures |url| > 0 && url[|url| - 1] == '/' ==> CommentId(url) == ""
  {
    LastPartSpec(url, '/');
    var r := CommentId(url);
    assert |r| > 0 ==> r[|r| - 1] == url[|url| - 1];
  }

  /** Which vote command the CLI runs for a URL. */
  datatype VoteTarget = CommentVote | PostVote

  /** `"comment" in args.url` picks the comment vote, anything else the post vote. */
  function VoteDispatch(url: string): (target: VoteTarget)
    ensures target == CommentVote <==> exists i :: OccursAt(url, "comment", i)
  {
    ContainsIff(url, "comment");
    if Contains(url, "comment") then CommentVote else PostVote
  }
}
