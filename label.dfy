/**
 The ID label under the retry button: `targetUrl.split('/').pop()`, or `...`
 while `targetUrl` is still empty.
 */
module Label {

  const SLASH: char := '/'
  const PLACEHOLDER: string := "..."

  /** `s.split(sep)` for a one-character separator: the pieces between separators, empty ones included. */
  function Split(s: string, sep: char): (parts: seq<string>)
    ensures |parts| >= 1
    decreases |s|
  {
    if |s| == 0 then [""]
    else if s[0] == sep then [""] + Split(s[1..], sep)
    else
      var rest := Split(s[1..], sep);
      [[s[0]] + rest[0]] + rest[1..]
  }

  /** `parts.join(sep)`: the partner of `Split`. */
  function Join(parts: seq<string>, sep: char): string
    requires |parts| >= 1
  {
    if |parts| == 1 then parts[0] else parts[0] + [sep] + Join(parts[1..], sep)
  }

  /** Joining the pieces with the separator gives back the original string. */
  lemma {:induction false} JoinSplit(s: string, sep: char)
    ensures Join(Split(s, sep), sep) == s
    decreases |s|
  {
    if |s| == 0 {
    } else if s[0] == sep {
      JoinSplit(s[1..], sep);
      assert s == [sep] + s[1..];
    } else {
      var rest := Split(s[1..], sep);
      JoinSplit(s[1..], sep);
      assert s == [s[0]] + s[1..];
      if |rest| == 1 {
      } else {
        assert rest == [rest[0]] + rest[1..];
      }
    }
  }

  /** No piece contains the separator. */
  lemma {:induction false} SplitPiecesFree(s: string, sep: char)
    ensures forall i :: 0 <= i < |Split(s, sep)| ==> sep !in Split(s, sep)[i]
    decreases |s|
  {
    if |s| != 0 {
      SplitPiecesFree(s[1..], sep);
      var rest := Split(s[1..], sep);
      if s[0] != sep {
        assert sep !in [s[0]] + rest[0];
      }
    }
  }

  /** The last piece of a join is preceded by the separator. */
  lemma {:induction false} JoinLast(parts: seq<string>, sep: char)
    requires |parts| >= 2
    ensures Join(parts, sep) == Join(parts[..|parts| - 1], sep) + [sep] + parts[|parts| - 1]
    decreases |parts|
  {
    if |parts| > 2 {
      JoinLast(parts[1..], sep);
      assert parts[1..][..|parts| - 2] == parts[..|parts| - 1][1..];
    }
  }

  /** `t` is the text after the last `/` of `s`: a `/`-free suffix that is all of `s` or follows a `/`. */
  ghost predicate IsTextAfterLastSlash(s: string, t: string) {
    |t| <= |s| && t == s[|s| - |t|..] && SLASH !in t &&
    (|t| < |s| ==> s[|s| - |t| - 1] == SLASH)
  }

  /** The last piece of `split('/')` is the text after the last `/`. */
  lemma LastPieceAfterLastSlash(s: string)
    ensures IsTextAfterLastSlash(s, Split(s, SLASH)[|Split(s, SLASH)| - 1])
  {
    var parts := Split(s, SLASH);
    var last := parts[|parts| - 1];
    JoinSplit(s, SLASH);
    SplitPiecesFree(s, SLASH);
    assert SLASH !in last;
    if |parts| == 1 {
      assert s == last;
    } else {
      JoinLast(parts, SLASH);
      var front := Join(parts[..|parts| - 1], SLASH);
      assert s == front + [SLASH] + last;
      assert s[|s| - |last|..] == last;
      assert s[|s| - |last| - 1] == SLASH;
    }
    assert IsTextAfterLastSlash(s, last);
  }

  /** `s.split('/').pop()`: the text after the last `/` of `s`. */
  function LastSegment(s: string): (last: string)
    ensures IsTextAfterLastSlash(s, last)
  {
    var parts := Split(s, SLASH);
    LastPieceAfterLastSlash(s);
    parts[|parts| - 1]
  }

  /** No character of the text after the last `/` is a `/`. */
  lemma SlashFreeTail(s: string, t: string)
    requires IsTextAfterLastSlash(s, t)
    ensures forall j :: |s| - |t| <= j < |s| ==> s[j] != SLASH
  {
    forall j | |s| - |t| <= j < |s| ensures s[j] != SLASH {
      assert s[j] == t[j - (|s| - |t|)];
    }
  }

  /** A string has exactly one text after its last `/`. */
  lemma TextAfterLastSlashUnique(s: string, t1: string, t2: string)
    requires IsTextAfterLastSlash(s, t1) && IsTextAfterLastSlash(s, t2)
    ensures t1 == t2
  {
    SlashFreeTail(s, t1);
    SlashFreeTail(s, t2);
  }

  /** The ID shown for `targetUrl`. */
  function IdLabel(targetUrl: string): (shown: string)
    ensures targetUrl == [] ==> shown == PLACEHOLDER
    ensures targetUrl != [] ==> IsTextAfterLastSlash(targetUrl, shown)
  {
    if targetUrl == [] then PLACEHOLDER
    else LastSegment(targetUrl)
  }

  /** A non-empty URL without `/` is shown whole. */
  lemma IdLabelWithoutSlash(targetUrl: string)
    requires targetUrl != [] && SLASH !in targetUrl
    ensures IdLabel(targetUrl) == targetUrl
  {
    var shown := IdLabel(targetUrl);
    assert forall j :: 0 <= j < |targetUrl| ==> targetUrl[j] != SLASH;
  }

  /** A URL that ends in `/` shows an empty ID. */
  lemma IdLabelAfterTrailingSlash(targetUrl: string)
    requires targetUrl != [] && targetUrl[|targetUrl| - 1] == SLASH
    ensures IdLabel(targetUrl) == ""
  {
    SlashFreeTail(targetUrl, IdLabel(targetUrl));
  }

  /** Whatever precedes the last `/`, the ID is what follows it. */
  lemma IdLabelOfPath(front: string, id: string)
    requires SLASH !in id
    ensures IdLabel(front + [SLASH] + id) == id
  {
    var url := front + [SLASH] + id;
    assert url[|url| - |id|..] == id;
    assert IsTextAfterLastSlash(url, id);
    TextAfterLastSlashUnique(url, IdLabel(url), id);
  }
}
