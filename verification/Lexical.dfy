/** Text and path operations used by `crates/node/resolution.rs`: searching, splitting at slashes,
    lexical cleaning and the first-match replacement of a pattern character. */
module Lexical {

  /** The first position of `c`, or -1. */
  function IndexOf(s: string, c: char): (i: int)
    ensures -1 <= i < |s|
    ensures i >= 0 ==> s[i] == c
    ensures i < 0 ==> c !in s
    ensures forall j | 0 <= j < i :: s[j] != c
  {
    if s == [] then -1
    else if s[0] == c then 0
    else
      var r := IndexOf(s[1..], c);
      assert s == [s[0]] + s[1..];
      if r < 0 then -1 else r + 1
  }

  /** The last position of `c`, or -1. */
  function LastIndexOf(s: string, c: char): (i: int)
    ensures -1 <= i < |s|
    ensures i >= 0 ==> s[i] == c
    ensures forall j | i < j < |s| :: s[j] != c
  {
    if s == [] then -1
    else if s[|s| - 1] == c then |s| - 1
    else LastIndexOf(s[..|s| - 1], c)
  }

  predicate EndsWith(s: string, t: string) {
    |t| <= |s| && s[|s| - |t|..] == t
  }

  // ----- replacing -----

  /** The text with every `c` replaced. */
  function ReplaceAll(s: string, c: char, with: string): string {
    if s == [] then [] else (if s[0] == c then with else [s[0]]) + ReplaceAll(s[1..], c, with)
  }

  lemma {:induction false} ReplaceConcat(a: string, b: string, c: char, with: string)
    ensures ReplaceAll(a + b, c, with) == ReplaceAll(a, c, with) + ReplaceAll(b, c, with)
  {
    if a == [] {
      assert a + b == b;
    } else {
      assert (a + b)[1..] == a[1..] + b;
      ReplaceConcat(a[1..], b, c, with);
    }
  }

  function ReplaceAt(s: string, i: int, with: string): string
    requires i < |s|
  {
    if i < 0 then s else s[..i] + with + s[i + 1..]
  }

  /** The text with the first `c` replaced. */
  function ReplaceFirst(s: string, c: char, with: string): string {
    ReplaceAt(s, IndexOf(s, c), with)
  }

  lemma IndexOfAfter(a: string, b: string, c: char)
    requires c !in a
    ensures IndexOf(a + b, c) == if IndexOf(b, c) < 0 then -1 else |a| + IndexOf(b, c)
  {
    var i, j := IndexOf(a + b, c), IndexOf(b, c);
    assert forall k | 0 <= k < |a| :: (a + b)[k] in a;
    assert forall k | 0 <= k < |b| :: (a + b)[|a| + k] == b[k];
    if j >= 0 {
      assert (a + b)[|a| + j] == c;
    }
  }

  lemma ReplaceAtAfter(a: string, b: string, j: int, with: string)
    requires j < |b|
    ensures ReplaceAt(a + b, if j < 0 then -1 else |a| + j, with) == a + ReplaceAt(b, j, with)
  {
    if j >= 0 {
      assert (a + b)[..|a| + j] == a + b[..j] && (a + b)[|a| + j + 1..] == b[j + 1..];
      assert a + b[..j] + with + b[j + 1..] == a + (b[..j] + with + b[j + 1..]);
    }
  }

  lemma ReplaceFirstAfter(a: string, b: string, c: char, with: string)
    requires c !in a
    ensures ReplaceFirst(a + b, c, with) == a + ReplaceFirst(b, c, with)
  {
    IndexOfAfter(a, b, c);
    ReplaceAtAfter(a, b, IndexOf(b, c), with);
  }

  lemma IndexOfBefore(a: string, b: string, c: char)
    requires c in a
    ensures IndexOf(a + b, c) == IndexOf(a, c)
  {
    var i := IndexOf(a, c);
    assert (a + b)[i] == c && forall k | 0 <= k < |a| :: (a + b)[k] == a[k];
  }

  lemma ReplaceAtBefore(a: string, b: string, i: nat, with: string)
    requires i < |a|
    ensures ReplaceAt(a + b, i, with) == ReplaceAt(a, i, with) + b
  {
    assert (a + b)[..i] == a[..i] && (a + b)[i + 1..] == a[i + 1..] + b;
    assert a[..i] + with + (a[i + 1..] + b) == a[..i] + with + a[i + 1..] + b;
  }

  lemma ReplaceFirstBefore(a: string, b: string, c: char, with: string)
    requires c in a
    ensures ReplaceFirst(a + b, c, with) == ReplaceFirst(a, c, with) + b
  {
    IndexOfBefore(a, b, c);
    ReplaceAtBefore(a, b, IndexOf(a, c), with);
  }

  // ----- segments -----

  /** The parts of the text between slashes; never none. */
  function Split(s: string): (r: seq<string>)
    ensures |r| >= 1
  {
    if s == [] then [""]
    else
      var r := Split(s[1..]);
      if s[0] == '/' then [""] + r else [[s[0]] + r[0]] + r[1..]
  }

  /** A slash before every segment. */
  function PathText(segments: seq<string>): string {
    if segments == [] then "" else "/" + segments[0] + PathText(segments[1..])
  }

  /** The absolute path with these segments. */
  function FilePath(segments: seq<string>): string {
    if segments == [] then "/" else PathText(segments)
  }

  lemma {:induction false} PathTextConcat(a: seq<string>, b: seq<string>)
    ensures PathText(a + b) == PathText(a) + PathText(b)
  {
    if a == [] {
      assert a + b == b;
    } else {
      assert (a + b)[1..] == a[1..] + b;
      PathTextConcat(a[1..], b);
    }
  }

  lemma PathTextOf(r: seq<string>)
    requires r != []
    ensures PathText(r) == "/" + (r[0] + PathText(r[1..]))
  {
    assert "/" + r[0] + PathText(r[1..]) == "/" + (r[0] + PathText(r[1..]));
  }

  lemma Regroup(a: string, b: string, c: string)
    ensures a + b + c == a + (b + c)
  {
  }

  lemma {:induction false} SplitText(s: string)
    ensures Split(s)[0] + PathText(Split(s)[1..]) == s
  {
    if s != [] {
      var r := Split(s[1..]);
      SplitText(s[1..]);
      assert s == [s[0]] + s[1..];
      if s[0] == '/' {
        assert ([""] + r)[1..] == r;
        PathTextOf(r);
      } else {
        assert Split(s)[1..] == r[1..];
        Regroup([s[0]], r[0], PathText(r[1..]));
      }
    }
  }

  /** Splitting loses nothing. */
  lemma SplitIsInverse(s: string)
    ensures PathText(Split(s)) == "/" + s
  {
    SplitText(s);
    var r := Split(s);
    assert "/" + r[0] + PathText(r[1..]) == "/" + (r[0] + PathText(r[1..]));
  }

  predicate Slashless(segments: seq<string>) {
    forall seg <- segments :: '/' !in seg
  }

  lemma {:induction false} SplitIsSlashless(s: string)
    ensures Slashless(Split(s))
  {
    if s != [] {
      SplitIsSlashless(s[1..]);
    }
  }

  function Prepend(pre: string, segments: seq<string>): (r: seq<string>)
    requires segments != []
    ensures |r| == |segments|
  {
    [pre + segments[0]] + segments[1..]
  }

  function Append(segments: seq<string>, post: string): (r: seq<string>)
    requires segments != []
    ensures |r| == |segments|
  {
    segments[..|segments| - 1] + [segments[|segments| - 1] + post]
  }

  /** Text without a slash before a text goes to its first segment. */
  lemma {:induction false} SplitPrepend(pre: string, s: string)
    requires '/' !in pre
    ensures Split(pre + s) == Prepend(pre, Split(s))
  {
    if pre == [] {
      assert pre + s == s && pre + Split(s)[0] == Split(s)[0];
    } else {
      assert pre[0] in pre && forall c <- pre[1..] :: c in pre;
      SplitPrepend(pre[1..], s);
      assert (pre + s)[1..] == pre[1..] + s;
      assert [pre[0]] + (pre[1..] + Split(s)[0]) == pre + Split(s)[0];
    }
  }

  lemma AppendCons(x: string, r: seq<string>, post: string)
    requires r != []
    ensures Append([x] + r, post) == [x] + Append(r, post)
  {
  }

  lemma AppendHead(c: char, r: seq<string>, post: string)
    requires r != []
    ensures Append([[c] + r[0]] + r[1..], post) == [[c] + Append(r, post)[0]] + Append(r, post)[1..]
  {
    if |r| == 1 {
      assert [c] + r[0] + post == [c] + (r[0] + post);
    }
  }

  /** Text without a slash after a text goes to its last segment. */
  lemma {:induction false} SplitAppend(s: string, post: string)
    requires '/' !in post
    ensures Split(s + post) == Append(Split(s), post)
  {
    if s == [] {
      SplitPrepend(post, "");
      assert s + post == post == post + "";
    } else {
      SplitAppend(s[1..], post);
      assert (s + post)[0] == s[0] && (s + post)[1..] == s[1..] + post;
      var r := Split(s[1..]);
      if s[0] == '/' {
        AppendCons("", r, post);
      } else {
        AppendHead(s[0], r, post);
      }
    }
  }

  lemma SplitPlain(s: string)
    requires '/' !in s
    ensures Split(s) == [s]
  {
    SplitPrepend(s, "");
    assert s + "" == s;
  }

  /** A slash separates the segments before it from those after it. */
  lemma {:induction false} SplitAtSlash(a: string, b: string)
    ensures Split(a + "/" + b) == Split(a) + Split(b)
  {
    var t := a + "/" + b;
    if a == [] {
      assert t[1..] == b;
    } else {
      assert t[0] == a[0] && t[1..] == a[1..] + "/" + b;
      SplitAtSlash(a[1..], b);
    }
  }

  /** Slashless segments after a text are split off unchanged. */
  lemma {:induction false} SplitWithPath(first: string, rest: seq<string>)
    requires Slashless(rest)
    ensures Split(first + PathText(rest)) == Split(first) + rest
    decreases |rest|
  {
    if rest == [] {
      assert first + "" == first;
    } else {
      var seg, later := rest[0], rest[1..];
      assert seg in rest && rest == [seg] + later;
      assert first + ("/" + seg + PathText(later)) == first + "/" + seg + PathText(later);
      SplitWithPath(first + "/" + seg, later);
      SplitAtSlash(first, seg);
      SplitPlain(seg);
      assert Split(first) + [seg] + later == Split(first) + rest;
    }
  }

  // ----- cleaning -----

  predicate IsDots(segment: string) {
    segment == "." || segment == ".."
  }

  predicate IsNormal(segment: string) {
    segment != "" && !IsDots(segment)
  }

  /** `clean` of the segments after an already clean directory. */
  function Clean(directory: seq<string>, segments: seq<string>): seq<string>
    decreases |segments|
  {
    if segments == [] then directory
    else if segments[0] == "" || segments[0] == "." then Clean(directory, segments[1..])
    else if segments[0] == ".." then
      Clean(if directory == [] then [] else directory[..|directory| - 1], segments[1..])
    else Clean(directory + [segments[0]], segments[1..])
  }

  function NonEmpty(segments: seq<string>): seq<string> {
    if segments == [] then []
    else (if segments[0] == "" then [] else [segments[0]]) + NonEmpty(segments[1..])
  }

  /** Without dots, cleaning only drops empty segments. */
  lemma {:induction false} CleanWithoutDots(directory: seq<string>, segments: seq<string>)
    requires forall seg <- segments :: !IsDots(seg)
    ensures Clean(directory, segments) == directory + NonEmpty(segments)
    ensures forall seg <- NonEmpty(segments) :: seg in segments && IsNormal(seg)
    decreases |segments|
  {
    if segments != [] {
      assert segments == [segments[0]] + segments[1..];
      assert segments[0] in segments;
      if segments[0] == "" {
        CleanWithoutDots(directory, segments[1..]);
      } else {
        CleanWithoutDots(directory + [segments[0]], segments[1..]);
      }
    }
  }

  /** `join` and `clean`: an absolute text replaces the directory. */
  function JoinClean(directory: seq<string>, text: string): seq<string> {
    Clean(if "/" <= text then [] else directory, Split(text))
  }

  // ----- invalid segments -----

  predicate IsSeparator(c: char) {
    c == '/' || c == '\\'
  }

  /** `word` stands at `i` between separators or ends of the text. */
  predicate SegmentAt(s: string, i: nat, word: string) {
    && i + |word| <= |s| && s[i..i + |word|] == word
    && (i == 0 || IsSeparator(s[i - 1]))
    && (i + |word| == |s| || IsSeparator(s[i + |word|]))
  }

  /** A match of `(^|\\|/)(\.\.?|node_modules)(\\|/|$)`. */
  predicate HasInvalidSegment(s: string) {
    exists i: nat | i <= |s| :: SegmentAt(s, i, ".") || SegmentAt(s, i, "..") || SegmentAt(s, i, "node_modules")
  }

  lemma ShiftedSegment(s: string, i: nat, word: string)
    requires s != [] && SegmentAt(s[1..], i, word) && (i == 0 ==> IsSeparator(s[0]))
    ensures SegmentAt(s, i + 1, word)
  {
    assert s[1..][i..i + |word|] == s[i + 1..i + 1 + |word|];
  }

  /** Every part between slashes stands somewhere in the text between slashes or ends. */
  lemma {:induction false} SegmentPosition(s: string, k: nat) returns (i: nat)
    requires k < |Split(s)|
    ensures SegmentAt(s, i, Split(s)[k]) && (k == 0 <==> i == 0)
  {
    i := 0;
    if s != [] {
      var r := Split(s[1..]);
      if s[0] == '/' {
        if k > 0 {
          var j := SegmentPosition(s[1..], k - 1);
          i := j + 1;
          ShiftedSegment(s, j, r[k - 1]);
        }
      } else {
        var j := SegmentPosition(s[1..], k);
        if k == 0 {
          assert s[..|r[0]| + 1] == [s[0]] + s[1..][..|r[0]|];
        } else {
          i := j + 1;
          ShiftedSegment(s, j, r[k]);
        }
      }
    }
  }

  /** A text that passes the check has no dots between slashes. */
  lemma CheckedHasNoDots(s: string)
    requires !HasInvalidSegment(s)
    ensures forall seg <- Split(s) :: !IsDots(seg)
  {
    forall seg <- Split(s) ensures !IsDots(seg) {
      var k :| 0 <= k < |Split(s)| && Split(s)[k] == seg;
      var i := SegmentPosition(s, k);
    }
  }
}
