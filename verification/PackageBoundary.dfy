/** When a target of "exports" (`crates/node/resolution.rs`) resolves to a file outside the package directory. */
module PackageBoundary {
  import opened Common
  import opened Lexical
  import opened Patterns
  import opened Exports
  import opened Containment

  // ----- cleaning in pieces -----

  /** The directory `k` levels up; the root is its own parent. */
  function Up(directory: seq<string>, k: nat): seq<string> {
    directory[..if k <= |directory| then |directory| - k else 0]
  }

  lemma {:induction false} CleanConcat(directory: seq<string>, a: seq<string>, b: seq<string>)
    ensures Clean(directory, a + b) == Clean(Clean(directory, a), b)
    decreases |a|
  {
    if a == [] {
      assert a + b == b;
    } else {
      assert (a + b)[0] == a[0] && (a + b)[1..] == a[1..] + b;
      var next :=
        if a[0] == "" || a[0] == "." then directory
        else if a[0] == ".." then Up(directory, 1)
        else directory + [a[0]];
      CleanConcat(next, a[1..], b);
    }
  }

  lemma CleanOne(directory: seq<string>, segment: string)
    ensures Clean(directory, [segment])
         == if segment == "" || segment == "." then directory
            else if segment == ".." then Up(directory, 1)
            else directory + [segment]
  {
    assert [segment][1..] == [];
  }

  lemma CleanNormal(directory: seq<string>, segments: seq<string>)
    requires forall seg <- segments :: IsNormal(seg)
    ensures Clean(directory, segments) == directory + segments
  {
    CleanWithoutDots(directory, segments);
    NonEmptyAfter(segments, []);
    assert segments + [] == segments;
  }

  /** Segments without dots, and a last one. */
  lemma CleanLast(directory: seq<string>, a: seq<string>, last: string)
    requires !HasDots(a)
    ensures var all := directory + NonEmpty(a);
            Clean(directory, a + [last])
            == if last == "" || last == "." then all else if last == ".." then Up(all, 1) else all + [last]
  {
    CleanConcat(directory, a, [last]);
    CleanWithoutDots(directory, a);
    CleanOne(directory + NonEmpty(a), last);
  }

  // ----- captures of slashes -----

  predicate OnlySlashes(s: string) {
    forall c <- s :: c == '/'
  }

  predicate AllEmpty(segments: seq<string>) {
    forall seg <- segments :: seg == ""
  }

  lemma AllEmptyConcat(a: seq<string>, b: seq<string>)
    ensures AllEmpty(a + b) <==> AllEmpty(a) && AllEmpty(b)
  {
    assert forall seg <- a :: seg in a + b;
    assert forall seg <- b :: seg in a + b;
  }

  lemma {:induction false} OnlySlashesIff(s: string)
    ensures OnlySlashes(s) <==> AllEmpty(Split(s))
  {
    if s != [] {
      OnlySlashesIff(s[1..]);
      var r := Split(s[1..]);
      assert s == [s[0]] + s[1..] && s[0] in s;
      if s[0] == '/' {
        AllEmptyConcat([""], r);
        assert forall c <- s[1..] :: c in s;
      } else {
        assert Split(s)[0] in Split(s);
      }
    }
  }

  lemma {:induction false} NonEmptyNone(segments: seq<string>)
    ensures NonEmpty(segments) == [] <==> AllEmpty(segments)
  {
    if segments != [] {
      NonEmptyNone(segments[1..]);
      AllEmptyConcat([segments[0]], segments[1..]);
      assert segments == [segments[0]] + segments[1..] && segments[0] in [segments[0]];
    }
  }

  /** Nothing but empty segments between an empty first and an empty last one: only slashes. */
  lemma MiddleIsEmptyIff(capture: string)
    requires capture != ""
    ensures var s := Split(capture);
            OnlySlashes(capture) <==> |s| > 1 && s[0] == "" && s[|s| - 1] == "" && NonEmpty(s[1..|s| - 1]) == []
  {
    var s := Split(capture);
    EndsOfSplit(capture);
    OnlySlashesIff(capture);
    assert s[0] in s && s[|s| - 1] in s;
    if |s| > 1 {
      var middle := s[1..|s| - 1];
      NonEmptyNone(middle);
      assert s == [s[0]] + middle + [s[|s| - 1]];
      AllEmptyConcat([s[0]] + middle, [s[|s| - 1]]);
      AllEmptyConcat([s[0]], middle);
    } else {
      assert s == [s[0]];
    }
  }

  // ----- the segment with the star -----

  /** How many levels the segment `pre*post` climbs when the capture is put in: a leading slash completes ".." before
      the star, a trailing slash completes ".." after it; but whatever stands between is climbed first. */
  function Climb(pre: string, capture: string, post: string): nat
    requires capture != ""
  {
    var trailing := capture[|capture| - 1] == '/' && post == "..";
    if capture[0] == '/' && pre == ".." then if trailing && OnlySlashes(capture) then 2 else 1
    else if trailing && OnlySlashes(capture) && (pre == "" || pre == ".") then 1
    else 0
  }

  lemma PopAfter(x: seq<string>, n: seq<string>)
    ensures n != [] ==> Up(x + n, 1) == x + n[..|n| - 1]
    ensures Up(x + [], 1) == Up(x, 1)
  {
    assert x + [] == x;
  }

  /** Segments without dots and a last one that may be ".." are cleaned on top of any directory alike, unless the
      ".." meets no segment of their own. */
  lemma CleanOnTop(x: seq<string>, a: seq<string>, last: string)
    requires !HasDots(a)
    ensures if last == ".." && NonEmpty(a) == [] then Clean(x, a + [last]) == Up(x, 1) && Clean([], a + [last]) == []
            else Clean(x, a + [last]) == x + Clean([], a + [last])
  {
    var n := NonEmpty(a);
    CleanLast(x, a, last);
    CleanLast([], a, last);
    assert [] + n == n;
    PopAfter(x, n);
    PopAfter([], n);
    if last == ".." && n != [] {
      assert [] + n[..|n| - 1] == n[..|n| - 1];
    }
  }

  lemma CompletesUp(x: string, post: string)
    requires !IsDots(x)
    ensures x + post == ".." <==> x == "" && post == ".."
  {
    DotsBefore(x, post);
    if x == "" { assert x + post == post; }
  }

  /** A capture of several segments: the first one joins `pre` and the last one joins `post`. */
  lemma StarShape(pre: string, capture: string, post: string)
    requires '/' !in pre && '/' !in post && !HasDots(Split(capture)) && |Split(capture)| > 1
    ensures var s := Split(capture);
            var rest := s[1..|s| - 1] + [s[|s| - 1] + post];
            && Split(pre + capture + post) == [pre + s[0]] + rest && Split(capture + post) == [s[0]] + rest
            && !HasDots(s[1..|s| - 1]) && !IsDots(s[0]) && !IsDots(s[|s| - 1])
  {
    StarSegments(pre, capture, post);
    StarSegments("", capture, post);
    assert "" + capture == capture && "" + Split(capture)[0] == Split(capture)[0];
    PartsHaveNoDots(Split(capture));
  }

  lemma StarSegments(pre: string, capture: string, post: string)
    requires '/' !in pre && '/' !in post && |Split(capture)| > 1
    ensures var s := Split(capture);
            Split(pre + capture + post) == [pre + s[0]] + (s[1..|s| - 1] + [s[|s| - 1] + post])
  {
    SplitPrepend(pre, capture);
    SplitAppend(pre + capture, post);
  }

  lemma PartsHaveNoDots(s: seq<string>)
    requires |s| > 1 && !HasDots(s)
    ensures !HasDots(s[1..|s| - 1]) && !IsDots(s[0]) && !IsDots(s[|s| - 1])
  {
    assert s[0] in s && s[|s| - 1] in s && forall seg <- s[1..|s| - 1] :: seg in s;
  }

  lemma CleanCons(directory: seq<string>, first: string, rest: seq<string>)
    ensures Clean(directory, [first] + rest) == Clean(Clean(directory, [first]), rest)
  {
    CleanConcat(directory, [first], rest);
  }

  /** A leading slash after "..": one level up, and the rest on top of it. */
  lemma LeadingClimb(directory: seq<string>, capture: string, post: string)
    requires '/' !in post && capture != "" && !HasDots(Split(capture)) && capture[0] == '/'
    ensures Clean(directory, Split(".." + capture + post))
         == Up(directory, Climb("..", capture, post)) + Clean([], Split(capture + post))
  {
    var s := Split(capture);
    EndsOfSplit(capture);
    assert capture[0] in capture;
    StarShape("..", capture, post);
    var middle, last := s[1..|s| - 1], s[|s| - 1] + post;
    assert ".." + "" == "..";
    UpThenRest(directory, middle + [last]);
    CleanOnTop(Up(directory, 1), middle, last);
    LeadingCount(capture, post);
    UpTwice(directory);
  }

  lemma UpThenRest(directory: seq<string>, rest: seq<string>)
    ensures Clean(directory, [".."] + rest) == Clean(Up(directory, 1), rest)
            && Clean([], [""] + rest) == Clean([], rest)
  {
    CleanCons(directory, "..", rest);
    CleanOne(directory, "..");
    CleanCons([], "", rest);
    CleanOne([], "");
  }

  lemma UpTwice(directory: seq<string>)
    ensures Up(Up(directory, 1), 1) == Up(directory, 2) == Up(directory, 2) + []
  {
  }

  lemma LeadingCount(capture: string, post: string)
    requires capture != "" && capture[0] == '/' && !HasDots(Split(capture))
    ensures var s := Split(capture);
            |s| > 1 && (Climb("..", capture, post) == 2 <==> s[|s| - 1] + post == ".." && NonEmpty(s[1..|s| - 1]) == [])
  {
    var s := Split(capture);
    EndsOfSplit(capture);
    assert capture[0] in capture;
    assert s[|s| - 1] in s;
    CompletesUp(s[|s| - 1], post);
    MiddleIsEmptyIff(capture);
  }

  lemma FirstSegment(directory: seq<string>, pre: string, x: string)
    requires !IsDots(x) && !(x == "" && pre == "..")
    ensures Clean(directory, [pre + x]) == directory + if IsNormal(pre + x) then [pre + x] else []
    ensures !IsNormal(pre + x) <==> x == "" && (pre == "" || pre == ".")
  {
    DotsBeside(pre, x);
    CleanOne(directory, pre + x);
    if x == "" { assert pre + x == pre; }
    assert directory + [] == directory;
  }

  /** Without ".." completed before the star. */
  lemma TrailingClimb(directory: seq<string>, pre: string, capture: string, post: string)
    requires '/' !in pre && '/' !in post && capture != "" && !HasDots(Split(capture))
             && !(capture[0] == '/' && pre == "..")
    ensures var out := Clean(directory, Split(pre + capture + post));
            if Climb(pre, capture, post) == 0 then directory <= out
            else out == Up(directory, 1) && Climb(pre, capture, post) == 1 && Clean([], Split(capture + post)) == []
  {
    var s := Split(capture);
    var n := |s|;
    EndsOfSplit(capture);
    if n == 1 {
      OneSegmentEnds(capture);
      DotsInOneSegment(pre, capture, post);
      CleanWithoutDots(directory, Split(pre + capture + post));
    } else {
      StarShape(pre, capture, post);
      var middle, last := s[1..n - 1], s[n - 1] + post;
      var first := if IsNormal(pre + s[0]) then [pre + s[0]] else [];
      FirstSegment(directory, pre, s[0]);
      CleanCons(directory, pre + s[0], middle + [last]);
      TrailingCount(pre, capture, post);
      TrailingOut(directory, first, middle, last);
      if Climb(pre, capture, post) != 0 { SlashesOut(capture, post); }
    }
  }

  lemma TrailingCount(pre: string, capture: string, post: string)
    requires capture != "" && !HasDots(Split(capture)) && !(capture[0] == '/' && pre == "..") && |Split(capture)| > 1
    ensures var s := Split(capture);
            Climb(pre, capture, post) == 1 <==>
              s[|s| - 1] + post == ".." && NonEmpty(s[1..|s| - 1]) == [] && !IsNormal(pre + s[0])
  {
    var s := Split(capture);
    EndsOfSplit(capture);
    assert s[0] in s && s[|s| - 1] in s;
    CompletesUp(s[|s| - 1], post);
    MiddleIsEmptyIff(capture);
    FirstSegment([], pre, s[0]);
  }

  lemma TrailingOut(directory: seq<string>, first: seq<string>, middle: seq<string>, last: string)
    requires !HasDots(middle)
    ensures var out := Clean(directory + first, middle + [last]);
            if last == ".." && first == [] && NonEmpty(middle) == [] then out == Up(directory, 1) else directory <= out
  {
    var n := first + NonEmpty(middle);
    CleanLast(directory + first, middle, last);
    assert directory + first + NonEmpty(middle) == directory + n;
    PopAfter(directory, n);
  }

  lemma SlashesOut(capture: string, post: string)
    requires capture != "" && OnlySlashes(capture) && post == ".."
    ensures Clean([], Split(capture + post)) == []
  {
    var s := Split(capture);
    OnlySlashesIff(capture);
    NonEmptyNone(s);
    EndsOfSplit(capture);
    MiddleIsEmptyIff(capture);
    SplitAppend(capture, post);
    var init := s[..|s| - 1];
    assert forall seg <- init :: seg in s;
    NonEmptyNone(init);
    assert "" + ".." == "..";
    CleanLast([], init, "..");
  }

  /** The star segment put on top of a directory. */
  lemma StarClimb(directory: seq<string>, pre: string, capture: string, post: string)
    requires '/' !in pre && '/' !in post && capture != "" && !HasDots(Split(capture))
    ensures var k, out := Climb(pre, capture, post), Clean(directory, Split(pre + capture + post));
            if k == 0 then directory <= out else out == Up(directory, k) + Clean([], Split(capture + post))
  {
    if capture[0] == '/' && pre == ".." {
      LeadingClimb(directory, capture, post);
    } else {
      TrailingClimb(directory, pre, capture, post);
      assert Up(directory, 1) + [] == Up(directory, 1);
    }
  }

  // ----- the whole target -----

  /** How many levels the target leaves the directory it is put below, `depth` segments down. */
  function Leaves(segments: seq<string>, capture: string, depth: nat): nat {
    if segments == [] || capture == "" then 0
    else if '*' in segments[0] then
      var i := IndexOf(segments[0], '*');
      var k := Climb(segments[0][..i], capture, segments[0][i + 1..]);
      if k <= depth then 0 else k - depth
    else Leaves(segments[1..], capture, depth + 1)
  }

  /** The segments entered after that. */
  function Enters(segments: seq<string>, capture: string): seq<string> {
    if segments == [] then []
    else if '*' in segments[0] then
      Clean([], Split(capture + segments[0][IndexOf(segments[0], '*') + 1..])) + segments[1..]
    else Enters(segments[1..], capture)
  }

  lemma UpThrough(directory: seq<string>, above: seq<string>, k: nat)
    ensures k <= |above| ==> directory <= Up(directory + above, k)
    ensures k > |above| ==> Up(directory + above, k) == Up(directory, k - |above|)
  {
  }

  lemma PartsAreSlashless(seg: string, i: nat)
    requires '/' !in seg && i < |seg|
    ensures '/' !in seg[..i] && '/' !in seg[i + 1..]
  {
    assert forall c <- seg[..i] :: c in seg;
    assert forall c <- seg[i + 1..] :: c in seg;
  }

  lemma {:induction false} TargetClimbs(directory: seq<string>, above: seq<string>, segments: seq<string>,
                                        capture: string)
    requires capture != "" && !HasDots(Split(capture)) && forall seg <- segments :: IsNormal(seg) && '/' !in seg
    ensures var k, out := Leaves(segments, capture, |above|), Clean(directory + above, Substituted(segments, capture));
            if k == 0 then directory <= out else out == Up(directory, k) + Enters(segments, capture)
    decreases |segments|
  {
    if segments != [] {
      var seg, rest := segments[0], segments[1..];
      assert seg in segments && forall x <- rest :: x in segments;
      if '*' in seg {
        var i := IndexOf(seg, '*');
        PartsAreSlashless(seg, i);
        StarOnTop(directory, above, seg[..i], seg[i + 1..], rest, capture);
      } else {
        CleanCons(directory + above, seg, Substituted(rest, capture));
        CleanOne(directory + above, seg);
        assert directory + above + [seg] == directory + (above + [seg]);
        TargetClimbs(directory, above + [seg], rest, capture);
      }
    }
  }

  lemma StarOnTop(directory: seq<string>, above: seq<string>, pre: string, post: string, rest: seq<string>,
                  capture: string)
    requires capture != "" && !HasDots(Split(capture)) && '/' !in pre && '/' !in post && forall x <- rest :: IsNormal(x)
    ensures var k := Climb(pre, capture, post);
            var out := Clean(directory + above, Split(pre + capture + post) + rest);
            if k <= |above| then directory <= out
            else out == Up(directory, k - |above|) + (Clean([], Split(capture + post)) + rest)
  {
    var d, k := directory + above, Climb(pre, capture, post);
    var star := Clean(d, Split(pre + capture + post));
    StarClimb(d, pre, capture, post);
    CleanConcat(d, Split(pre + capture + post), rest);
    CleanNormal(star, rest);
    UpThrough(directory, above, k);
    if k <= |above| {
      PrefixExtends(directory, star, rest);
    } else {
      RegroupPaths(Up(d, k), Clean([], Split(capture + post)), rest);
    }
  }

  lemma PrefixExtends(d: seq<string>, a: seq<string>, b: seq<string>)
    ensures d <= a ==> d <= a + b
  {
  }

  lemma RegroupPaths(a: seq<string>, b: seq<string>, c: seq<string>)
    ensures a + b + c == a + (b + c)
  {
  }

  /** After `k` levels up, `down` leads back into the directory. */
  predicate LeadsBack(directory: seq<string>, k: nat, down: seq<string>) {
    var u := if k <= |directory| then k else |directory|;
    u <= |down| && down[..u] == directory[|directory| - u..]
  }

  lemma BackInside(directory: seq<string>, k: nat, down: seq<string>)
    ensures directory <= Up(directory, k) + down <==> LeadsBack(directory, k, down)
  {
    var u := if k <= |directory| then k else |directory|;
    var m := |directory| - u;
    var out := Up(directory, k) + down;
    assert Up(directory, k) == directory[..m];
    assert directory == directory[..m] + directory[m..];
    if directory <= out {
      assert out[..|directory|] == directory;
      assert out[m..|directory|] == down[..u] && directory[m..] == out[m..|directory|];
    }
    if LeadsBack(directory, k, down) {
      assert out == directory[..m] + down[..u] + down[u..];
    }
  }

  lemma InsideOfSegments(directory: seq<string>, segments: seq<string>)
    requires IsPackageDirectory(directory) && Slashless(segments)
    ensures Inside(directory, FilePath(directory + segments)) <==> directory <= Clean(directory, segments)
  {
    var all := directory + segments;
    if all == [] {
      assert FilePath(all)[1..] == "";
    } else {
      SplitOfPath(all);
      CleanConcat([], directory, segments);
      CleanNormal([], directory);
      assert [] + directory == directory;
    }
  }

  /** A target string of "exports" resolves to a file in the package directory, exactly when the star segment does not
      climb above it, or the following segments lead back into it. */
  lemma TargetInsideIff(env: Env, ctx: Context, target: string)
    requires OfExports(ctx) && IsPackageDirectory(ctx.directory) && TargetString(env, ctx, target).Ok?
    ensures "./" <= target && TargetString(env, ctx, target).value.FileUrl?
    ensures var segments := TargetSegments(target);
            Inside(ctx.directory, TargetString(env, ctx, target).value.path)
            <==> LeadsBack(ctx.directory, Leaves(segments, ctx.subpath, 0), Enters(segments, ctx.subpath))
  {
    var directory, capture, segments := ctx.directory, ctx.subpath, TargetSegments(target);
    CheckedTarget(directory, target);
    TargetIsNormal(target);
    if capture == "" {
      InsideOfSegments(directory, segments);
      CleanNormal(directory, segments);
    } else {
      CheckedHasNoDots(capture);
      DotsAriseIff(segments, capture);
      ReplaceInFilePath(directory, segments, capture);
      InsideOfSegments(directory, Substituted(segments, capture));
      TargetClimbs(directory, [], segments, capture);
      assert directory + [] == directory;
      BackInside(directory, Leaves(segments, capture, 0), Enters(segments, capture));
    }
  }

  lemma TargetIsNormal(target: string)
    requires "./" <= target && !HasInvalidSegment(target[2..])
    ensures forall seg <- TargetSegments(target) :: IsNormal(seg) && '/' !in seg
  {
    CheckedHasNoDots(target[2..]);
    CleanWithoutDots([], Split(target[2..]));
    CheckedTarget([], target);
  }

  // ----- a request that leaves the package -----

  const ESCAPING: seq<Field> := [Field("./*", Str("./..*"))]

  lemma StarredDotsPass()
    ensures !HasInvalidSegment("..*")
  {
    var s := "..*";
    forall i: nat | i <= |s|
      ensures !SegmentAt(s, i, ".") && !SegmentAt(s, i, "..") && !SegmentAt(s, i, "node_modules")
    {
      assert |"node_modules"| == 12;
    }
  }

  lemma EscapingTarget(capture: string)
    requires capture != "" && capture[0] == '/'
    ensures TargetSegments("./..*") == ["..*"]
    ensures Leaves(["..*"], capture, 0) == 1 && Enters(["..*"], capture) == Clean([], Split(capture))
  {
    assert "./..*"[2..] == "..*";
    SplitPlain("..*");
    assert IndexOf("..*", '*') == 2 && "..*"[..2] == ".." && "..*"[3..] == "";
    assert capture + "" == capture;
    assert ["..*"][1..] == [];
    assert Clean([], Split(capture)) + [] == Clean([], Split(capture));
  }

  /** The pattern captures what follows "./" in the request. */
  lemma EscapingPattern(capture: string)
    requires capture != "" && capture[0] == '/'
    ensures BestOf(Keys(ESCAPING), "./" + capture) == Some("./*") && "./" + capture !in Keys(ESCAPING)
    ensures Candidate("./*", "./" + capture) && CaptureOf("./*", "./" + capture) == capture
  {
    var key, request := "./*", "./" + capture;
    assert IndexOf(key, '*') == 2 && LastIndexOf(key, '*') == 2 && key[..2] == "./" && key[3..] == "";
    assert request[..2] == "./" && request[|request|..] == "";
    assert request[2] == '/' && key[2] == '*';
    assert Keys(ESCAPING) == [key];
    assert Keys(ESCAPING)[..0] == [];
    assert BaseLength(key) == 3 && BaseLength("") == 0;
  }

  lemma EscapingResolves(env: Env, directory: seq<string>, capture: string, conditions: seq<string>, referrer: string)
    requires IsPackageDirectory(directory) && capture != "" && capture[0] == '/' && !HasInvalidSegment(capture)
    ensures var ctx := Context(directory, capture, "./*", true, false, conditions, referrer);
            && TargetString(env, ctx, "./..*").Ok?
            && ExportsResolve(env, directory, "./" + capture, ESCAPING, conditions, referrer)
               == TargetString(env, ctx, "./..*")
  {
    EscapingPattern(capture);
    assert Get(ESCAPING, "./*") == Str("./..*");
    StarredDotsPass();
    assert "./..*"[2..] == "..*";
    CheckedTarget(directory, "./..*");
  }

  /** An exports map whose target is "./..*": a request with a second slash leaves the package, unless its first name is
      that of the package directory. */
  lemma SlashLeavesPackage(env: Env, directory: seq<string>, capture: string, conditions: seq<string>, referrer: string)
    requires IsPackageDirectory(directory) && directory != [] && capture != "" && capture[0] == '/'
             && !HasInvalidSegment(capture)
    ensures var r := ExportsResolve(env, directory, "./" + capture, ESCAPING, conditions, referrer);
            && r.Ok? && r.value.FileUrl?
            && (Inside(directory, r.value.path) <==> FirstName(capture) == Some(directory[|directory| - 1]))
  {
    var ctx := Context(directory, capture, "./*", true, false, conditions, referrer);
    EscapingResolves(env, directory, capture, conditions, referrer);
    EscapingTarget(capture);
    TargetInsideIff(env, ctx, "./..*");
    NamesOf(directory, capture);
  }

  /** The first non-empty segment. */
  function FirstName(text: string): Option<string> {
    var names := NonEmpty(Split(text));
    if names == [] then None else Some(names[0])
  }

  lemma NamesOf(directory: seq<string>, capture: string)
    requires directory != [] && !HasInvalidSegment(capture)
    ensures LeadsBack(directory, 1, Clean([], Split(capture)))
            <==> FirstName(capture) == Some(directory[|directory| - 1])
  {
    CheckedHasNoDots(capture);
    CleanWithoutDots([], Split(capture));
    var names := NonEmpty(Split(capture));
    assert [] + names == names;
    assert directory[|directory| - 1..] == [directory[|directory| - 1]];
    assert names != [] ==> names[..1] == [names[0]];
  }
}
