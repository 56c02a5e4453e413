/** Substituting a capture into an exports target of `crates/node/resolution.rs`: when "." and ".." segments
    arise, and that without them the file lies under the package directory. */
module Containment {
  import opened Common
  import opened Lexical
  import opened Patterns
  import opened Exports
  import opened PackageResolver

  // ----- substitution in a path -----

  /** The segments with the first star replaced. */
  function Substituted(segments: seq<string>, capture: string): seq<string> {
    if segments == [] then []
    else if '*' in segments[0] then Split(ReplaceFirst(segments[0], '*', capture)) + segments[1..]
    else [segments[0]] + Substituted(segments[1..], capture)
  }

  /** Replacing the first star in the text of a path replaces it in the first segment that has one. */
  lemma {:induction false} ReplaceInPath(segments: seq<string>, capture: string)
    ensures ReplaceFirst(PathText(segments), '*', capture) == PathText(Substituted(segments, capture))
  {
    if segments != [] {
      var seg, rest := segments[0], PathText(segments[1..]);
      if '*' in seg {
        var replaced := ReplaceFirst(seg, '*', capture);
        ReplaceFirstAfter("/", seg + rest, '*', capture);
        ReplaceFirstBefore(seg, rest, '*', capture);
        assert "/" + seg + rest == "/" + (seg + rest);
        SplitIsInverse(replaced);
        PathTextConcat(Split(replaced), segments[1..]);
      } else {
        ReplaceFirstAfter("/" + seg, rest, '*', capture);
        ReplaceInPath(segments[1..], capture);
        assert ([seg] + Substituted(segments[1..], capture))[1..] == Substituted(segments[1..], capture);
      }
    }
  }

  lemma {:induction false} SubstitutedAfter(directory: seq<string>, segments: seq<string>, capture: string)
    requires forall seg <- directory :: '*' !in seg
    ensures Substituted(directory + segments, capture) == directory + Substituted(segments, capture)
  {
    if directory == [] {
      assert directory + segments == segments;
    } else {
      assert (directory + segments)[0] == directory[0] && (directory + segments)[1..] == directory[1..] + segments;
      assert directory[0] in directory;
      SubstitutedAfter(directory[1..], segments, capture);
    }
  }

  // ----- when dots arise -----

  ghost predicate HasDots(segments: seq<string>) {
    exists seg <- segments :: IsDots(seg)
  }

  /** The capture starts with a slash after dots, or ends with a slash before dots, at the first star. */
  predicate DotsArise(segments: seq<string>, capture: string) {
    if segments == [] || capture == "" then false
    else if '*' in segments[0] then
      var i := IndexOf(segments[0], '*');
      || (capture[0] == '/' && IsDots(segments[0][..i]))
      || (capture[|capture| - 1] == '/' && IsDots(segments[0][i + 1..]))
    else DotsArise(segments[1..], capture)
  }

  lemma NotDotsAround(a: string, x: string, b: string)
    requires x != "" && !IsDots(x)
    ensures !IsDots(a + x + b)
  {
    assert (a + x + b)[|a|..|a| + |x|] == x;
  }

  /** The first and the last segment of a text are empty exactly when it starts or ends with a slash. */
  lemma {:induction false} EndsOfSplit(s: string)
    requires s != ""
    ensures Split(s)[0] == "" <==> s[0] == '/'
    ensures Split(s)[|Split(s)| - 1] == "" <==> s[|s| - 1] == '/'
    ensures |Split(s)| == 1 <==> '/' !in s
  {
    if |s| == 1 {
      assert s[1..] == "";
    } else {
      EndsOfSplit(s[1..]);
      assert s == [s[0]] + s[1..];
    }
  }

  lemma DotsInOneSegment(pre: string, capture: string, post: string)
    requires '/' !in pre && '/' !in post && '/' !in capture && capture != "" && !HasDots(Split(capture))
    ensures !HasDots(Split(pre + capture + post))
  {
    SplitPrepend(pre + capture + post, "");
    SplitPrepend(capture, "");
    assert pre + capture + post + "" == pre + capture + post && capture + "" == capture;
    assert Split(pre + capture + post) == [pre + capture + post];
    assert Split(capture)[0] == capture && capture in Split(capture);
    NotDotsAround(pre, capture, post);
  }

  lemma DotsBeside(pre: string, x: string)
    ensures !IsDots(x) ==> (IsDots(pre + x) <==> x == "" && IsDots(pre))
  {
    if x == "" {
      assert pre + x == pre;
    } else if !IsDots(x) {
      NotDotsAround(pre, x, "");
      assert pre + x + "" == pre + x;
    }
  }

  lemma DotsBefore(x: string, post: string)
    ensures !IsDots(x) ==> (IsDots(x + post) <==> x == "" && IsDots(post))
  {
    if x == "" {
      assert x + post == post;
    } else if !IsDots(x) {
      NotDotsAround("", x, post);
      assert "" + x + post == x + post;
    }
  }

  /** Dots arise at the ends only, where the first or the last segment is empty. */
  lemma DotsAtEnds(s: seq<string>, pre: string, post: string)
    requires |s| > 1 && !HasDots(s)
    ensures HasDots(Append(Prepend(pre, s), post))
            <==> (s[0] == "" && IsDots(pre)) || (s[|s| - 1] == "" && IsDots(post))
  {
    var n, r := |s|, Append(Prepend(pre, s), post);
    assert s[0] in s && s[n - 1] in s;
    DotsBeside(pre, s[0]);
    DotsBefore(s[n - 1], post);
    assert r[0] == pre + s[0] && r[n - 1] == s[n - 1] + post && r[0] in r && r[n - 1] in r;
    forall k | 0 < k < n - 1 ensures !IsDots(r[k]) {
      assert r[k] == s[k] && s[k] in s;
    }
  }

  lemma DotsInSegment(pre: string, capture: string, post: string)
    requires '/' !in pre && '/' !in post && capture != "" && !HasDots(Split(capture))
    ensures HasDots(Split(pre + capture + post))
       <==> (capture[0] == '/' && IsDots(pre)) || (capture[|capture| - 1] == '/' && IsDots(post))
  {
    var s := Split(capture);
    EndsOfSplit(capture);
    if |s| == 1 {
      DotsInOneSegment(pre, capture, post);
      OneSegmentEnds(capture);
    } else {
      SplitPrepend(pre, capture);
      SplitAppend(pre + capture, post);
      DotsAtEnds(s, pre, post);
    }
  }

  lemma OneSegmentEnds(s: string)
    requires '/' !in s && s != ""
    ensures s[0] != '/' && s[|s| - 1] != '/'
  {
    assert s[0] in s && s[|s| - 1] in s;
  }

  lemma {:induction false} DotsAriseIff(segments: seq<string>, capture: string)
    requires capture != "" && !HasDots(Split(capture))
    requires forall seg <- segments :: !IsDots(seg) && '/' !in seg
    ensures HasDots(Substituted(segments, capture)) <==> DotsArise(segments, capture)
    ensures forall seg <- Substituted(segments, capture) :: '/' !in seg
  {
    if segments != [] {
      var seg := segments[0];
      assert seg in segments && forall x <- segments[1..] :: x in segments;
      if '*' in seg {
        var i := IndexOf(seg, '*');
        assert forall c <- seg[..i] :: c in seg;
        assert forall c <- seg[i + 1..] :: c in seg;
        DotsInSegment(seg[..i], capture, seg[i + 1..]);
        SplitIsSlashless(ReplaceFirst(seg, '*', capture));
      } else {
        DotsAriseIff(segments[1..], capture);
      }
    }
  }

  // ----- under the package directory -----

  /** The path is the directory followed by segments without dots. */
  ghost predicate Under(directory: seq<string>, path: string) {
    exists segments :: Slashless(segments) && !HasDots(segments) && path == FilePath(directory + segments)
  }

  lemma SplitOfPath(segments: seq<string>)
    requires Slashless(segments) && segments != []
    ensures Split(PathText(segments)[1..]) == segments
  {
    var seg, rest := segments[0], segments[1..];
    assert seg in segments && segments == [seg] + rest;
    assert ("/" + seg + PathText(rest))[1..] == seg + PathText(rest);
    SplitWithPath(seg, rest);
    SplitPlain(seg);
  }

  /** The cleaned path lies in the directory. */
  predicate Inside(directory: seq<string>, path: string) {
    "/" <= path && directory <= Clean([], Split(path[1..]))
  }

  /** A clean absolute directory without a star. */
  ghost predicate IsPackageDirectory(directory: seq<string>) {
    forall seg <- directory :: IsNormal(seg) && '/' !in seg && '*' !in seg
  }

  /** Without dots after the directory, a path lies in it. */
  lemma UnderIsInside(directory: seq<string>, path: string)
    requires IsPackageDirectory(directory) && Under(directory, path)
    ensures Inside(directory, path)
  {
    var segments :| Slashless(segments) && !HasDots(segments) && path == FilePath(directory + segments);
    var all := directory + segments;
    if all == [] {
      assert path[1..] == "";
    } else {
      SplitOfPath(all);
      CleanWithoutDots([], all);
      NonEmptyAfter(directory, segments);
    }
  }

  lemma {:induction false} NonEmptyAfter(directory: seq<string>, segments: seq<string>)
    requires forall seg <- directory :: IsNormal(seg)
    ensures NonEmpty(directory + segments) == directory + NonEmpty(segments)
  {
    if directory == [] {
      assert directory + segments == segments;
    } else {
      assert (directory + segments)[1..] == directory[1..] + segments;
      assert directory[0] in directory && forall seg <- directory[1..] :: seg in directory;
      NonEmptyAfter(directory[1..], segments);
    }
  }

  lemma SamePathSameSegments(a: seq<string>, b: seq<string>)
    requires Slashless(a) && Slashless(b) && FilePath(a) == FilePath(b)
    ensures HasDots(a) ==> a == b
  {
    if a != [] {
      SplitOfPath(a);
      if b == [] {
        assert PathText(a)[1..] == "";
      } else {
        SplitOfPath(b);
      }
    }
  }

  /** With slashless segments a path has dots after the directory or not, however it is written. */
  lemma UnderIffNoDots(directory: seq<string>, segments: seq<string>)
    requires Slashless(directory) && Slashless(segments)
    ensures Under(directory, FilePath(directory + segments)) <==> !HasDots(segments)
  {
    var all := directory + segments;
    assert forall seg <- segments :: seg in all;
    assert all[|directory|..] == segments;
    if Under(directory, FilePath(all)) {
      var others :| Slashless(others) && !HasDots(others) && FilePath(all) == FilePath(directory + others);
      SamePathSameSegments(all, directory + others);
      assert (directory + others)[|directory|..] == others;
    }
  }

  // ----- targets -----

  /** The segments of a target that starts with "./". */
  function TargetSegments(target: string): seq<string>
    requires "./" <= target
  {
    NonEmpty(Split(target[2..]))
  }

  /** A checked target resolves to its own segments below the directory: the later prefix test cannot fail. */
  lemma CheckedTarget(directory: seq<string>, target: string)
    requires "./" <= target && !HasInvalidSegment(target[2..])
    ensures JoinClean(directory, target) == directory + TargetSegments(target)
    ensures Slashless(TargetSegments(target)) && !HasDots(TargetSegments(target))
  {
    var rest := target[2..];
    CheckedHasNoDots(rest);
    CleanWithoutDots(directory, Split(rest));
    SplitIsSlashless(rest);
    SplitPrepend(".", "/" + rest);
    assert target == "." + ("/" + rest);
    assert ("/" + rest)[1..] == rest;
    assert Split("/" + rest) == [""] + Split(rest);
    assert "." + "" == ".";
    assert Split(target) == ["."] + Split(rest);
    assert (["."] + Split(rest))[1..] == Split(rest);
  }

  /** A pattern or an exact target of "exports". */
  predicate OfExports(ctx: Context) {
    !ctx.internal && (ctx.subpath == "" || ctx.pattern)
  }

  /** The path of a target string of "exports" is the package directory and segments without dots, exactly
      when the capture completes no dots beside the star of the target. */
  lemma TargetUnderIff(env: Env, ctx: Context, target: string)
    requires OfExports(ctx) && IsPackageDirectory(ctx.directory)
    requires TargetString(env, ctx, target).Ok?
    ensures "./" <= target
    ensures var url := TargetString(env, ctx, target).value;
            url.FileUrl? && (Under(ctx.directory, url.path) <==> !DotsArise(TargetSegments(target), ctx.subpath))
  {
    var segments := TargetSegments(target);
    CheckedTarget(ctx.directory, target);
    if ctx.subpath == "" {
      NoDotsFromNothing(segments);
      UnderIffNoDots(ctx.directory, segments);
    } else {
      CheckedHasNoDots(ctx.subpath);
      DotsAriseIff(segments, ctx.subpath);
      UnderIffNoDots(ctx.directory, Substituted(segments, ctx.subpath));
      ReplaceInFilePath(ctx.directory, segments, ctx.subpath);
    }
  }

  lemma {:induction false} NoDotsFromNothing(segments: seq<string>)
    ensures !DotsArise(segments, "")
  {
    if segments != [] && '*' !in segments[0] {
      NoDotsFromNothing(segments[1..]);
    }
  }

  lemma ReplaceInFilePath(directory: seq<string>, segments: seq<string>, capture: string)
    requires forall seg <- directory :: '*' !in seg
    ensures ReplaceFirst(FilePath(directory + segments), '*', capture)
            == FilePath(directory + Substituted(segments, capture))
  {
    var all := directory + segments;
    SubstitutedAfter(directory, segments, capture);
    if all == [] {
      assert ReplaceFirst("/", '*', capture) == "/";
    } else {
      ReplaceInPath(all, capture);
      assert Substituted(all, capture) != [];
    }
  }

  // ----- whole targets and exports -----

  /** The capture starts and ends inside a segment. */
  predicate CleanCapture(capture: string) {
    capture == "" || (capture[0] != '/' && capture[|capture| - 1] != '/')
  }

  lemma {:induction false} CleanCaptureNoDots(segments: seq<string>, capture: string)
    requires CleanCapture(capture)
    ensures !DotsArise(segments, capture)
  {
    if segments != [] && capture != "" && '*' !in segments[0] {
      CleanCaptureNoDots(segments[1..], capture);
    }
  }

  lemma {:induction false} ArrayOutcomeIsOne(results: seq<Outcome>)
    requires results != []
    ensures ArrayOutcome(results) in results
  {
    if !Decisive(results[0]) && |results| > 1 {
      ArrayOutcomeIsOne(results[1..]);
    }
  }

  lemma {:induction false} ObjectOutcomeIsOne(results: seq<Outcome>, otherwise: Error)
    ensures ObjectOutcome(results, otherwise) == Err(otherwise) || ObjectOutcome(results, otherwise) in results
  {
    if results != [] && results[0] == Ok(None) {
      ObjectOutcomeIsOne(results[1..], otherwise);
    }
  }

  /** Whatever JSON a target is, what it resolves to is a file under the package directory, if the capture is clean. */
  lemma {:induction false} TargetUnderPackage(env: Env, ctx: Context, target: Json)
    requires OfExports(ctx) && IsPackageDirectory(ctx.directory)
    requires CleanCapture(ctx.subpath) && ResolveTarget(env, ctx, target).Ok?
             && ResolveTarget(env, ctx, target).value.Some?
    ensures var url := ResolveTarget(env, ctx, target).value.value;
            url.FileUrl? && Under(ctx.directory, url.path) && Inside(ctx.directory, url.path)
    decreases target
  {
    match target
    case Str(s) =>
      TargetUnderIff(env, ctx, s);
      CleanCaptureNoDots(TargetSegments(s), ctx.subpath);
      UnderIsInside(ctx.directory, TargetString(env, ctx, s).value.path);
    case Arr(items) =>
      TargetOfArray(env, ctx, items);
      var results := ItemOutcomes(env, ctx, items);
      ArrayOutcomeIsOne(results);
      var i :| 0 <= i < |results| && results[i] == ArrayOutcome(results);
      TargetUnderPackage(env, ctx, items[i]);
    case Obj(fields) =>
      TargetOfObject(env, ctx, fields);
      var results := FieldOutcomes(env, ctx, fields);
      var otherwise := InvalidPackageTarget(ctx.key, target);
      ObjectOutcomeIsOne(results, otherwise);
      var i :| 0 <= i < |results| && results[i] == ObjectOutcome(results, otherwise);
      TargetUnderPackage(env, ctx, fields[i].value);
  }

  /** What the chosen pattern captures of the request; nothing for an exact key. */
  function Captured(exports: seq<Field>, subpath: string): string {
    if subpath in Keys(exports) && '*' !in subpath && !EndsWith(subpath, "/") then ""
    else
      match BestOf(Keys(exports), subpath)
      case None => ""
      case Some(key) =>
        BestOfIsBest(Keys(exports), subpath);
        CandidateIffMatches(key, subpath);
        CaptureOf(key, subpath)
  }

  /** Every request that resolves through "exports" gives a file under the package directory, if what the
      pattern captures starts and ends inside a segment. */
  lemma ExportsUnderPackage(env: Env, directory: seq<string>, subpath: string, exports: seq<Field>,
                            conditions: seq<string>, referrer: string)
    requires IsPackageDirectory(directory) && CleanCapture(Captured(exports, subpath))
    requires ExportsResolve(env, directory, subpath, exports, conditions, referrer).Ok?
    ensures var url := ExportsResolve(env, directory, subpath, exports, conditions, referrer).value;
            url.FileUrl? && Under(directory, url.path) && Inside(directory, url.path)
  {
    if subpath in Keys(exports) && '*' !in subpath && !EndsWith(subpath, "/") {
      var ctx := Context(directory, "", subpath, false, false, conditions, referrer);
      TargetUnderPackage(env, ctx, Get(exports, subpath));
    } else {
      var key := BestOf(Keys(exports), subpath).value;
      BestOfIsBest(Keys(exports), subpath);
      CandidateIffMatches(key, subpath);
      var ctx := Context(directory, CaptureOf(key, subpath), key, true, false, conditions, referrer);
      TargetUnderPackage(env, ctx, Get(exports, key));
    }
  }
}
