/** What a package's "exports" mean, apart from how `crates/node/resolution.rs` computes it: which file a target
    stands for under a set of conditions, and which target a request has. */
module ExportsMeaning {
  import opened Common
  import opened Lexical
  import opened Patterns
  import opened Exports
  import opened PackageResolver
  import opened Containment

  /** Where a target stands: in the package at `directory`, under `key`, asked for by `request`, of which a
      pattern key captures a part. */
  datatype Place = Place(directory: seq<string>, key: string, request: string, capture: Option<string>,
                         conditions: seq<string>)

  ghost predicate IsPlace(p: Place) {
    && IsPackageDirectory(p.directory)
    && (p.capture.Some? ==> p.capture.value != "" && Fits(p.key, p.request, p.capture.value))
  }

  // ----- strings -----

  /** One of the forbidden words stands between separators or ends. */
  ghost predicate IsUnsafe(s: string) {
    exists a, word, b :: Between(s, a, word, b)
  }

  predicate Between(s: string, a: string, word: string, b: string) {
    && s == a + word + b && (word == "." || word == ".." || word == "node_modules")
    && (a == "" || IsSeparator(a[|a| - 1])) && (b == "" || IsSeparator(b[0]))
  }

  lemma BetweenIsSegment(s: string, a: string, word: string, b: string)
    requires Between(s, a, word, b)
    ensures SegmentAt(s, |a|, word)
  {
    assert s[|a|..|a| + |word|] == word;
  }

  lemma SegmentIsBetween(s: string, i: nat, word: string)
    requires SegmentAt(s, i, word) && (word == "." || word == ".." || word == "node_modules")
    ensures IsUnsafe(s)
  {
    assert Between(s, s[..i], word, s[i + |word|..]);
  }

  lemma UnsafeIff(s: string)
    ensures IsUnsafe(s) <==> HasInvalidSegment(s)
  {
    if IsUnsafe(s) {
      var a, word, b :| Between(s, a, word, b);
      BetweenIsSegment(s, a, word, b);
    }
    if HasInvalidSegment(s) {
      var i: nat :| i <= |s| && (SegmentAt(s, i, ".") || SegmentAt(s, i, "..") || SegmentAt(s, i, "node_modules"));
      if SegmentAt(s, i, ".") {
        SegmentIsBetween(s, i, ".");
      } else if SegmentAt(s, i, "..") {
        SegmentIsBetween(s, i, "..");
      } else {
        SegmentIsBetween(s, i, "node_modules");
      }
    }
  }

  /** A target that starts with "./" and is safe is the file with its names below the package directory, with
      what the pattern captured in place of its first star; any other is invalid. */
  ghost function StringMeaning(p: Place, target: string): Outcome {
    if !("./" <= target) || IsUnsafe(target[2..]) then Err(InvalidPackageTarget(p.key, Str(target)))
    else
      match p.capture
      case None => Ok(Some(FileUrl(FilePath(p.directory + TargetSegments(target)))))
      case Some(c) =>
        if IsUnsafe(c) then Err(InvalidSubpath(p.request))
        else Ok(Some(FileUrl(FilePath(p.directory + Substituted(TargetSegments(target), c)))))
  }

  // ----- any target -----

  predicate Selected(key: string, conditions: seq<string>) {
    key == "default" || exists i | 0 <= i < |conditions| :: conditions[i] == key
  }

  /** An alternative that gives way to the next one: nothing, or an invalid target. */
  ghost predicate IsPassedOver(r: Outcome) {
    r == Ok(None) || (r.Err? && r.error.InvalidPackageTarget?)
  }

  /** What a target means. Of an array, the first alternative that does not give way, or else the last; of an
      object, the first selected field that means something. */
  ghost predicate Means(p: Place, target: Json, r: Outcome)
    decreases target, 0
  {
    match target
    case Null => r == Ok(None)
    case Bool(_) => r == Err(InvalidPackageTarget(p.key, target))
    case Number(_) => r == Err(InvalidPackageTarget(p.key, target))
    case Str(s) => r == StringMeaning(p, s)
    case Arr(items) =>
      if items == [] then r == Ok(None)
      else
        exists i | 0 <= i < |items| ::
          && Means(p, items[i], r)
          && (forall j | 0 <= j < i :: GivesWay(p, items[j]))
          && (i == |items| - 1 || !IsPassedOver(r))
    case Obj(fields) =>
      if r == Err(InvalidPackageTarget(p.key, target)) && AllNothing(p, fields, |fields|) then true
      else
        exists i | 0 <= i < |fields| ::
          && Selected(fields[i].key, p.conditions) && r != Ok(None) && Means(p, fields[i].value, r)
          && AllNothing(p, fields, i)
  }

  ghost predicate GivesWay(p: Place, target: Json)
    decreases target, 1
  {
    Means(p, target, Ok(None)) || exists e: Error :: e.InvalidPackageTarget? && Means(p, target, Err(e))
  }

  /** The selected ones of the first `n` fields mean nothing. */
  ghost predicate AllNothing(p: Place, fields: seq<Field>, n: nat)
    requires n <= |fields|
    decreases fields, 0
  {
    forall j | 0 <= j < n :: Selected(fields[j].key, p.conditions) ==> Means(p, fields[j].value, Ok(None))
  }

  // ----- the code computes the meaning -----

  function ContextOf(p: Place, referrer: string): Context {
    Context(p.directory, if p.capture.Some? then p.capture.value else "", p.key, p.capture.Some?, false, p.conditions,
            referrer)
  }

  lemma {:induction false} ReplaceNone(s: string, c: char, with: string)
    requires c !in s
    ensures ReplaceAll(s, c, with) == s
  {
    if s != [] {
      assert s[0] in s && forall x <- s[1..] :: x in s;
      ReplaceNone(s[1..], c, with);
    }
  }

  lemma ReplaceOne(a: string, c: char, b: string, with: string)
    requires c !in a && c !in b
    ensures ReplaceAll(a + ([c] + b), c, with) == a + (with + b)
  {
    ReplaceConcat(a, [c] + b, c, with);
    ReplaceNone(a, c, with);
    ReplaceNone(b, c, with);
    assert ([c] + b)[1..] == b;
  }

  /** The key with its star replaced is the request. */
  lemma KeyIsRequest(key: string, request: string, capture: string)
    requires Fits(key, request, capture)
    ensures ReplaceAll(key, '*', capture) == request
  {
    var i := IndexOf(key, '*');
    var a, b := key[..i], key[i + 1..];
    assert '*' !in a && '*' !in b;
    assert key == a + (['*'] + b) && request == a + (capture + b);
    ReplaceOne(a, '*', b, capture);
  }

  lemma StringIsMeaning(env: Env, referrer: string, p: Place, target: string)
    requires IsPlace(p)
    ensures ResolveTarget(env, ContextOf(p, referrer), Str(target)) == StringMeaning(p, target)
  {
    var ctx := ContextOf(p, referrer);
    if "./" <= target {
      UnsafeIff(target[2..]);
      if !IsUnsafe(target[2..]) {
        CheckedTarget(p.directory, target);
        assert p.directory <= p.directory + TargetSegments(target);
        if p.capture.Some? {
          UnsafeIff(p.capture.value);
          KeyIsRequest(p.key, p.request, p.capture.value);
          ReplaceInFilePath(p.directory, TargetSegments(target), p.capture.value);
        }
      }
    }
  }

  /** The outcome of an array in terms of its items' outcomes. */
  ghost predicate IsArrayOutcome(results: seq<Outcome>, r: Outcome, i: nat) {
    && i < |results| && r == results[i] && (forall j | 0 <= j < i :: !Decisive(results[j]))
    && (i == |results| - 1 || Decisive(r))
  }

  lemma {:induction false} ArrayOutcomeIff(results: seq<Outcome>, r: Outcome)
    requires results != []
    ensures r == ArrayOutcome(results) <==> exists i: nat :: IsArrayOutcome(results, r, i)
  {
    if Decisive(results[0]) || |results| == 1 {
      assert IsArrayOutcome(results, results[0], 0);
    } else {
      var rest := results[1..];
      ArrayOutcomeIff(rest, r);
      if i: nat :| IsArrayOutcome(rest, r, i) {
        assert forall j | 0 < j < i + 1 :: results[j] == rest[j - 1];
        assert IsArrayOutcome(results, r, i + 1);
      }
      if i: nat :| IsArrayOutcome(results, r, i) {
        assert forall j | 0 <= j < i - 1 :: rest[j] == results[j + 1];
        assert IsArrayOutcome(rest, r, i - 1);
      }
    }
  }

  ghost predicate IsObjectOutcome(results: seq<Outcome>, r: Outcome, i: nat) {
    i < |results| && r == results[i] != Ok(None) && forall j | 0 <= j < i :: results[j] == Ok(None)
  }

  ghost predicate AllNone(results: seq<Outcome>) {
    forall j | 0 <= j < |results| :: results[j] == Ok(None)
  }

  lemma {:induction false} ObjectOutcomeIff(results: seq<Outcome>, otherwise: Error, r: Outcome)
    ensures r == ObjectOutcome(results, otherwise) <==>
              (AllNone(results) && r == Err(otherwise)) || exists i: nat :: IsObjectOutcome(results, r, i)
  {
    if results != [] {
      if results[0] != Ok(None) {
        assert IsObjectOutcome(results, results[0], 0);
      } else {
        var rest := results[1..];
        ObjectOutcomeIff(rest, otherwise, r);
        assert AllNone(rest) <==> AllNone(results) by {
          assert forall j | 0 < j < |results| :: results[j] == rest[j - 1];
          assert forall j | 0 <= j < |rest| :: rest[j] == results[j + 1];
        }
        if i: nat :| IsObjectOutcome(rest, r, i) {
          assert forall j | 0 < j < i + 1 :: results[j] == rest[j - 1];
          assert IsObjectOutcome(results, r, i + 1);
        }
        if i: nat :| IsObjectOutcome(results, r, i) {
          assert forall j | 0 <= j < i - 1 :: rest[j] == results[j + 1];
          assert IsObjectOutcome(rest, r, i - 1);
        }
      }
    }
  }

  lemma SelectedIff(key: string, conditions: seq<string>)
    ensures Selected(key, conditions) <==> Applies(key, conditions)
  {
  }

  /** Errors of "exports" targets. */
  ghost predicate IsTargetOutcome(r: Outcome) {
    r.Err? ==> r.error.InvalidPackageTarget? || r.error.InvalidSubpath?
  }

  lemma {:induction false} TargetErrors(p: Place, target: Json, r: Outcome)
    requires Means(p, target, r)
    ensures IsTargetOutcome(r)
    decreases target
  {
    match target
    case Arr(items) =>
      if items != [] {
        var i :| 0 <= i < |items| && Means(p, items[i], r);
        TargetErrors(p, items[i], r);
      }
    case Obj(fields) =>
      if r != Err(InvalidPackageTarget(p.key, target)) {
        var i :| 0 <= i < |fields| && Means(p, fields[i].value, r);
        TargetErrors(p, fields[i].value, r);
      }
    case _ =>
  }

  /** The outcome is the target's only meaning. */
  ghost predicate OnlyMeans(p: Place, target: Json, o: Outcome) {
    forall r :: Means(p, target, r) <==> r == o
  }

  /** What the code answers for the target is its only meaning. */
  ghost predicate Computes(env: Env, referrer: string, p: Place, target: Json) {
    OnlyMeans(p, target, ResolveTarget(env, ContextOf(p, referrer), target))
  }

  lemma PassedOverIff(p: Place, target: Json, o: Outcome)
    requires OnlyMeans(p, target, o)
    ensures Means(p, target, o)
    ensures (GivesWay(p, target) <==> !Decisive(o)) && (Decisive(o) <==> !IsPassedOver(o))
  {
    assert Means(p, target, o);
    TargetErrors(p, target, o);
  }

  lemma ArrayMeans(p: Place, items: seq<Json>, results: seq<Outcome>, r: Outcome)
    requires items != [] && |results| == |items|
    requires forall i | 0 <= i < |items| :: OnlyMeans(p, items[i], results[i])
    ensures Means(p, Arr(items), r) <==> exists i: nat :: IsArrayOutcome(results, r, i)
  {
    forall i | 0 <= i < |items|
      ensures GivesWay(p, items[i]) <==> !Decisive(results[i])
      ensures Decisive(results[i]) <==> !IsPassedOver(results[i])
      ensures Means(p, items[i], r) <==> r == results[i]
    {
      PassedOverIff(p, items[i], results[i]);
    }
    if Means(p, Arr(items), r) {
      var i :| 0 <= i < |items| && Means(p, items[i], r) && (forall j | 0 <= j < i :: GivesWay(p, items[j]))
               && (i == |items| - 1 || !IsPassedOver(r));
      assert IsArrayOutcome(results, r, i);
    }
    if i: nat :| IsArrayOutcome(results, r, i) {
      assert Means(p, items[i], r);
    }
  }

  lemma ArrayComputes(env: Env, referrer: string, p: Place, items: seq<Json>)
    requires items != [] && forall i | 0 <= i < |items| :: Computes(env, referrer, p, items[i])
    ensures Computes(env, referrer, p, Arr(items))
  {
    var ctx := ContextOf(p, referrer);
    var results := ItemOutcomes(env, ctx, items);
    TargetOfArray(env, ctx, items);
    forall r ensures Means(p, Arr(items), r) <==> r == ResolveTarget(env, ctx, Arr(items)) {
      ArrayOutcomeIff(results, r);
      ArrayMeans(p, items, results, r);
    }
  }

  /** The outcome of a field: that of its value if it is selected, and nothing otherwise. */
  ghost predicate FieldMeans(p: Place, field: Field, o: Outcome) {
    if Selected(field.key, p.conditions) then OnlyMeans(p, field.value, o) else o == Ok(None)
  }

  lemma NothingIff(p: Place, fields: seq<Field>, results: seq<Outcome>, n: nat)
    requires n <= |results| == |fields| && forall i | 0 <= i < |fields| :: FieldMeans(p, fields[i], results[i])
    ensures AllNothing(p, fields, n) <==> forall j | 0 <= j < n :: results[j] == Ok(None)
  {
    forall j | 0 <= j < n
      ensures results[j] == Ok(None) <==>
                (Selected(fields[j].key, p.conditions) ==> Means(p, fields[j].value, Ok(None)))
    {
      assert FieldMeans(p, fields[j], results[j]);
    }
  }

  lemma ObjectMeans(p: Place, fields: seq<Field>, results: seq<Outcome>, r: Outcome)
    requires |results| == |fields| && forall i | 0 <= i < |fields| :: FieldMeans(p, fields[i], results[i])
    ensures Means(p, Obj(fields), r) <==>
              || (AllNone(results) && r == Err(InvalidPackageTarget(p.key, Obj(fields))))
              || exists i: nat :: IsObjectOutcome(results, r, i)
  {
    NothingIff(p, fields, results, |fields|);
    if Means(p, Obj(fields), r) && !(r == Err(InvalidPackageTarget(p.key, Obj(fields))) && AllNone(results)) {
      var i :| 0 <= i < |fields| && Selected(fields[i].key, p.conditions) && r != Ok(None)
               && Means(p, fields[i].value, r) && AllNothing(p, fields, i);
      NothingIff(p, fields, results, i);
      assert FieldMeans(p, fields[i], results[i]);
      assert IsObjectOutcome(results, r, i);
    }
    if i: nat :| IsObjectOutcome(results, r, i) {
      NothingIff(p, fields, results, i);
      assert FieldMeans(p, fields[i], results[i]);
    }
  }

  lemma ObjectComputes(env: Env, referrer: string, p: Place, fields: seq<Field>)
    requires forall i | 0 <= i < |fields| :: Computes(env, referrer, p, fields[i].value)
    ensures Computes(env, referrer, p, Obj(fields))
  {
    var ctx := ContextOf(p, referrer);
    var results := FieldOutcomes(env, ctx, fields);
    TargetOfObject(env, ctx, fields);
    forall i | 0 <= i < |fields| ensures FieldMeans(p, fields[i], results[i]) {
      SelectedIff(fields[i].key, p.conditions);
      assert Computes(env, referrer, p, fields[i].value);
    }
    forall r ensures Means(p, Obj(fields), r) <==> r == ResolveTarget(env, ctx, Obj(fields)) {
      ObjectOutcomeIff(results, InvalidPackageTarget(p.key, Obj(fields)), r);
      ObjectMeans(p, fields, results, r);
    }
  }

  /** Whatever JSON the target is, and whatever the file system and the referrer are: the code answers the one
      meaning of the target. */
  lemma {:induction false} TargetIsMeaning(env: Env, referrer: string, p: Place, target: Json)
    requires IsPlace(p)
    ensures Computes(env, referrer, p, target)
    decreases target
  {
    match target
    case Str(s) =>
      StringIsMeaning(env, referrer, p, s);
    case Arr(items) =>
      if items == [] {
        TargetOfArray(env, ContextOf(p, referrer), items);
      } else {
        forall i | 0 <= i < |items| ensures Computes(env, referrer, p, items[i]) {
          TargetIsMeaning(env, referrer, p, items[i]);
        }
        ArrayComputes(env, referrer, p, items);
      }
    case Obj(fields) =>
      forall i | 0 <= i < |fields| ensures Computes(env, referrer, p, fields[i].value) {
        TargetIsMeaning(env, referrer, p, fields[i].value);
      }
      ObjectComputes(env, referrer, p, fields);
    case _ =>
  }

  // ----- which target a request has -----

  /** The value of the first field with the key. */
  ghost predicate HasValue(fields: seq<Field>, key: string, value: Json) {
    exists i: nat :: IsFirst(fields, key, i) && fields[i].value == value
  }

  predicate IsFirst(fields: seq<Field>, key: string, i: nat) {
    i < |fields| && fields[i].key == key && forall j | 0 <= j < i :: fields[j].key != key
  }

  /** A key that is taken literally. */
  predicate IsLiteral(key: string) {
    '*' !in key && (key == "" || key[|key| - 1] != '/')
  }

  /** The request is a literal key of the exports. */
  ghost predicate IsExact(exports: seq<Field>, request: string) {
    IsLiteral(request) && exists value :: HasValue(exports, request, value)
  }

  /** The request is the pattern key with the captured text for its star, and every other pattern key that it
      is too is less specific. */
  ghost predicate IsChosen(exports: seq<Field>, request: string, key: string, capture: string) {
    && !IsExact(exports, request)
    && key in Keys(exports) && capture != "" && Fits(key, request, capture)
    && forall k <- Keys(exports) :: Matches(k, request) ==> k == key || MoreSpecific(key, k)
  }

  /** The request has this target, at this place. */
  ghost predicate HasTarget(p: Place, exports: seq<Field>, target: Json) {
    && HasValue(exports, p.key, target)
    && match p.capture
       case None => p.key == p.request && IsExact(exports, p.request)
       case Some(c) => IsChosen(exports, p.request, p.key, c)
  }

  /** What a request of the package means: what its target means, and not exported if it has none or its target
      means nothing. */
  ghost predicate RequestMeans(directory: seq<string>, exports: seq<Field>, conditions: seq<string>, request: string,
                               r: Result<Specifier, Error>)
  {
    if r == Err(PathNotExported(request)) then
      forall p, target | At(p, directory, request, conditions) && HasTarget(p, exports, target) ::
        Means(p, target, Ok(None))
    else
      exists p, target | At(p, directory, request, conditions) && HasTarget(p, exports, target) ::
        Means(p, target, match r case Ok(url) => Ok(Some(url)) case Err(e) => Err(e))
  }

  predicate At(p: Place, directory: seq<string>, request: string, conditions: seq<string>) {
    p.directory == directory && p.request == request && p.conditions == conditions
  }

  lemma {:induction false} FirstOf(fields: seq<Field>, key: string, k: nat) returns (i: nat)
    requires k < |fields| && fields[k].key == key
    ensures IsFirst(fields, key, i)
    decreases k
  {
    i := k;
    if j: nat :| j < k && fields[j].key == key {
      i := FirstOf(fields, key, j);
    }
  }

  lemma FirstAfter(fields: seq<Field>, key: string, i: nat)
    requires IsFirst(fields, key, i) && i > 0
    ensures IsFirst(fields[1..], key, i - 1) && fields[1..][i - 1] == fields[i] && key in Keys(fields[1..])
  {
    var rest := fields[1..];
    assert forall j | 0 <= j < |rest| :: rest[j] == fields[j + 1];
    assert Keys(rest)[i - 1] == key;
  }

  lemma {:induction false} GetFirst(fields: seq<Field>, key: string, i: nat)
    requires IsFirst(fields, key, i) && key in Keys(fields)
    ensures Get(fields, key) == fields[i].value
    decreases i
  {
    if i > 0 {
      FirstAfter(fields, key, i);
      GetFirst(fields[1..], key, i - 1);
    }
  }

  lemma GetIsValue(fields: seq<Field>, key: string)
    requires key in Keys(fields)
    ensures HasValue(fields, key, Get(fields, key))
    ensures forall value :: HasValue(fields, key, value) ==> value == Get(fields, key)
  {
    var k :| 0 <= k < |fields| && Keys(fields)[k] == key;
    var i := FirstOf(fields, key, k);
    forall j: nat | IsFirst(fields, key, j) ensures fields[j].value == Get(fields, key) { GetFirst(fields, key, j); }
  }

  lemma ExactIff(exports: seq<Field>, request: string)
    ensures IsExact(exports, request) <==> request in Keys(exports) && '*' !in request && !EndsWith(request, "/")
  {
    if request in Keys(exports) { GetIsValue(exports, request); }
    if value :| HasValue(exports, request, value) {
      var i: nat :| IsFirst(exports, request, i);
      assert Keys(exports)[i] == request;
    }
    if request != "" { assert request[|request| - 1..] == [request[|request| - 1]]; }
  }

  ghost predicate OnlyTarget(p: Place, exports: seq<Field>, target: Json) {
    && HasTarget(p, exports, target)
    && forall q, t | At(q, p.directory, p.request, p.conditions) && HasTarget(q, exports, t) :: q == p && t == target
  }

  lemma ExactTarget(p: Place, exports: seq<Field>, target: Json)
    requires p.key == p.request && p.capture == None && IsExact(exports, p.request)
    requires p.request in Keys(exports) && target == Get(exports, p.request)
    ensures OnlyTarget(p, exports, target)
  {
    GetIsValue(exports, p.request);
  }

  lemma ChosenIsBest(exports: seq<Field>, request: string, key: string, k: string, c: string)
    requires Candidate(key, request) && IsBest(Keys(exports), request, Some(key)) && IsChosen(exports, request, k, c)
    ensures k == key && c == CaptureOf(key, request)
  {
    FittingIsCaptured(k, request, c);
    assert Matches(k, request) && Matches(key, request);
  }

  lemma PatternTarget(p: Place, exports: seq<Field>, target: Json)
    requires !IsExact(exports, p.request) && IsBest(Keys(exports), p.request, Some(p.key))
    requires Candidate(p.key, p.request) && p.capture == Some(CaptureOf(p.key, p.request))
    requires p.key in Keys(exports) && target == Get(exports, p.key)
    ensures OnlyTarget(p, exports, target) && p.capture.value != "" && Fits(p.key, p.request, p.capture.value)
  {
    CandidateFits(p.key, p.request);
    GetIsValue(exports, p.key);
    assert IsChosen(exports, p.request, p.key, p.capture.value);
    forall q: Place, t | At(q, p.directory, p.request, p.conditions) && HasTarget(q, exports, t)
      ensures q == p && t == target
    {
      if q.capture.Some? { ChosenIsBest(exports, p.request, p.key, q.key, q.capture.value); }
    }
  }

  lemma NoTarget(exports: seq<Field>, request: string, p: Place, target: Json)
    requires !IsExact(exports, request) && IsBest(Keys(exports), request, None) && p.request == request
    ensures !HasTarget(p, exports, target)
  {
    if p.capture.Some? && p.key in Keys(exports) && p.capture.value != "" {
      assert Fits(p.key, request, p.capture.value) ==> Matches(p.key, request);
    }
  }

  /** The code's choice: no target, or the only one the request has. */
  lemma TargetOfRequest(env: Env, directory: seq<string>, request: string, exports: seq<Field>,
                        conditions: seq<string>, referrer: string) returns (found: Option<(Place, Json)>)
    ensures var r := ExportsResolve(env, directory, request, exports, conditions, referrer);
            match found
            case None => r == Err(PathNotExported(request))
            case Some((p, target)) => r == OrNotExported(ResolveTarget(env, ContextOf(p, referrer), target), request)
    ensures match found
            case None => forall p: Place, target | p.request == request :: !HasTarget(p, exports, target)
            case Some((p, target)) =>
              && At(p, directory, request, conditions) && OnlyTarget(p, exports, target)
              && (p.capture.Some? ==> p.capture.value != "" && Fits(p.key, request, p.capture.value))
  {
    ExactIff(exports, request);
    if IsExact(exports, request) {
      var p := Place(directory, request, request, None, conditions);
      found := Some((p, Get(exports, request)));
      ExactTarget(p, exports, Get(exports, request));
    } else {
      BestOfIsBest(Keys(exports), request);
      match BestOf(Keys(exports), request)
      case None =>
        found := None;
        forall p: Place, target | p.request == request { NoTarget(exports, request, p, target); }
      case Some(key) =>
        CandidateIffMatches(key, request);
        var p := Place(directory, key, request, Some(CaptureOf(key, request)), conditions);
        found := Some((p, Get(exports, key)));
        PatternTarget(p, exports, Get(exports, key));
    }
  }

  lemma OutcomeMeans(p: Place, exports: seq<Field>, target: Json, o: Outcome, r: Result<Specifier, Error>)
    requires OnlyTarget(p, exports, target) && OnlyMeans(p, target, o)
    ensures RequestMeans(p.directory, exports, p.conditions, p.request, r) <==> r == OrNotExported(o, p.request)
  {
    assert Means(p, target, o);
    TargetErrors(p, target, o);
    assert At(p, p.directory, p.request, p.conditions) && HasTarget(p, exports, target);
  }

  /** `package_exports_resolve` answers what the request means, and nothing else. */
  lemma ExportsIsMeaning(env: Env, directory: seq<string>, request: string, exports: seq<Field>,
                         conditions: seq<string>, referrer: string, r: Result<Specifier, Error>)
    requires IsPackageDirectory(directory)
    ensures RequestMeans(directory, exports, conditions, request, r)
       <==> r == ExportsResolve(env, directory, request, exports, conditions, referrer)
  {
    var found := TargetOfRequest(env, directory, request, exports, conditions, referrer);
    if found.Some? {
      var (p, target) := found.value;
      TargetIsMeaning(env, referrer, p, target);
      OutcomeMeans(p, exports, target, ResolveTarget(env, ContextOf(p, referrer), target), r);
    }
  }

  // ----- in particular -----

  /** A literal key with a safe string target: the file with the target's names below the package directory. */
  lemma ExactFile(env: Env, directory: seq<string>, request: string, exports: seq<Field>, conditions: seq<string>,
                  referrer: string, target: string)
    requires IsPackageDirectory(directory) && IsLiteral(request) && HasValue(exports, request, Str(target))
    requires "./" <= target && !IsUnsafe(target[2..])
    ensures ExportsResolve(env, directory, request, exports, conditions, referrer)
         == Ok(FileUrl(FilePath(directory + TargetSegments(target))))
  {
    var p, r := Place(directory, request, request, None, conditions), FilePath(directory + TargetSegments(target));
    assert At(p, directory, request, conditions) && HasTarget(p, exports, Str(target));
    assert Means(p, Str(target), Ok(Some(FileUrl(r))));
    ExportsIsMeaning(env, directory, request, exports, conditions, referrer, Ok(FileUrl(r)));
  }

  /** The most specific pattern key with a safe string target: that file with the captured text for the star. */
  lemma PatternFile(env: Env, directory: seq<string>, request: string, exports: seq<Field>, conditions: seq<string>,
                    referrer: string, key: string, capture: string, target: string)
    requires IsPackageDirectory(directory) && IsChosen(exports, request, key, capture) && !IsUnsafe(capture)
    requires HasValue(exports, key, Str(target)) && "./" <= target && !IsUnsafe(target[2..])
    ensures ExportsResolve(env, directory, request, exports, conditions, referrer)
         == Ok(FileUrl(FilePath(directory + Substituted(TargetSegments(target), capture))))
  {
    var p := Place(directory, key, request, Some(capture), conditions);
    var r := FilePath(directory + Substituted(TargetSegments(target), capture));
    assert At(p, directory, request, conditions) && HasTarget(p, exports, Str(target));
    assert Means(p, Str(target), Ok(Some(FileUrl(r))));
    ExportsIsMeaning(env, directory, request, exports, conditions, referrer, Ok(FileUrl(r)));
  }

  /** A request is not exported exactly when it has no target, or one that means nothing. */
  lemma NotExportedIff(env: Env, directory: seq<string>, request: string, exports: seq<Field>,
                       conditions: seq<string>, referrer: string)
    requires IsPackageDirectory(directory)
    ensures ExportsResolve(env, directory, request, exports, conditions, referrer) == Err(PathNotExported(request))
       <==> forall p, target | At(p, directory, request, conditions) && HasTarget(p, exports, target) ::
              Means(p, target, Ok(None))
  {
    ExportsIsMeaning(env, directory, request, exports, conditions, referrer, Err(PathNotExported(request)));
  }

  // ----- packages without exports -----

  /** What is tried for a package without exports, in order. */
  function Guesses(main: Option<string>): seq<string> {
    match main
    case None => ["index.js"]
    case Some(m) => [m, m + ".js", m + "/index.js", "index.js"]
  }

  predicate IsFirstFile(env: Env, directory: seq<string>, guesses: seq<string>, i: nat) {
    && i < |guesses| && env.isFile(FilePath(JoinClean(directory, guesses[i])))
    && forall j | 0 <= j < i :: !env.isFile(FilePath(JoinClean(directory, guesses[j])))
  }

  lemma {:induction false} FirstFileIff(env: Env, guesses: seq<string>, directory: seq<string>)
    ensures match FirstFile(env, guesses, directory)
            case None => forall j | 0 <= j < |guesses| :: !env.isFile(FilePath(JoinClean(directory, guesses[j])))
            case Some(url) =>
              exists i: nat :: IsFirstFile(env, directory, guesses, i)
                               && url == FileUrl(FilePath(JoinClean(directory, guesses[i])))
  {
    if guesses != [] {
      var rest := guesses[1..];
      FirstFileIff(env, rest, directory);
      if env.isFile(FilePath(JoinClean(directory, guesses[0]))) {
        assert IsFirstFile(env, directory, guesses, 0);
      } else {
        assert forall j | 0 < j < |guesses| :: guesses[j] == rest[j - 1];
        if i: nat :| IsFirstFile(env, directory, rest, i)
                     && FirstFile(env, rest, directory) == Some(FileUrl(FilePath(JoinClean(directory, rest[i])))) {
          assert IsFirstFile(env, directory, guesses, i + 1);
        }
      }
    }
  }

  /** The main entry is the first of the guesses that is a file. */
  lemma LegacyMainIff(env: Env, package: Package)
    ensures var guesses := Guesses(package.main);
            match LegacyMain(env, package)
            case None =>
              forall j | 0 <= j < |guesses| :: !env.isFile(FilePath(JoinClean(package.directory, guesses[j])))
            case Some(url) =>
              exists i: nat :: IsFirstFile(env, package.directory, guesses, i)
                               && url == FileUrl(FilePath(JoinClean(package.directory, guesses[i])))
  {
    FirstFileIff(env, Guesses(package.main), package.directory);
    if package.main.Some? {
      var m := package.main.value;
      assert [".js", "/index.js"][1..] == ["/index.js"] && ["/index.js"][1..] == [];
      assert WithEndings(m, [".js", "/index.js"]) == [m + ".js"] + WithEndings(m, ["/index.js"]);
      assert WithEndings(m, ["/index.js"]) == [m + "/index.js"] + WithEndings(m, []);
      assert [m] + WithEndings(m, [".js", "/index.js"]) + ["index.js"] == Guesses(package.main);
    } else {
      assert [] + ["index.js"] == Guesses(package.main);
    }
  }

  // ----- bare specifiers -----

  /** What a request below a package directory means: by its exports if it has any, and otherwise the main entry
      or the file of that name. */
  ghost predicate SubpathMeans(env: Env, package: Package, subpath: string, conditions: seq<string>, r: Outcome) {
    match package.exports
    case Some(exports) =>
      r != Ok(None) && RequestMeans(package.directory, exports, conditions, subpath,
                                    match r case Ok(url) => Ok(url.value) case Err(e) => Err(e))
    case None =>
      if subpath == "." then r == Ok(LegacyMain(env, package))
      else r == Ok(Some(FileUrl(PathText(package.directory) + "/" + subpath)))
  }

  /** A package that names itself and has exports answers by them, and any other name is looked up. */
  ghost predicate SpecifierMeans(env: Env, name: string, subpath: string, referrer: string, conditions: seq<string>,
                                 closest: Package, r: Outcome)
  {
    if closest.present && closest.name == Some(name) && closest.exports.Some? then
      SubpathMeans(env, closest, subpath, conditions, r)
    else
      match env.folder(name, referrer)
      case Err(e) => r == Err(e)
      case Ok(directory) =>
        match env.load(directory)
        case Err(e) => r == Err(e)
        case Ok(package) => SubpathMeans(env, package, subpath, conditions, r)
  }

  ghost predicate BareMeans(env: Env, parsed: Result<(string, string), Error>, referrer: string,
                            conditions: seq<string>, r: Outcome)
  {
    match parsed
    case Err(e) => r == Err(e)
    case Ok((name, subpath)) =>
      match env.closest(referrer)
      case Err(e) => r == Err(e)
      case Ok(None) => r == Ok(None)
      case Ok(Some(closest)) => SpecifierMeans(env, name, subpath, referrer, conditions, closest, r)
  }

  /** Package directories are clean. */
  ghost predicate HasCleanPackages(env: Env) {
    && (forall f :: env.closest(f).Ok? && env.closest(f).value.Some? ==>
          IsPackageDirectory(env.closest(f).value.value.directory))
    && (forall d :: env.load(d).Ok? ==> IsPackageDirectory(env.load(d).value.directory))
  }

  lemma SubpathIsMeaning(env: Env, package: Package, subpath: string, conditions: seq<string>, referrer: string,
                         r: Outcome)
    requires IsPackageDirectory(package.directory)
    ensures SubpathMeans(env, package, subpath, conditions, r)
       <==> r == ResolveSubpath(env, package, subpath, conditions, referrer)
  {
    if package.exports.Some? && r != Ok(None) {
      ExportsIsMeaning(env, package.directory, subpath, package.exports.value, conditions, referrer,
                       match r case Ok(url) => Ok(url.value) case Err(e) => Err(e));
    }
  }

  /** A bare specifier is its package's name and a subpath, and answers what that subpath means there. */
  lemma PackageIsMeaning(env: Env, specifier: string, referrer: string, conditions: seq<string>, r: Outcome,
                         parsed: Result<(string, string), Error>)
    requires HasCleanPackages(env) && Parsed(specifier, parsed)
    ensures r == PackageResolve(env, specifier, referrer, conditions) <==>
              BareMeans(env, parsed, referrer, conditions, r)
  {
    ParsedIsUnique(specifier, parsed, ParseName(specifier));
    if parsed.Ok? && env.closest(referrer).Ok? && env.closest(referrer).value.Some? {
      var (name, subpath) := parsed.value;
      var closest := env.closest(referrer).value.value;
      SubpathIsMeaning(env, closest, subpath, conditions, referrer, r);
      if env.folder(name, referrer).Ok? && env.load(env.folder(name, referrer).value).Ok? {
        SubpathIsMeaning(env, env.load(env.folder(name, referrer).value).value, subpath, conditions, referrer, r);
      }
    }
  }

  // ----- names as targets of "imports" -----

  /** The name with what was captured in place of its first star. */
  ghost predicate IsFilled(target: string, capture: string, filled: string) {
    if '*' in target then
      exists a, b :: target == a + "*" + b && '*' !in a && filled == a + capture + b
    else filled == target
  }

  /** Under "imports" a name is a URL with the node scheme, or what it means as a bare specifier from the package
      itself, and failing that a builtin module. */
  ghost predicate NameMeans(env: Env, directory: seq<string>, conditions: seq<string>, target: string,
                            filled: string, r: Result<Specifier, Error>)
  {
    match env.urlKind(target)
    case NodeUrl => r == Ok(BuiltinUrl(target))
    case OtherUrl => r.Err? && r.error.InvalidPackageTarget? && r.error.target == Str(target)
    case NotAUrl =>
      exists parsed, o ::
        && Parsed(filled, parsed)
        && BareMeans(env, parsed, FilePath(directory + ["package.json"]), conditions, o)
        && if o.Ok? && o.value.Some? then r == Ok(o.value.value)
           else if env.isBuiltin(target) then r == Ok(BuiltinUrl("node:" + target))
           else r == Err(if o.Err? then o.error else GenericNotFound)
  }

  lemma FilledIsReplaced(target: string, capture: string)
    ensures IsFilled(target, capture, ReplaceFirst(target, '*', capture))
  {
    if '*' in target {
      var i := IndexOf(target, '*');
      assert target == target[..i] + "*" + target[i + 1..] && '*' !in target[..i];
    }
  }

  /** The code's answer for a name under a pattern of "imports". */
  lemma NameIsMeaning(env: Env, ctx: Context, target: string)
    requires HasCleanPackages(env) && ctx.internal && ctx.pattern
    requires !("./" <= target) && !("../" <= target) && !("/" <= target)
    ensures exists filled :: IsFilled(target, ctx.subpath, filled)
                             && NameMeans(env, ctx.directory, ctx.conditions, target, filled,
                                          TargetString(env, ctx, target))
  {
    var filled := ReplaceFirst(target, '*', ctx.subpath);
    FilledIsReplaced(target, ctx.subpath);
    var referrer := FilePath(ctx.directory + ["package.json"]);
    var o, parsed := PackageResolve(env, filled, referrer, ctx.conditions), ParseName(filled);
    PackageIsMeaning(env, filled, referrer, ctx.conditions, o, parsed);
    assert Parsed(filled, parsed) && BareMeans(env, parsed, referrer, ctx.conditions, o);
    if env.urlKind(target).NotAUrl? {
      assert TargetString(env, ctx, target) == InternalTarget(env, ctx, target);
    }
    assert NameMeans(env, ctx.directory, ctx.conditions, target, filled, TargetString(env, ctx, target));
  }
}
