/** The choice of an exports pattern in `crates/node/resolution.rs`: `pattern_key_compare` and the loop of
    `package_exports_resolve`. */
module Patterns {
  import opened Common
  import opened Lexical

  function BaseLength(key: string): nat {
    if IndexOf(key, '*') < 0 then |key| else IndexOf(key, '*') + 1
  }

  /** `pattern_key_compare`: 1 when `b` is the better key, -1 when `a` is. */
  function PatternKeyCompare(a: string, b: string): int {
    if BaseLength(a) > BaseLength(b) then -1
    else if BaseLength(b) > BaseLength(a) then 1
    else if IndexOf(a, '*') < 0 then 1
    else if IndexOf(b, '*') < 0 then -1
    else if |a| > |b| then -1
    else if |b| > |a| then 1
    else 0
  }

  /** The request is the key with a non-empty text in place of its only star. */
  ghost predicate Matches(key: string, request: string) {
    exists capture :: capture != "" && Fits(key, request, capture)
  }

  ghost predicate Fits(key: string, request: string, capture: string) {
    && IndexOf(key, '*') >= 0 && IndexOf(key, '*') == LastIndexOf(key, '*')
    && request == key[..IndexOf(key, '*')] + capture + key[IndexOf(key, '*') + 1..]
  }

  /** `a` is more specific: longer before the star, or as long and longer in all. */
  predicate MoreSpecific(a: string, b: string) {
    IndexOf(a, '*') > IndexOf(b, '*') || (IndexOf(a, '*') == IndexOf(b, '*') && |a| > |b|)
  }

  /** What the loop tests of a key, apart from the comparison. */
  predicate Candidate(key: string, request: string) {
    var i := IndexOf(key, '*');
    && i >= 0
    && key[..i] <= request
    && |request| >= |key|
    && EndsWith(request, key[i + 1..])
    && LastIndexOf(key, '*') == i
  }

  function CaptureOf(key: string, request: string): string
    requires Candidate(key, request)
  {
    request[IndexOf(key, '*')..|request| - (|key| - IndexOf(key, '*') - 1)]
  }

  lemma CandidateFits(key: string, request: string)
    requires Candidate(key, request)
    ensures CaptureOf(key, request) != "" && Fits(key, request, CaptureOf(key, request))
  {
    var i := IndexOf(key, '*');
    assert request == request[..i] + CaptureOf(key, request) + request[|request| - (|key| - i - 1)..];
  }

  lemma FittingIsCaptured(key: string, request: string, capture: string)
    requires Fits(key, request, capture) && capture != ""
    ensures Candidate(key, request) && capture == CaptureOf(key, request)
  {
    var i := IndexOf(key, '*');
    assert request[..i] == key[..i] && request[i..i + |capture|] == capture && request[i + |capture|..] == key[i + 1..];
  }

  /** The loop's tests hold exactly for the matching keys, and the text it cuts out is the one that fits. */
  lemma CandidateIffMatches(key: string, request: string)
    ensures Candidate(key, request) <==> Matches(key, request)
    ensures Candidate(key, request) ==> CaptureOf(key, request) != "" && Fits(key, request, CaptureOf(key, request))
  {
    if Candidate(key, request) {
      CandidateFits(key, request);
    }
    if Matches(key, request) {
      var c :| c != "" && Fits(key, request, c);
      FittingIsCaptured(key, request, c);
    }
  }

  /** Two matching keys cannot tie. */
  lemma NoTies(a: string, b: string, request: string)
    requires Candidate(a, request) && Candidate(b, request)
    ensures a == b || MoreSpecific(a, b) || MoreSpecific(b, a)
  {
    var i := IndexOf(a, '*');
    if i == IndexOf(b, '*') && |a| == |b| {
      SameParts(a, b, i, request);
    }
  }

  lemma SameParts(a: string, b: string, i: nat, request: string)
    requires i < |a| == |b| <= |request| && a[i] == b[i]
    requires a[..i] <= request && b[..i] <= request && EndsWith(request, a[i + 1..]) && EndsWith(request, b[i + 1..])
    ensures a == b
  {
    assert a[..i] == b[..i] && a[i + 1..] == b[i + 1..];
    assert a == a[..i] + [a[i]] + a[i + 1..] && b == b[..i] + [b[i]] + b[i + 1..];
  }

  /** On matching keys the comparison is the specificity order. */
  lemma CompareIsSpecificity(a: string, b: string, request: string)
    requires Candidate(a, request) && Candidate(b, request)
    ensures (PatternKeyCompare(a, b) == 1 <==> MoreSpecific(b, a)) && (PatternKeyCompare(a, b) == 0 <==> a == b)
  {
    NoTies(a, b, request);
  }

  /** The best of the keys for the request: it matches, and every other matching key is less specific. */
  ghost predicate IsBest(keys: seq<string>, request: string, best: Option<string>) {
    match best
    case None => forall k <- keys :: !Matches(k, request)
    case Some(b) =>
      b in keys && Matches(b, request) && forall k <- keys :: Matches(k, request) ==> k == b || MoreSpecific(b, k)
  }

  /** The key kept after looking at one more. */
  function Better(best: Option<string>, key: string, request: string): Option<string> {
    if Candidate(key, request) && PatternKeyCompare(if best.Some? then best.value else "", key) == 1
    then Some(key)
    else best
  }

  function BestOf(keys: seq<string>, request: string): Option<string> {
    if keys == [] then None else Better(BestOf(keys[..|keys| - 1], request), keys[|keys| - 1], request)
  }

  predicate IsBestCandidate(keys: seq<string>, request: string, best: Option<string>) {
    match best
    case None => forall k <- keys :: !Candidate(k, request)
    case Some(b) =>
      b in keys && Candidate(b, request) && forall k <- keys :: Candidate(k, request) ==> k == b || MoreSpecific(b, k)
  }

  lemma BestStep(keys: seq<string>, key: string, request: string, best: Option<string>)
    requires IsBestCandidate(keys, request, best)
    ensures IsBestCandidate(keys + [key], request, Better(best, key, request))
  {
    assert key in keys + [key];
    if best.Some? && Candidate(key, request) {
      CompareIsSpecificity(best.value, key, request);
      NoTies(best.value, key, request);
    }
  }

  lemma {:induction false} BestOfIsBestCandidate(keys: seq<string>, request: string)
    ensures IsBestCandidate(keys, request, BestOf(keys, request))
  {
    if keys != [] {
      var n := |keys| - 1;
      BestOfIsBestCandidate(keys[..n], request);
      BestStep(keys[..n], keys[n], request, BestOf(keys[..n], request));
      assert keys == keys[..n] + [keys[n]];
    }
  }

  /** What the loop keeps is the best key. */
  lemma BestOfIsBest(keys: seq<string>, request: string)
    ensures IsBest(keys, request, BestOf(keys, request))
  {
    BestOfIsBestCandidate(keys, request);
    forall k <- keys { CandidateIffMatches(k, request); }
  }

  /** The chosen key depends on the set of keys only, not on the order they are iterated in. */
  lemma OrderDoesNotMatter(keys: seq<string>, others: seq<string>, request: string)
    requires forall k :: k in keys <==> k in others
    ensures BestOf(keys, request) == BestOf(others, request)
  {
    BestOfIsBest(keys, request);
    BestOfIsBest(others, request);
  }

  /** The loop over the keys: `bestMatch` is empty until a key matches. */
  method SelectPattern(keys: seq<string>, request: string) returns (bestMatch: string, capture: Option<string>)
    ensures BestOf(keys, request) == if bestMatch == "" then None else Some(bestMatch)
    ensures bestMatch == "" <==> capture == None
    ensures bestMatch != "" ==> Candidate(bestMatch, request) && capture == Some(CaptureOf(bestMatch, request))
  {
    bestMatch, capture := "", None;
    for n := 0 to |keys|
      invariant BestOf(keys[..n], request) == if bestMatch == "" then None else Some(bestMatch)
      invariant bestMatch == "" <==> capture == None
      invariant bestMatch != "" ==> Candidate(bestMatch, request) && capture == Some(CaptureOf(bestMatch, request))
    {
      var key := keys[n];
      assert keys[..n + 1][..n] == keys[..n];
      var patternIndex := IndexOf(key, '*');
      if patternIndex >= 0 {
        if key[..patternIndex] <= request {
          var patternTrailer := key[patternIndex + 1..];
          if |request| >= |key| && EndsWith(request, patternTrailer)
             && PatternKeyCompare(bestMatch, key) == 1 && LastIndexOf(key, '*') == patternIndex {
            bestMatch := key;
            capture := Some(request[patternIndex..|request| - |patternTrailer|]);
          }
        }
      }
    }
    assert keys[..|keys|] == keys;
  }
}
