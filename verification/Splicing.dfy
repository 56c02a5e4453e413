/** Array targets of `crates/node/resolution.rs`: nesting does not matter, except for empty arrays. */
module Splicing {
  import opened Common
  import opened Exports
  import opened PackageResolver

  lemma {:induction false} SpliceFirst(ys: seq<Outcome>, zs: seq<Outcome>)
    requires ys != []
    ensures ArrayOutcome([ArrayOutcome(ys)] + zs) == ArrayOutcome(ys + zs)
  {
    if |ys| == 1 {
      assert [ArrayOutcome(ys)] + zs == ys + zs;
    } else if !Decisive(ys[0]) {
      SpliceFirst(ys[1..], zs);
      assert (ys + zs)[1..] == ys[1..] + zs;
    }
  }

  lemma {:induction false} SpliceOutcomes(xs: seq<Outcome>, ys: seq<Outcome>, zs: seq<Outcome>)
    requires ys != []
    ensures ArrayOutcome(xs + [ArrayOutcome(ys)] + zs) == ArrayOutcome(xs + ys + zs)
  {
    if xs == [] {
      SpliceFirst(ys, zs);
      assert xs + [ArrayOutcome(ys)] + zs == [ArrayOutcome(ys)] + zs && xs + ys + zs == ys + zs;
    } else if !Decisive(xs[0]) {
      SpliceOutcomes(xs[1..], ys, zs);
      assert (xs + [ArrayOutcome(ys)] + zs)[1..] == xs[1..] + [ArrayOutcome(ys)] + zs;
      assert (xs + ys + zs)[1..] == xs[1..] + ys + zs;
    }
  }

  lemma OutcomesConcat(env: Env, ctx: Context, xs: seq<Json>, ys: seq<Json>)
    ensures ItemOutcomes(env, ctx, xs + ys) == ItemOutcomes(env, ctx, xs) + ItemOutcomes(env, ctx, ys)
  {
  }

  /** Splicing a non-empty nested array into its parent never changes what a target resolves to, nor the
      error reported. */
  lemma SpliceTarget(env: Env, ctx: Context, xs: seq<Json>, ys: seq<Json>, zs: seq<Json>)
    requires ys != []
    ensures ResolveTarget(env, ctx, Arr(xs + [Arr(ys)] + zs)) == ResolveTarget(env, ctx, Arr(xs + ys + zs))
  {
    TargetOfArray(env, ctx, xs + [Arr(ys)] + zs);
    TargetOfArray(env, ctx, xs + ys + zs);
    TargetOfArray(env, ctx, ys);
    var x, y, z := ItemOutcomes(env, ctx, xs), ItemOutcomes(env, ctx, ys), ItemOutcomes(env, ctx, zs);
    OutcomesConcat(env, ctx, xs + [Arr(ys)], zs);
    OutcomesConcat(env, ctx, xs, [Arr(ys)]);
    OutcomesConcat(env, ctx, xs + ys, zs);
    OutcomesConcat(env, ctx, xs, ys);
    assert ItemOutcomes(env, ctx, [Arr(ys)]) == [ArrayOutcome(y)];
    SpliceOutcomes(x, y, z);
  }

  lemma {:induction false} DropNothing(xs: seq<Outcome>, zs: seq<Outcome>)
    ensures ArrayOutcome(xs + [Ok(None)] + zs) == ArrayOutcome(xs + zs)
       <==> zs != [] || xs == [] || (exists r <- xs :: Decisive(r)) || xs[|xs| - 1] == Ok(None)
  {
    if xs == [] {
      assert xs + [Ok(None)] + zs == [Ok(None)] + zs && xs + zs == zs && ([Ok(None)] + zs)[1..] == zs;
    } else {
      assert xs == [xs[0]] + xs[1..] && xs[0] in xs;
      assert (xs + [Ok(None)] + zs)[1..] == xs[1..] + [Ok(None)] + zs;
      assert (xs + zs)[1..] == xs[1..] + zs;
      if !Decisive(xs[0]) {
        DropNothing(xs[1..], zs);
        if |xs| == 1 && zs == [] {
          assert xs[1..] + [Ok(None)] + zs == [Ok(None)];
        }
      }
    }
  }

  /** Removing an empty nested array changes nothing exactly when something follows it, nothing precedes it,
      an item before it decides, or the item before it resolves to nothing: it hides an error otherwise. */
  lemma EmptyArrayIff(env: Env, ctx: Context, xs: seq<Json>, zs: seq<Json>)
    ensures ResolveTarget(env, ctx, Arr(xs + [Arr([])] + zs)) == ResolveTarget(env, ctx, Arr(xs + zs))
       <==> zs != [] || xs == [] || (exists i | 0 <= i < |xs| :: Decisive(ResolveTarget(env, ctx, xs[i])))
              || ResolveTarget(env, ctx, xs[|xs| - 1]) == Ok(None)
  {
    TargetOfArray(env, ctx, xs + [Arr([])] + zs);
    TargetOfArray(env, ctx, xs + zs);
    TargetOfArray(env, ctx, []);
    var x, z := ItemOutcomes(env, ctx, xs), ItemOutcomes(env, ctx, zs);
    OutcomesConcat(env, ctx, xs + [Arr([])], zs);
    OutcomesConcat(env, ctx, xs, [Arr([])]);
    OutcomesConcat(env, ctx, xs, zs);
    assert ItemOutcomes(env, ctx, [Arr([])]) == [Ok(None)];
    DropNothing(x, z);
    assert (exists r <- x :: Decisive(r))
           <==> (exists i | 0 <= i < |xs| :: Decisive(ResolveTarget(env, ctx, xs[i]))) by {
      if i :| 0 <= i < |xs| && Decisive(ResolveTarget(env, ctx, xs[i])) {
        assert x[i] in x;
      }
    }
  }
}
