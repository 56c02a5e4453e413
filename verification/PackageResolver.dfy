/** The operations of `crates/node/resolution.rs` that loop, proved against the functions of `Exports`. */
module PackageResolver {
  import opened Common
  import opened Lexical
  import opened Patterns
  import opened Exports

  lemma {:induction false} ArrayOutcomePrefix(results: seq<Outcome>, n: nat)
    requires n < |results| && forall i | 0 <= i < n :: !Decisive(results[i])
    ensures ArrayOutcome(results) == ArrayOutcome(results[n..])
  {
    if n == 0 {
      assert results[0..] == results;
    } else {
      ArrayOutcomePrefix(results[1..], n - 1);
      assert results[1..][n - 1..] == results[n..];
    }
  }

  lemma {:induction false} ObjectOutcomePrefix(results: seq<Outcome>, n: nat, otherwise: Error)
    requires n <= |results| && forall i | 0 <= i < n :: results[i] == Ok(None)
    ensures ObjectOutcome(results, otherwise) == ObjectOutcome(results[n..], otherwise)
  {
    if n == 0 {
      assert results[0..] == results;
    } else {
      ObjectOutcomePrefix(results[1..], n - 1, otherwise);
      assert results[1..][n - 1..] == results[n..];
    }
  }

  function ItemOutcomes(env: Env, ctx: Context, items: seq<Json>): (r: seq<Outcome>)
    ensures |r| == |items| && forall i | 0 <= i < |r| :: r[i] == ResolveTarget(env, ctx, items[i])
  {
    seq(|items|, i requires 0 <= i < |items| => ResolveTarget(env, ctx, items[i]))
  }

  function FieldOutcomes(env: Env, ctx: Context, fields: seq<Field>): (r: seq<Outcome>)
    ensures |r| == |fields|
    ensures forall i | 0 <= i < |r| ::
      r[i] == if Applies(fields[i].key, ctx.conditions) then ResolveTarget(env, ctx, fields[i].value) else Ok(None)
  {
    seq(|fields|, i requires 0 <= i < |fields| =>
      if Applies(fields[i].key, ctx.conditions) then ResolveTarget(env, ctx, fields[i].value) else Ok(None))
  }

  lemma TargetOfArray(env: Env, ctx: Context, items: seq<Json>)
    ensures ResolveTarget(env, ctx, Arr(items)) == ArrayOutcome(ItemOutcomes(env, ctx, items))
  {
    var target := Arr(items);
    assert seq(|items|, i requires 0 <= i < |items| => ResolveTarget(env, ctx, target.items[i]))
           == ItemOutcomes(env, ctx, items);
  }

  lemma TargetOfObject(env: Env, ctx: Context, fields: seq<Field>)
    ensures ResolveTarget(env, ctx, Obj(fields))
         == ObjectOutcome(FieldOutcomes(env, ctx, fields), InvalidPackageTarget(ctx.key, Obj(fields)))
  {
    var target := Obj(fields);
    assert seq(|fields|, i requires 0 <= i < |fields| =>
             if Applies(target.fields[i].key, ctx.conditions) then ResolveTarget(env, ctx, target.fields[i].value)
             else Ok(None))
        == FieldOutcomes(env, ctx, fields);
  }

  /** `resolve_package_target`, with the loop of its array arm over `last_error` and of its object arm. */
  method ResolvePackageTarget(env: Env, ctx: Context, target: Json) returns (r: Outcome)
    ensures r == ResolveTarget(env, ctx, target)
    decreases target
  {
    match target
    case Str(s) =>
      var url := TargetString(env, ctx, s);
      r := Found(url);
    case Arr(items) =>
      TargetOfArray(env, ctx, items);
      ghost var results := ItemOutcomes(env, ctx, items);
      if items == [] {
        return Ok(None);
      }
      var lastError: Option<Error> := None;
      for i := 0 to |items|
        invariant forall j | 0 <= j < i :: !Decisive(results[j])
        invariant i > 0 ==> results[i - 1] == if lastError.Some? then Err(lastError.value) else Ok(None)
      {
        var resolved := ResolvePackageTarget(env, ctx, items[i]);
        ArrayOutcomePrefix(results, i);
        if resolved.Ok? && resolved.value.Some? {
          return resolved;
        } else if resolved.Ok? {
          lastError := None;
        } else {
          lastError := Some(resolved.error);
          if !IsInvalidTarget(resolved.error) {
            return Err(lastError.value);
          }
        }
      }
      ArrayOutcomePrefix(results, |items| - 1);
      r := if lastError.None? then Ok(None) else Err(lastError.value);
    case Obj(fields) =>
      TargetOfObject(env, ctx, fields);
      ghost var results := FieldOutcomes(env, ctx, fields);
      ghost var invalid := InvalidPackageTarget(ctx.key, target);
      for i := 0 to |fields|
        invariant forall j | 0 <= j < i :: results[j] == Ok(None)
      {
        if Applies(fields[i].key, ctx.conditions) {
          var resolved := ResolvePackageTarget(env, ctx, fields[i].value);
          ObjectOutcomePrefix(results, i, invalid);
          if resolved != Ok(None) {
            return resolved;
          }
        }
      }
      ObjectOutcomePrefix(results, |fields|, invalid);
      r := Err(InvalidPackageTarget(ctx.key, target));
    case Null =>
      r := Ok(None);
    case Bool(_) =>
      r := Err(InvalidPackageTarget(ctx.key, target));
    case Number(_) =>
      r := Err(InvalidPackageTarget(ctx.key, target));
  }

  /** `package_exports_resolve` */
  method PackageExportsResolve(env: Env, directory: seq<string>, subpath: string, exports: seq<Field>,
                               conditions: seq<string>, referrer: string)
    returns (r: Result<Specifier, Error>)
    ensures r == ExportsResolve(env, directory, subpath, exports, conditions, referrer)
  {
    var keys := Keys(exports);
    if subpath in keys && '*' !in subpath && !EndsWith(subpath, "/") {
      var ctx := Context(directory, "", subpath, false, false, conditions, referrer);
      var resolved := ResolvePackageTarget(env, ctx, Get(exports, subpath));
      return OrNotExported(resolved, subpath);
    }
    var bestMatch, capture := SelectPattern(keys, subpath);
    BestOfIsBest(keys, subpath);
    if bestMatch != "" {
      var ctx := Context(directory, capture.value, bestMatch, true, false, conditions, referrer);
      var resolved := ResolvePackageTarget(env, ctx, Get(exports, bestMatch));
      return OrNotExported(resolved, subpath);
    }
    r := Err(PathNotExported(subpath));
  }

  /** The loop over the characters of a package name. */
  method CheckName(packageName: string) returns (valid: bool)
    ensures valid <==> IsAllowed(packageName)
  {
    for i := 0 to |packageName|
      invariant IsAllowed(packageName[..i])
    {
      if IsBadNameChar(packageName[i]) {
        assert packageName[i] in packageName;
        return false;
      }
    }
    assert packageName[..|packageName|] == packageName;
    valid := true;
  }

  /** `parse_npm_pkg_name`, with its running separator and validity flag. */
  method ParseNpmPkgName(specifier: string) returns (r: Result<(string, string), Error>)
    ensures r == ParseName(specifier)
    ensures Parsed(specifier, r)
  {
    ghost var expected := ParseName(specifier);
    var separatorIndex := SlashFrom(specifier, 0);
    var validPackageName := true;
    if specifier == "" {
      validPackageName := false;
    } else if specifier[0] == '@' {
      if separatorIndex >= 0 {
        separatorIndex := SlashFrom(specifier, separatorIndex + 1);
      } else {
        validPackageName := false;
      }
    }
    assert separatorIndex == SeparatorOf(specifier);
    assert validPackageName <==> !(specifier == "" || ("@" <= specifier && '/' !in specifier));
    var packageName := if separatorIndex >= 0 then specifier[..separatorIndex] else specifier;
    var clean := CheckName(packageName);
    if !clean {
      validPackageName := false;
    }
    if !validPackageName {
      return Err(InvalidSpecifier(specifier));
    }
    var packageSubpath := if separatorIndex >= 0 then "." + specifier[separatorIndex..] else ".";
    assert "." + specifier[|specifier|..] == ".";
    r := Ok((packageName, packageSubpath));
  }

  lemma {:induction false} FirstFileConcat(env: Env, a: seq<string>, b: seq<string>, directory: seq<string>)
    ensures FirstFile(env, a + b, directory)
         == if FirstFile(env, a, directory).Some? then FirstFile(env, a, directory) else FirstFile(env, b, directory)
  {
    if a == [] {
      assert a + b == b;
    } else {
      assert (a + b)[0] == a[0] && (a + b)[1..] == a[1..] + b;
      FirstFileConcat(env, a[1..], b, directory);
    }
  }

  /** The loop over the endings of the main entry. */
  method TryEndings(env: Env, directory: seq<string>, main: string, endings: seq<string>) returns (r: Option<Specifier>)
    ensures r == FirstFile(env, WithEndings(main, endings), directory)
  {
    for i := 0 to |endings|
      invariant FirstFile(env, WithEndings(main, endings), directory)
                == FirstFile(env, WithEndings(main, endings[i..]), directory)
    {
      assert endings[i..][1..] == endings[i + 1..];
      var guess := FilePath(JoinClean(directory, main + endings[i]));
      if env.isFile(guess) {
        return Some(FileUrl(guess));
      }
    }
    r := None;
  }

  /** `legacy_main_resolve` in Execution mode: the guesses in order. */
  method LegacyMainResolve(env: Env, package: Package) returns (r: Option<Specifier>)
    ensures r == LegacyMain(env, package)
  {
    var directory := package.directory;
    if package.main.Some? {
      var main := package.main.value;
      ghost var ended := WithEndings(main, [".js", "/index.js"]);
      FirstFileConcat(env, [main] + ended, ["index.js"], directory);
      FirstFileConcat(env, [main], ended, directory);
      assert [main][1..] == [];
      var guess := FilePath(JoinClean(directory, main));
      if env.isFile(guess) {
        return Some(FileUrl(guess));
      }
      r := TryEndings(env, directory, main, [".js", "/index.js"]);
      if r.Some? {
        return;
      }
    }
    assert LegacyMain(env, package) == FirstFile(env, ["index.js"], directory) by {
      if package.main.None? { FirstFileConcat(env, [], ["index.js"], directory); }
    }
    var index := FilePath(JoinClean(directory, "index.js"));
    assert FirstFile(env, [], directory) == None && ["index.js"][1..] == [];
    r := if env.isFile(index) then Some(FileUrl(index)) else None;
  }
}
