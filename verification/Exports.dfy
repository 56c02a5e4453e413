/** Package targets and exports of `crates/node/resolution.rs` in Execution mode. What the file system,
    the npm resolver and the URL parser answer is given by an `Env`. */
module Exports {
  import opened Common
  import opened Lexical
  import opened Patterns

  /** A JSON value; object fields keep an order. */
  datatype Json =
    Null | Bool(b: bool) | Number(n: int) | Str(s: string) | Arr(items: seq<Json>) | Obj(fields: seq<Field>)
  datatype Field = Field(key: string, value: Json)

  datatype Specifier = FileUrl(path: string) | BuiltinUrl(text: string)

  /** Errors by their code; `Foreign` is whatever text the environment reports. */
  datatype Error =
    | InvalidPackageTarget(key: string, target: Json)
    | InvalidSubpath(request: string)
    | PathNotExported(subpath: string)
    | InvalidSpecifier(specifier: string)
    | GenericNotFound
    | Foreign(text: string)

  type Outcome = Result<Option<Specifier>, Error>

  /** A package.json: its directory (a clean absolute path), name, exports and main entry. */
  datatype Package = Package(directory: seq<string>, present: bool, name: Option<string>, exports: Option<seq<Field>>,
                             main: Option<string>)

  datatype UrlKind = NotAUrl | NodeUrl | OtherUrl

  datatype Env = Env(
    closest: string -> Result<Option<Package>, Error>,
    folder: (string, string) -> Result<seq<string>, Error>,
    load: seq<string> -> Result<Package, Error>,
    isFile: string -> bool,
    urlKind: string -> UrlKind,
    isBuiltin: string -> bool)

  /** The arguments that stay the same through the recursion over a target. */
  datatype Context = Context(directory: seq<string>, subpath: string, key: string, pattern: bool, internal: bool,
                             conditions: seq<string>, referrer: string)

  const INVALID_TARGET_PREFIX := "[ERR_INVALID_PACKAGE_TARGET]"

  /** The error text starts with the code of an invalid package target. */
  predicate IsInvalidTarget(e: Error) {
    e.InvalidPackageTarget? || (e.Foreign? && INVALID_TARGET_PREFIX <= e.text)
  }

  // ----- names -----

  /** The first slash at or after `from`, or -1. */
  function SlashFrom(s: string, from: nat): (i: int)
    requires from <= |s|
    ensures i == -1 || from <= i < |s|
    ensures i >= 0 ==> s[i] == '/'
    ensures forall j | from <= j < (if i < 0 then |s| else i) :: s[j] != '/'
    decreases |s| - from
  {
    if from == |s| then -1 else if s[from] == '/' then from else SlashFrom(s, from + 1)
  }

  predicate IsBadNameChar(c: char) {
    c == '%' || c == '\\'
  }

  /** `name` is the package part of the specifier: it ends at a slash or at the end, and has one slash if the
      specifier is scoped and none otherwise. */
  predicate IsNameOf(specifier: string, name: string) {
    && name <= specifier && (name == specifier || specifier[|name|] == '/')
    && |Split(name)| == if "@" <= specifier then 2 else 1
  }

  predicate IsAllowed(name: string) {
    forall c <- name :: !IsBadNameChar(c)
  }

  /** The outcome of parsing: the package part, if it has only allowed characters, and a dot and what follows it. */
  ghost predicate Parsed(specifier: string, r: Result<(string, string), Error>) {
    match r
    case Ok((name, subpath)) =>
      specifier != "" && IsNameOf(specifier, name) && IsAllowed(name) && subpath == "." + specifier[|name|..]
    case Err(e) =>
      e == InvalidSpecifier(specifier)
        && (specifier == "" || forall name :: IsNameOf(specifier, name) ==> !IsAllowed(name))
  }

  /** A specifier has at most one package part. */
  lemma NameIsUnique(specifier: string, a: string, b: string)
    requires IsNameOf(specifier, a) && IsNameOf(specifier, b)
    ensures a == b
  {
    if |a| < |b| {
      LongerName(specifier, a, b);
    } else if |b| < |a| {
      LongerName(specifier, b, a);
    }
  }

  lemma LongerName(specifier: string, a: string, b: string)
    requires a <= specifier && b <= specifier && |a| < |b| && specifier[|a|] == '/'
    ensures |Split(a)| < |Split(b)|
  {
    var rest := b[|a| + 1..];
    assert b == a + "/" + rest;
    SplitAtSlash(a, rest);
  }

  /** What parsing promises determines its outcome. */
  lemma ParsedIsUnique(specifier: string, r: Result<(string, string), Error>, r': Result<(string, string), Error>)
    requires Parsed(specifier, r) && Parsed(specifier, r')
    ensures r == r'
  {
    if r.Ok? && r'.Ok? { NameIsUnique(specifier, r.value.0, r'.value.0); }
  }

  /** Where the package part ends, if the specifier has one. */
  function SeparatorOf(specifier: string): int {
    var slash := SlashFrom(specifier, 0);
    if "@" <= specifier && slash >= 0 then SlashFrom(specifier, slash + 1) else slash
  }

  /** The package part is what stands before the separator, or all of the specifier. */
  lemma NameBeforeSeparator(specifier: string)
    ensures var i := SeparatorOf(specifier);
            && i < |specifier|
            && (IsNameOf(specifier, if i < 0 then specifier else specifier[..i])
                <==> !("@" <= specifier && '/' !in specifier))
            && ("@" <= specifier && '/' !in specifier ==> forall name :: !IsNameOf(specifier, name))
  {
    var slash := SlashFrom(specifier, 0);
    if slash < 0 {
      SplitPlain(specifier);
      forall name | name <= specifier ensures |Split(name)| == 1 {
        assert forall c <- name :: c in specifier;
        SplitPlain(name);
      }
    } else {
      assert specifier[slash] in specifier;
      SplitPlain(specifier[..slash]);
      if "@" <= specifier {
        var i := SlashFrom(specifier, slash + 1);
        var end := if i < 0 then |specifier| else i;
        var rest := specifier[slash + 1..end];
        assert specifier[..end] == specifier[..slash] + "/" + rest;
        SplitPlain(rest);
        SplitAtSlash(specifier[..slash], rest);
        assert i < 0 ==> specifier[..end] == specifier;
      }
    }
  }

  /** `parse_npm_pkg_name` */
  function ParseName(specifier: string): (r: Result<(string, string), Error>)
    ensures Parsed(specifier, r)
  {
    NameBeforeSeparator(specifier);
    var separator := SeparatorOf(specifier);
    var name := if separator < 0 then specifier else specifier[..separator];
    if specifier == "" || ("@" <= specifier && '/' !in specifier) then Err(InvalidSpecifier(specifier))
    else if !IsAllowed(name) then
      assert forall other :: IsNameOf(specifier, other) ==> other == name by {
        forall other | IsNameOf(specifier, other) ensures other == name { NameIsUnique(specifier, other, name); }
      }
      Err(InvalidSpecifier(specifier))
    else Ok((name, "." + specifier[|name|..]))
  }

  // ----- combining outcomes -----

  /** An item of an array ends the search: it resolved, or failed with another error than an invalid target. */
  predicate Decisive(r: Outcome) {
    if r.Ok? then r.value.Some? else !IsInvalidTarget(r.error)
  }

  /** An array target: the first decisive outcome, or else the last one. */
  function ArrayOutcome(results: seq<Outcome>): Outcome {
    if results == [] then Ok(None)
    else if Decisive(results[0]) || |results| == 1 then results[0]
    else ArrayOutcome(results[1..])
  }

  /** A condition object: the first outcome that is not "nothing", or else `otherwise`. */
  function ObjectOutcome(results: seq<Outcome>, otherwise: Error): Outcome {
    if results == [] then Err(otherwise)
    else if results[0] != Ok(None) then results[0]
    else ObjectOutcome(results[1..], otherwise)
  }

  predicate Applies(key: string, conditions: seq<string>) {
    key == "default" || key in conditions
  }

  // ----- resolution -----

  function InternalRank(ctx: Context): nat {
    if ctx.internal then 2 else 0
  }

  /** `resolve_package_target_string` */
  function TargetString(env: Env, ctx: Context, target: string): Result<Specifier, Error>
    decreases InternalRank(ctx), Str(target), 0
  {
    var invalid := InvalidPackageTarget(ctx.key, Str(target));
    if ctx.subpath != "" && !ctx.pattern && !EndsWith(target, "/") then Err(invalid)
    else if !("./" <= target) then
      if ctx.internal && !("../" <= target) && !("/" <= target) then
        match env.urlKind(target)
        case NodeUrl => Ok(BuiltinUrl(target))
        case OtherUrl => Err(invalid)
        case NotAUrl => InternalTarget(env, ctx, target)
      else Err(invalid)
    else if HasInvalidSegment(target[2..]) then Err(invalid)
    else
      var resolved := JoinClean(ctx.directory, target);
      if !(ctx.directory <= resolved) then Err(invalid)
      else if ctx.subpath == "" then Ok(FileUrl(FilePath(resolved)))
      else if HasInvalidSegment(ctx.subpath) then
        Err(InvalidSubpath(if ctx.pattern then ReplaceAll(ctx.key, '*', ctx.subpath) else ctx.key + ctx.subpath))
      else if ctx.pattern then Ok(FileUrl(ReplaceFirst(FilePath(resolved), '*', ctx.subpath)))
      else Ok(FileUrl(FilePath(JoinClean(resolved, ctx.subpath))))
  }

  /** An internal target that is no path and no URL is a package, or else a builtin. */
  function InternalTarget(env: Env, ctx: Context, target: string): Result<Specifier, Error>
    requires ctx.internal
    decreases 1, 3
  {
    var exportTarget := if ctx.pattern then ReplaceFirst(target, '*', ctx.subpath) else target + ctx.subpath;
    match PackageResolve(env, exportTarget, FilePath(ctx.directory + ["package.json"]), ctx.conditions)
    case Ok(Some(url)) => Ok(url)
    case Ok(None) => if env.isBuiltin(target) then Ok(BuiltinUrl("node:" + target)) else Err(GenericNotFound)
    case Err(e) => if env.isBuiltin(target) then Ok(BuiltinUrl("node:" + target)) else Err(e)
  }

  /** `resolve_package_target` */
  function ResolveTarget(env: Env, ctx: Context, target: Json): Outcome
    decreases InternalRank(ctx), target, 1
  {
    match target
    case Str(s) =>
      (match TargetString(env, ctx, s)
       case Ok(url) => Ok(Some(url))
       case Err(e) => Err(e))
    case Arr(items) =>
      ArrayOutcome(seq(|items|, i requires 0 <= i < |items| => ResolveTarget(env, ctx, items[i])))
    case Obj(fields) =>
      ObjectOutcome(
        seq(|fields|, i requires 0 <= i < |fields| =>
          if Applies(fields[i].key, ctx.conditions) then ResolveTarget(env, ctx, fields[i].value) else Ok(None)),
        InvalidPackageTarget(ctx.key, target))
    case Null => Ok(None)
    case Bool(_) => Err(InvalidPackageTarget(ctx.key, target))
    case Number(_) => Err(InvalidPackageTarget(ctx.key, target))
  }

  function Keys(fields: seq<Field>): (r: seq<string>)
    ensures |r| == |fields| && forall i | 0 <= i < |r| :: r[i] == fields[i].key
  {
    seq(|fields|, i requires 0 <= i < |fields| => fields[i].key)
  }

  /** The value of the first field with this key. */
  function Get(fields: seq<Field>, key: string): (v: Json)
    requires key in Keys(fields)
    ensures Field(key, v) in fields
  {
    if fields[0].key == key then fields[0].value
    else
      assert Keys(fields) == [fields[0].key] + Keys(fields[1..]);
      Get(fields[1..], key)
  }

  /** `package_exports_resolve` */
  function ExportsResolve(env: Env, directory: seq<string>, subpath: string, exports: seq<Field>,
                          conditions: seq<string>, referrer: string): Result<Specifier, Error>
    decreases 1, 0
  {
    if subpath in Keys(exports) && '*' !in subpath && !EndsWith(subpath, "/") then
      OrNotExported(
        ResolveTarget(env, Context(directory, "", subpath, false, false, conditions, referrer), Get(exports, subpath)),
        subpath)
    else
      match BestOf(Keys(exports), subpath)
      case None => Err(PathNotExported(subpath))
      case Some(key) =>
        BestOfIsBest(Keys(exports), subpath);
        CandidateIffMatches(key, subpath);
        OrNotExported(
          ResolveTarget(env, Context(directory, CaptureOf(key, subpath), key, true, false, conditions, referrer),
                        Get(exports, key)),
          subpath)
  }

  function OrNotExported(r: Outcome, subpath: string): Result<Specifier, Error> {
    match r
    case Ok(Some(url)) => Ok(url)
    case Ok(None) => Err(PathNotExported(subpath))
    case Err(e) => Err(e)
  }

  /** `package_resolve` */
  function PackageResolve(env: Env, specifier: string, referrer: string, conditions: seq<string>): Outcome
    decreases 1, 2
  {
    match ParseName(specifier)
    case Err(e) => Err(e)
    case Ok((name, subpath)) =>
      match env.closest(referrer)
      case Err(e) => Err(e)
      case Ok(None) => Ok(None)
      case Ok(Some(package)) =>
        if package.present && package.name == Some(name) && package.exports.Some? then
          Found(ExportsResolve(env, package.directory, subpath, package.exports.value, conditions, referrer))
        else
          match env.folder(name, referrer)
          case Err(e) => Err(e)
          case Ok(directory) =>
            match env.load(directory)
            case Err(e) => Err(e)
            case Ok(other) => ResolveSubpath(env, other, subpath, conditions, referrer)
  }

  function Found(r: Result<Specifier, Error>): Outcome {
    match r case Ok(url) => Ok(Some(url)) case Err(e) => Err(e)
  }

  /** `resolve_package_subpath` */
  function ResolveSubpath(env: Env, package: Package, subpath: string, conditions: seq<string>,
                          referrer: string): Outcome
    decreases 1, 1
  {
    if package.exports.Some? then
      Found(ExportsResolve(env, package.directory, subpath, package.exports.value, conditions, referrer))
    else if subpath == "." then Ok(LegacyMain(env, package))
    else Ok(Some(FileUrl(PathText(package.directory) + "/" + subpath)))
  }

  function WithEndings(main: string, endings: seq<string>): seq<string> {
    if endings == [] then [] else [main + endings[0]] + WithEndings(main, endings[1..])
  }

  /** `legacy_main_resolve`: the first of the guesses that is a file. */
  function LegacyMain(env: Env, package: Package): Option<Specifier> {
    var guesses :=
      if package.main.None? then [] else [package.main.value] + WithEndings(package.main.value, [".js", "/index.js"]);
    FirstFile(env, guesses + ["index.js"], package.directory)
  }

  function FirstFile(env: Env, guesses: seq<string>, directory: seq<string>): Option<Specifier> {
    if guesses == [] then None
    else
      var path := FilePath(JoinClean(directory, guesses[0]));
      if env.isFile(path) then Some(FileUrl(path)) else FirstFile(env, guesses[1..], directory)
  }
}
