/** The ES module text of `crates/node/analyze.rs`: `add_export` and the escaping of names. */
module CjsEmitter {
  import opened Common
  import opened CjsTranslator
  import opened Lexical
  import Decimal

  // ----- escaping -----

  /** `escape_for_double_quote_string`: first backslashes, then quotes. */
  function Escape(s: string): string {
    ReplaceAll(ReplaceAll(s, '\\', "\\\\"), '"', "\\\"")
  }

  function EscapeChar(c: char): string {
    if c == '\\' then "\\\\" else if c == '"' then "\\\"" else [c]
  }

  /** The two passes escape each character on its own: the second never touches what the first wrote. */
  lemma EscapeStep(s: string)
    requires s != []
    ensures Escape(s) == EscapeChar(s[0]) + Escape(s[1..])
  {
    var first := if s[0] == '\\' then "\\\\" else [s[0]];
    ReplaceConcat(first, ReplaceAll(s[1..], '\\', "\\\\"), '"', "\\\"");
    assert "\\\\"[1..] == "\\" && "\\"[1..] == "" && [s[0]][1..] == [];
    assert ReplaceAll("\\", '"', "\\\"") == "\\";
    assert ReplaceAll("\\\\", '"', "\\\"") == "\\\\";
    assert ReplaceAll([s[0]], '"', "\\\"") == if s[0] == '"' then "\\\"" else [s[0]];
  }

  predicate IsLineBreak(c: char) {
    c == '\n' || c == '\r'
  }

  /** Reads a double-quoted literal after its opening quote: its value and what follows the closing
      quote. A raw line break ends it with an error, as in ECMAScript. */
  function ReadLiteral(s: string): Option<(string, string)> {
    if s == [] || IsLineBreak(s[0]) then None
    else if s[0] == '"' then Some(("", s[1..]))
    else if s[0] == '\\' then
      if |s| < 2 || (s[1] != '\\' && s[1] != '"') then None
      else
        match ReadLiteral(s[2..])
        case None => None
        case Some((v, rest)) => Some(([s[1]] + v, rest))
    else
      match ReadLiteral(s[1..])
      case None => None
      case Some((v, rest)) => Some(([s[0]] + v, rest))
  }

  /** An escaped name between quotes reads back as the name, with nothing lost after it, exactly when
      the name has no line break. */
  lemma {:induction false} EscapeReadsBackIff(s: string, rest: string)
    ensures ReadLiteral(Escape(s) + "\"" + rest) == Some((s, rest)) <==> forall c <- s :: !IsLineBreak(c)
    ensures (exists c <- s :: IsLineBreak(c)) ==> ReadLiteral(Escape(s) + "\"" + rest) == None
  {
    var text := Escape(s) + "\"" + rest;
    if s == [] {
      assert text[1..] == rest;
    } else {
      EscapeStep(s);
      EscapeReadsBackIff(s[1..], rest);
      var tail := Escape(s[1..]) + "\"" + rest;
      assert text == EscapeChar(s[0]) + tail;
      assert s == [s[0]] + s[1..];
      if |EscapeChar(s[0])| == 2 {
        assert text[2..] == tail && text[1] == s[0];
      } else {
        assert text[1..] == tail && text[0] == s[0];
      }
    }
  }

  // ----- statements -----

  /** What is written for an export: a temporary and a renaming export, or a plain declaration. Names
      inside string literals are escaped. */
  datatype Statement =
    | ConstTemp(k: nat, key: string)
    | ExportTemp(k: nat, exported: string)
    | ExportConst(name: string, key: string)

  predicate IsAlpha(c: char) {
    'a' <= c <= 'z' || 'A' <= c <= 'Z'
  }

  predicate IsIdentChar(c: char) {
    IsAlpha(c) || '0' <= c <= '9' || c == '_' || c == '$'
  }

  predicate IsValidVarDecl(name: string) {
    && name != []
    && (IsAlpha(name[0]) || name[0] == '_' || name[0] == '$')
    && forall c <- name :: IsIdentChar(c)
  }

  /** Whether the name is declared directly, given the reserved words. */
  predicate IsPlain(reserved: set<string>, name: string) {
    name !in reserved && IsValidVarDecl(name)
  }

  /** The statements for `names` in order, after `count` temporaries. */
  function Emitted(reserved: set<string>, names: seq<string>, count: nat): seq<Statement> {
    if names == [] then []
    else if names[0] == DEFAULT then Emitted(reserved, names[1..], count)
    else if IsPlain(reserved, names[0]) then
      [ExportConst(names[0], Escape(names[0]))] + Emitted(reserved, names[1..], count)
    else
      [ConstTemp(count + 1, Escape(names[0])), ExportTemp(count + 1, Escape(names[0]))]
      + Emitted(reserved, names[1..], count + 1)
  }

  lemma {:induction false} EmittedConcat(reserved: set<string>, a: seq<string>, name: string, count: nat)
    ensures Emitted(reserved, a + [name], count)
         == Emitted(reserved, a, count) + Emitted(reserved, [name], count + Temporaries(reserved, a))
    decreases |a|
  {
    if a == [] {
      assert a + [name] == [name];
    } else {
      assert (a + [name])[1..] == a[1..] + [name] && (a + [name])[0] == a[0];
      var count' := if a[0] == DEFAULT || IsPlain(reserved, a[0]) then count else count + 1;
      EmittedConcat(reserved, a[1..], name, count');
    }
  }

  /** How many of the names need a temporary. */
  function Temporaries(reserved: set<string>, names: seq<string>): nat {
    if names == [] then 0
    else (if names[0] == DEFAULT || IsPlain(reserved, names[0]) then 0 else 1) + Temporaries(reserved, names[1..])
  }

  lemma {:induction false} TemporariesConcat(reserved: set<string>, a: seq<string>, name: string)
    ensures Temporaries(reserved, a + [name]) == Temporaries(reserved, a) + Temporaries(reserved, [name])
  {
    if a == [] {
      assert a + [name] == [name];
    } else {
      assert (a + [name])[1..] == a[1..] + [name];
      TemporariesConcat(reserved, a[1..], name);
    }
  }

  /** The export loop with `add_export`; `names` is the set of names in whatever order it is iterated. */
  method EmitExports(reserved: set<string>, names: seq<string>) returns (source: seq<Statement>, tempVarCount: nat)
    ensures source == Emitted(reserved, names, 0) && tempVarCount == Temporaries(reserved, names)
  {
    source, tempVarCount := [], 0;
    for i := 0 to |names|
      invariant source == Emitted(reserved, names[..i], 0) && tempVarCount == Temporaries(reserved, names[..i])
    {
      var name := names[i];
      assert names[..i + 1] == names[..i] + [name];
      EmittedConcat(reserved, names[..i], name, 0);
      TemporariesConcat(reserved, names[..i], name);
      if name != DEFAULT {
        if !IsPlain(reserved, name) {
          tempVarCount := tempVarCount + 1;
          source := source + [ConstTemp(tempVarCount, Escape(name))];
          source := source + [ExportTemp(tempVarCount, Escape(name))];
        } else {
          source := source + [ExportConst(name, Escape(name))];
        }
      }
    }
    assert names[..|names|] == names;
  }

  // ----- every name is exported once -----

  /** The names the statements export, in order, as their importers see them. */
  function ExportedNames(source: seq<Statement>): seq<string> {
    if source == [] then []
    else
      (match source[0]
       case ConstTemp(_, _) => []
       case ExportConst(name, _) => [name]
       case ExportTemp(_, exported) =>
         match ReadLiteral(exported + "\"") case None => [] case Some((v, _)) => [v])
      + ExportedNames(source[1..])
  }

  function WithoutDefault(names: seq<string>): seq<string> {
    if names == [] then []
    else (if names[0] == DEFAULT then [] else [names[0]]) + WithoutDefault(names[1..])
  }

  lemma ExportedPair(k: nat, name: string, rest: seq<Statement>)
    requires forall c <- name :: !IsLineBreak(c)
    ensures ExportedNames([ConstTemp(k, Escape(name)), ExportTemp(k, Escape(name))] + rest)
         == [name] + ExportedNames(rest)
  {
    var a, b := ConstTemp(k, Escape(name)), ExportTemp(k, Escape(name));
    assert ([a, b] + rest)[1..] == [b] + rest && ([b] + rest)[1..] == rest;
    assert Escape(name) + "\"" == Escape(name) + "\"" + "";
    EscapeReadsBackIff(name, "");
  }

  /** Without line breaks in names, the module exports each name but "default" once, in iteration order. */
  lemma {:induction false} EachNameOnce(reserved: set<string>, names: seq<string>, count: nat)
    requires forall n <- names :: forall c <- n :: !IsLineBreak(c)
    ensures ExportedNames(Emitted(reserved, names, count)) == WithoutDefault(names)
    decreases |names|
  {
    if names != [] {
      assert forall n <- names[1..] :: n in names;
      var count' := if names[0] == DEFAULT || IsPlain(reserved, names[0]) then count else count + 1;
      EachNameOnce(reserved, names[1..], count');
      var rest := Emitted(reserved, names[1..], count');
      if names[0] != DEFAULT {
        if IsPlain(reserved, names[0]) {
          var first := ExportConst(names[0], Escape(names[0]));
          assert ([first] + rest)[1..] == rest;
        } else {
          assert names[0] in names;
          ExportedPair(count + 1, names[0], rest);
        }
      }
    }
  }

  // ----- declared identifiers -----

  /** `__deno_export_{k}__` */
  function TempName(k: nat): string {
    "__deno_export_" + Decimal.Print(k) + "__"
  }

  lemma TempNamesDiffer(j: nat, k: nat)
    requires TempName(j) == TempName(k)
    ensures j == k
  {
    var a, b := Decimal.Print(j), Decimal.Print(k);
    assert TempName(j)[14..14 + |a|] == a && TempName(k)[14..14 + |b|] == b;
    Decimal.ParsePrint(j);
    Decimal.ParsePrint(k);
  }

  /** The identifiers the exports declare at the top level of the module. */
  function Declared(source: seq<Statement>): seq<string> {
    if source == [] then []
    else
      (match source[0]
       case ConstTemp(k, _) => [TempName(k)]
       case ExportConst(name, _) => [name]
       case ExportTemp(_, _) => [])
      + Declared(source[1..])
  }

  /** What the fixed lines of the module declare. */
  const PRELUDE: seq<string> := ["__internalCreateRequire", "require", "mod"]

  /** One of the `temps` temporaries after the first `count`. */
  predicate IsTemp(name: string, count: nat, temps: nat) {
    exists k | count < k <= count + temps :: name == TempName(k)
  }

  /** The plain name is also declared by the fixed lines or as one of the temporaries. */
  predicate Clashes(name: string, temps: nat) {
    name in PRELUDE || IsTemp(name, 0, temps)
  }

  ghost predicate NoClash(reserved: set<string>, names: seq<string>) {
    forall n <- names :: n != DEFAULT && IsPlain(reserved, n) ==> !Clashes(n, Temporaries(reserved, names))
  }

  /** Membership in the declared identifiers: plain names, and temporaries in a range. */
  lemma {:induction false} DeclaredAre(reserved: set<string>, names: seq<string>, count: nat, x: string)
    ensures x in Declared(Emitted(reserved, names, count)) <==>
              (x in names && x != DEFAULT && IsPlain(reserved, x)) || IsTemp(x, count, Temporaries(reserved, names))
    decreases |names|
  {
    if names != [] {
      var plain := names[0] == DEFAULT || IsPlain(reserved, names[0]);
      var count' := if plain then count else count + 1;
      DeclaredAre(reserved, names[1..], count', x);
      DeclaredStep(reserved, names, count);
      assert names == [names[0]] + names[1..];
      TempRange(x, count, Temporaries(reserved, names));
    }
  }

  lemma DeclaredConst(name: string, rest: seq<Statement>)
    ensures Declared([ExportConst(name, Escape(name))] + rest) == [name] + Declared(rest)
  {
    assert ([ExportConst(name, Escape(name))] + rest)[1..] == rest;
  }

  lemma DeclaredTemp(k: nat, name: string, rest: seq<Statement>)
    ensures Declared([ConstTemp(k, Escape(name)), ExportTemp(k, Escape(name))] + rest) == [TempName(k)] + Declared(rest)
  {
    var a, b := ConstTemp(k, Escape(name)), ExportTemp(k, Escape(name));
    assert ([a, b] + rest)[1..] == [b] + rest && ([b] + rest)[1..] == rest;
    assert Declared([b] + rest) == [] + Declared(rest);
  }

  lemma DeclaredStep(reserved: set<string>, names: seq<string>, count: nat)
    requires names != []
    ensures var next := if names[0] == DEFAULT || IsPlain(reserved, names[0]) then count else count + 1;
            var rest := Declared(Emitted(reserved, names[1..], next));
            Declared(Emitted(reserved, names, count))
            == (if names[0] == DEFAULT then []
                else if IsPlain(reserved, names[0]) then [names[0]]
                else [TempName(count + 1)]) + rest
  {
    if names[0] == DEFAULT {
      assert [] + Declared(Emitted(reserved, names[1..], count)) == Declared(Emitted(reserved, names[1..], count));
    } else if IsPlain(reserved, names[0]) {
      DeclaredConst(names[0], Emitted(reserved, names[1..], count));
    } else {
      DeclaredTemp(count + 1, names[0], Emitted(reserved, names[1..], count + 1));
    }
  }

  /** A range of temporaries is its first one and the others. */
  lemma TempRange(x: string, count: nat, temps: nat)
    ensures temps > 0 ==> (IsTemp(x, count, temps) <==> x == TempName(count + 1) || IsTemp(x, count + 1, temps - 1))
  {
  }

  /** No plain name is one of the temporaries. */
  ghost predicate NoTempClash(reserved: set<string>, names: seq<string>, count: nat, temps: nat) {
    forall n <- names :: n != DEFAULT && IsPlain(reserved, n) ==> !IsTemp(n, count, temps)
  }

  lemma NoTempClashStep(reserved: set<string>, names: seq<string>, count: nat, temps: nat)
    requires names != []
    ensures NoTempClash(reserved, names, count, temps)
       <==> NoTempClash(reserved, [names[0]], count, temps) && NoTempClash(reserved, names[1..], count, temps)
  {
    assert names == [names[0]] + names[1..];
  }

  /** The exports declare distinct identifiers exactly when no plain name is one of the temporaries. */
  lemma {:induction false} DeclaredDistinctIff(reserved: set<string>, names: seq<string>, count: nat)
    requires Distinct(names)
    ensures Distinct(Declared(Emitted(reserved, names, count)))
       <==> NoTempClash(reserved, names, count, Temporaries(reserved, names))
    decreases |names|
  {
    if names != [] {
      var x, rest := names[0], names[1..];
      assert names == [x] + rest;
      DistinctCons(x, rest);
      DeclaredStep(reserved, names, count);
      NoTempClashStep(reserved, names, count, Temporaries(reserved, names));
      if x == DEFAULT || IsPlain(reserved, x) {
        DeclaredDistinctIff(reserved, rest, count);
        DeclaredAre(reserved, rest, count, x);
        DistinctCons(x, Declared(Emitted(reserved, rest, count)));
      } else {
        var temps := Temporaries(reserved, rest);
        DeclaredDistinctIff(reserved, rest, count + 1);
        DeclaredAre(reserved, rest, count + 1, TempName(count + 1));
        DistinctCons(TempName(count + 1), Declared(Emitted(reserved, rest, count + 1)));
        assert !IsTemp(TempName(count + 1), count + 1, temps) by {
          forall k | count + 1 < k <= count + 1 + temps ensures TempName(count + 1) != TempName(k) {
            if TempName(count + 1) == TempName(k) { TempNamesDiffer(count + 1, k); }
          }
        }
        forall n <- rest { TempRange(n, count, temps + 1); }
      }
    }
  }

  /** The identifiers of the fixed lines are no temporaries. */
  lemma PreludeIsNoTemp(x: string, temps: nat)
    requires x in PRELUDE
    ensures !IsTemp(x, 0, temps)
  {
    forall k | 0 < k <= temps ensures x != TempName(k) {
      assert TempName(k)[2] == 'd' && |TempName(k)| >= 16;
      assert PRELUDE[0][2] == 'i' && |PRELUDE[1]| == 7 && |PRELUDE[2]| == 3;
    }
  }

  lemma DistinctAfterPrelude(d: seq<string>)
    ensures Distinct(PRELUDE + d) <==> Distinct(d) && forall x <- PRELUDE :: x !in d
  {
    var a, b, c := PRELUDE[0], PRELUDE[1], PRELUDE[2];
    assert |a| == 23 && |b| == 7 && |c| == 3;
    assert PRELUDE + d == [a] + ([b] + ([c] + d));
    DistinctCons(a, [b] + ([c] + d));
    DistinctCons(b, [c] + d);
    DistinctCons(c, d);
    assert PRELUDE == [a, b, c];
  }

  /** The whole module declares distinct identifiers exactly when no plain export name is also declared
      by the fixed lines or as a temporary: the renaming through temporaries does not exclude it. */
  lemma ModuleDeclaresDistinctIff(reserved: set<string>, names: seq<string>)
    requires Distinct(names) && "mod" in reserved
    ensures Distinct(PRELUDE + Declared(Emitted(reserved, names, 0))) <==> NoClash(reserved, names)
  {
    var d, temps := Declared(Emitted(reserved, names, 0)), Temporaries(reserved, names);
    DeclaredDistinctIff(reserved, names, 0);
    DistinctAfterPrelude(d);
    forall x <- PRELUDE ensures x in d <==> x in names && x != DEFAULT && IsPlain(reserved, x) {
      DeclaredAre(reserved, names, 0, x);
      PreludeIsNoTemp(x, temps);
    }
  }

  /** An export named "require" is declared twice, as it is no reserved word. */
  lemma RequireIsDeclaredTwice(reserved: set<string>, names: seq<string>)
    requires Distinct(names) && "mod" in reserved && "require" !in reserved && "require" in names
    ensures !Distinct(PRELUDE + Declared(Emitted(reserved, names, 0)))
  {
    ModuleDeclaresDistinctIff(reserved, names);
    assert PRELUDE[1] == "require" && |PRELUDE[1]| == 7 && IsPlain(reserved, PRELUDE[1]);
  }

  // ----- what the module exports -----

  /** What can go wrong with a declaration: a word that names no binding, an identifier that is none, or one
      that is declared already. */
  predicate CanDeclare(keywords: set<string>, name: string, declared: set<string>) {
    && name !in keywords && name !in declared && name != ""
    && !('0' <= name[0] <= '9') && forall i | 0 <= i < |name| :: IsIdentChar(name[i])
  }

  /** The value between the quotes of a literal; `None` if it does not end at its closing quote. */
  function Literal(text: string): Option<string> {
    match ReadLiteral(text + "\"")
    case Some((v, "")) => Some(v)
    case _ => None
  }

  /** Runs the export statements: `properties` is the value of `mod`, `scope` holds what is declared so far.
      The result is what the module exports, in order; `None` for a module that is no valid program. */
  function Exported<V>(properties: string -> V, keywords: set<string>, source: seq<Statement>,
                       scope: map<string, V>): Option<seq<(string, V)>>
  {
    if source == [] then Some([])
    else
      match source[0]
      case ConstTemp(k, key) =>
        if Literal(key).None? || !CanDeclare(keywords, TempName(k), scope.Keys) then None
        else Exported(properties, keywords, source[1..], scope[TempName(k) := properties(Literal(key).value)])
      case ExportConst(name, key) =>
        if Literal(key).None? || !CanDeclare(keywords, name, scope.Keys) then None
        else
          var v := properties(Literal(key).value);
          Before((name, v), Exported(properties, keywords, source[1..], scope[name := v]))
      case ExportTemp(k, exported) =>
        if Literal(exported).None? || TempName(k) !in scope then None
        else
          Before((Literal(exported).value, scope[TempName(k)]),
                 Exported(properties, keywords, source[1..], scope))
  }

  function Before<T>(x: T, rest: Option<seq<T>>): Option<seq<T>> {
    match rest
    case None => None
    case Some(xs) => Some([x] + xs)
  }

  /** Each name but "default" with the property of that name. */
  function Properties<V>(properties: string -> V, names: seq<string>): seq<(string, V)> {
    if names == [] then []
    else (if names[0] == DEFAULT then [] else [(names[0], properties(names[0]))]) + Properties(properties, names[1..])
  }

  predicate OneLine(name: string) {
    forall c <- name :: !IsLineBreak(c)
  }

  lemma EscapedLiteral(name: string)
    ensures Literal(Escape(name)) == if OneLine(name) then Some(name) else None
  {
    assert Escape(name) + "\"" == Escape(name) + "\"" + "";
    EscapeReadsBackIff(name, "");
    assert OneLine(name) || exists c <- name :: IsLineBreak(c);
  }

  lemma PlainCanDeclare(keywords: set<string>, reserved: set<string>, name: string, declared: set<string>)
    requires keywords <= reserved && IsPlain(reserved, name)
    ensures CanDeclare(keywords, name, declared) <==> name !in declared
  {
    forall i | 0 <= i < |name| ensures IsIdentChar(name[i]) { assert name[i] in name; }
  }

  /** No word of the language is a temporary. */
  ghost predicate NoTempWord(keywords: set<string>) {
    forall k: nat :: TempName(k) !in keywords
  }

  lemma TempCanDeclare(keywords: set<string>, k: nat, declared: set<string>)
    requires NoTempWord(keywords)
    ensures CanDeclare(keywords, TempName(k), declared) <==> TempName(k) !in declared
  {
    var name, digits := TempName(k), Decimal.Print(k);
    Decimal.ParsePrint(k);
    assert name[0] == '_';
    forall i | 0 <= i < |name| ensures IsIdentChar(name[i]) {
      assert i < 14 || i >= 14 + |digits| || (name[i] == digits[i - 14] && digits[i - 14] in digits);
    }
  }

  /** The names can be written and none of what they declare is in scope or declared twice. */
  ghost predicate CanEmit(reserved: set<string>, names: seq<string>, count: nat, scope: set<string>) {
    && (forall n <- names :: OneLine(n))
    && (forall n <- names :: n != DEFAULT && IsPlain(reserved, n) ==>
          n !in scope && !IsTemp(n, count, Temporaries(reserved, names)))
    && (forall x <- scope :: !IsTemp(x, count, Temporaries(reserved, names)))
  }

  lemma CanEmitSkip(reserved: set<string>, names: seq<string>, count: nat, scope: set<string>)
    requires names != [] && names[0] == DEFAULT
    ensures CanEmit(reserved, names, count, scope) <==> CanEmit(reserved, names[1..], count, scope)
  {
    assert names == [DEFAULT] + names[1..];
    assert OneLine(DEFAULT) by { assert |DEFAULT| == 7 && forall i | 0 <= i < 7 :: !IsLineBreak(DEFAULT[i]); }
  }

  lemma CanEmitPlain(reserved: set<string>, names: seq<string>, count: nat, scope: set<string>)
    requires Distinct(names) && names != [] && names[0] != DEFAULT && IsPlain(reserved, names[0])
    ensures CanEmit(reserved, names, count, scope) <==>
              && OneLine(names[0]) && names[0] !in scope
              && CanEmit(reserved, names[1..], count, scope + {names[0]})
  {
    assert names == [names[0]] + names[1..];
    DistinctCons(names[0], names[1..]);
  }

  lemma CanEmitTemp(reserved: set<string>, names: seq<string>, count: nat, scope: set<string>)
    requires names != [] && names[0] != DEFAULT && !IsPlain(reserved, names[0])
    ensures CanEmit(reserved, names, count, scope) <==>
              && OneLine(names[0]) && TempName(count + 1) !in scope
              && CanEmit(reserved, names[1..], count + 1, scope + {TempName(count + 1)})
  {
    var t, temps := TempName(count + 1), Temporaries(reserved, names);
    assert names == [names[0]] + names[1..];
    forall x { TempRange(x, count, temps); }
    forall k | count + 1 < k <= count + temps ensures t != TempName(k) {
      if t == TempName(k) { TempNamesDiffer(count + 1, k); }
    }
    assert !IsTemp(t, count + 1, temps - 1);
  }

  lemma ExportedPlain<V>(properties: string -> V, keywords: set<string>, reserved: set<string>, name: string,
                         rest: seq<Statement>, scope: map<string, V>)
    requires keywords <= reserved && IsPlain(reserved, name)
    ensures Exported(properties, keywords, [ExportConst(name, Escape(name))] + rest, scope)
         == if OneLine(name) && name !in scope
            then Before((name, properties(name)), Exported(properties, keywords, rest, scope[name := properties(name)]))
            else None
  {
    EscapedLiteral(name);
    PlainCanDeclare(keywords, reserved, name, scope.Keys);
    assert ([ExportConst(name, Escape(name))] + rest)[1..] == rest;
  }

  lemma ExportedTemp<V>(properties: string -> V, keywords: set<string>, k: nat, name: string, rest: seq<Statement>,
                        scope: map<string, V>)
    requires NoTempWord(keywords)
    ensures Exported(properties, keywords, [ConstTemp(k, Escape(name)), ExportTemp(k, Escape(name))] + rest, scope)
         == if OneLine(name) && TempName(k) !in scope
            then Before((name, properties(name)),
                        Exported(properties, keywords, rest, scope[TempName(k) := properties(name)]))
            else None
  {
    EscapedLiteral(name);
    TempCanDeclare(keywords, k, scope.Keys);
    var a, b := ConstTemp(k, Escape(name)), ExportTemp(k, Escape(name));
    assert ([a, b] + rest)[1..] == [b] + rest && ([b] + rest)[1..] == rest;
    if OneLine(name) && TempName(k) !in scope {
      var scope' := scope[TempName(k) := properties(name)];
      assert Exported(properties, keywords, [a, b] + rest, scope) == Exported(properties, keywords, [b] + rest, scope');
    }
  }

  lemma {:induction false} ExportedIff<V>(properties: string -> V, keywords: set<string>, reserved: set<string>,
                                          names: seq<string>, count: nat, scope: map<string, V>)
    requires Distinct(names) && keywords <= reserved && NoTempWord(keywords)
    ensures Exported(properties, keywords, Emitted(reserved, names, count), scope)
         == if CanEmit(reserved, names, count, scope.Keys) then Some(Properties(properties, names)) else None
    decreases |names|
  {
    if names == [] {
      forall x <- scope ensures !IsTemp(x, count, 0) {}
    } else {
      var x, rest := names[0], names[1..];
      assert Distinct(rest) by { assert names == [x] + rest; DistinctCons(x, rest); }
      if x == DEFAULT {
        CanEmitSkip(reserved, names, count, scope.Keys);
        ExportedIff(properties, keywords, reserved, rest, count, scope);
        assert [] + Properties(properties, rest) == Properties(properties, rest);
      } else if IsPlain(reserved, x) {
        var scope' := scope[x := properties(x)];
        assert scope'.Keys == scope.Keys + {x};
        CanEmitPlain(reserved, names, count, scope.Keys);
        ExportedIff(properties, keywords, reserved, rest, count, scope');
        ExportedPlain(properties, keywords, reserved, x, Emitted(reserved, rest, count), scope);
      } else {
        var scope' := scope[TempName(count + 1) := properties(x)];
        assert scope'.Keys == scope.Keys + {TempName(count + 1)};
        CanEmitTemp(reserved, names, count, scope.Keys);
        ExportedIff(properties, keywords, reserved, rest, count + 1, scope');
        ExportedTemp(properties, keywords, count + 1, x, Emitted(reserved, rest, count + 1), scope);
      }
    }
  }

  /** Whatever `mod` is: the module is a valid program exactly when no name holds a line break and no plain name
      clashes with the fixed lines or a temporary, and then it exports each name but "default", in order, with
      the property of `mod` of that name. */
  lemma ModuleExports<V>(properties: string -> V, keywords: set<string>, reserved: set<string>, names: seq<string>,
                         scope: map<string, V>)
    requires Distinct(names) && keywords <= reserved && NoTempWord(keywords)
    requires scope.Keys == set x | x in PRELUDE
    ensures Exported(properties, keywords, Emitted(reserved, names, 0), scope)
         == if (forall n <- names :: OneLine(n)) && NoClash(reserved, names) then Some(Properties(properties, names))
            else None
  {
    ExportedIff(properties, keywords, reserved, names, 0, scope);
    forall x <- scope ensures !IsTemp(x, 0, Temporaries(reserved, names)) {
      PreludeIsNoTemp(x, Temporaries(reserved, names));
    }
  }
}
