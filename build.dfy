/**
 * The definition builder (codegen/directive.go:18-59): turns the schema's
 * directive declarations into the registry of `Directive` definitions the
 * binder looks names up in.
 */
module Build {
  import opened Wrappers
  import opened Sequences
  import Ast
  import opened Codegen

  /** One declared argument: resolve and check its type, then evaluate its default, if any. */
  function BuildArgument(dirName: string, arg: Ast.ArgumentDefinition, env: Env): Result<FieldArgument, Error>
  {
    var newArg := FieldArgument(arg.name, env.getType(arg.typ), env.toGoPrivate(arg.name), Nil, Nil);
    if !newArg.typeRef.isInput then Err(InvalidArgumentType(arg.typ, dirName, arg.name))
    else match arg.defaultValue
      case None => Ok(newArg)
      case Some(e) =>
        match env.evaluate(e)
        case Err(msg) => Err(InvalidDefaultValue(dirName, arg.name, msg))
        case Ok(v) => Ok(newArg.(default := v))
  }

  function ArgumentBuilder(dirName: string, env: Env): Ast.ArgumentDefinition -> Result<FieldArgument, Error>
  {
    arg => BuildArgument(dirName, arg, env)
  }

  /** The arguments of one declaration, in declared order; the first bad argument aborts. */
  function BuildArguments(dir: Ast.DirectiveDefinition, env: Env): Result<seq<FieldArgument>, Error>
  {
    MapAll(dir.arguments, ArgumentBuilder(dir.name, env))
  }

  /** A declared argument that passes both checks: an input type, and a default that evaluates. */
  predicate ValidArgument(arg: Ast.ArgumentDefinition, env: Env)
  {
    env.getType(arg.typ).isInput && (arg.defaultValue.Some? ==> env.evaluate(arg.defaultValue.value).Ok?)
  }

  /** One turn of the loop over the schema's declarations: the duplicate check comes before the built-in skip. */
  function Step(m: map<string, Directive>, name: string, dir: Ast.DirectiveDefinition, env: Env): Result<map<string, Directive>, Error>
  {
    if name in m then Err(DuplicateDirectiveName(name))
    else if IsBuiltin(name) then Ok(m)
    else match BuildArguments(dir, env)
      case Err(e) => Err(e)
      case Ok(args) => Ok(m[name := Directive(name, args)])
  }

  /** The registry built from the declarations in the order given; the first error aborts. */
  function Registry(schema: Ast.DirectiveDefinitions, env: Env): Result<map<string, Directive>, Error>
  {
    if schema == [] then Ok(map[])
    else match Registry(schema[..|schema| - 1], env)
      case Err(e) => Err(e)
      case Ok(m) => Step(m, schema[|schema| - 1].0, schema[|schema| - 1].1, env)
  }

  /** The declarations with every built-in name dropped. */
  function UserDeclared(schema: Ast.DirectiveDefinitions): Ast.DirectiveDefinitions
  {
    if schema == [] then []
    else UserDeclared(schema[..|schema| - 1]) + (if IsBuiltin(schema[|schema| - 1].0) then [] else [schema[|schema| - 1]])
  }

  /**
   * Building the arguments succeeds exactly when every declared argument is
   * valid; then there is one FieldArgument per declaration, in declared order,
   * with the declared name, the resolved type, the private Go name, no value,
   * and the evaluated default (Nil when none is declared).
   */
  lemma ArgumentsBuilt(dir: Ast.DirectiveDefinition, env: Env)
    ensures BuildArguments(dir, env).Ok? <==>
      forall i :: 0 <= i < |dir.arguments| ==> ValidArgument(dir.arguments[i], env)
    ensures BuildArguments(dir, env).Ok? ==>
      var args := BuildArguments(dir, env).value;
      |args| == |dir.arguments| &&
      forall i :: 0 <= i < |args| ==>
        var decl := dir.arguments[i];
        && args[i].gqlName == decl.name
        && args[i].typeRef == env.getType(decl.typ)
        && args[i].typeRef.isInput
        && args[i].goVarName == env.toGoPrivate(decl.name)
        && args[i].value == Nil
        && (decl.defaultValue.None? ==> args[i].default == Nil)
        && (decl.defaultValue.Some? ==> env.evaluate(decl.defaultValue.value) == Ok(args[i].default))
  {
    MapAllOk(dir.arguments, ArgumentBuilder(dir.name, env));
  }

  /**
   * A failing build reports the first invalid argument: a non-input type
   * before a bad default, each with the directive's and the argument's names.
   */
  lemma ArgumentsRejected(dir: Ast.DirectiveDefinition, env: Env)
    requires BuildArguments(dir, env).Err?
    ensures exists i :: 0 <= i < |dir.arguments| &&
                        (forall k :: 0 <= k < i ==> ValidArgument(dir.arguments[k], env)) &&
                        !ValidArgument(dir.arguments[i], env) &&
                        BuildArguments(dir, env).error ==
                          var decl := dir.arguments[i];
                          if !env.getType(decl.typ).isInput then InvalidArgumentType(decl.typ, dir.name, decl.name)
                          else InvalidDefaultValue(dir.name, decl.name, env.evaluate(decl.defaultValue.value).error)
  {
    MapAllErr(dir.arguments, ArgumentBuilder(dir.name, env));
  }

  /** Once a prefix of the declarations fails, the whole build fails with the same error. */
  lemma {:induction false} RegistryPrefixErr(schema: Ast.DirectiveDefinitions, k: nat, env: Env)
    requires k <= |schema|
    requires Registry(schema[..k], env).Err?
    ensures Registry(schema, env) == Registry(schema[..k], env)
  {
    if k == |schema| {
      assert schema[..k] == schema;
    } else {
      var p := schema[..|schema| - 1];
      assert p[..k] == schema[..k];
      RegistryPrefixErr(p, k, env);
    }
  }

  /** A successful build holds only user-declared names, each entry named by its key. */
  lemma {:induction false} RegistryKeys(schema: Ast.DirectiveDefinitions, env: Env)
    requires Registry(schema, env).Ok?
    ensures var m := Registry(schema, env).value;
      forall k :: k in m ==>
        && !IsBuiltin(k)
        && m[k].name == k
        && exists i :: 0 <= i < |schema| && schema[i].0 == k
  {
    if schema != [] {
      var n := |schema|;
      var p := schema[..n - 1];
      RegistryKeys(p, env);
      var m' := Registry(p, env).value;
      forall k | k in m'
        ensures exists i :: 0 <= i < n && schema[i].0 == k
      {
        var i :| 0 <= i < n - 1 && p[i].0 == k;
        assert schema[i] == p[i];
      }
    }
  }

  /** A successful build holds every user-declared name, with the arguments built from its declaration. */
  lemma {:induction false} RegistryEntries(schema: Ast.DirectiveDefinitions, env: Env)
    requires Registry(schema, env).Ok?
    ensures var m := Registry(schema, env).value;
      forall i :: 0 <= i < |schema| && !IsBuiltin(schema[i].0) ==>
        schema[i].0 in m && BuildArguments(schema[i].1, env) == Ok(m[schema[i].0].args)
  {
    if schema != [] {
      var n := |schema|;
      var p := schema[..n - 1];
      RegistryEntries(p, env);
      assert forall i :: 0 <= i < n - 1 ==> p[i] == schema[i];
    }
  }

  /** A successful build saw no user-declared name twice. */
  lemma {:induction false} RegistryUnique(schema: Ast.DirectiveDefinitions, env: Env)
    requires Registry(schema, env).Ok?
    ensures forall i, j :: 0 <= i < j < |schema| && schema[i].0 == schema[j].0 ==> IsBuiltin(schema[i].0)
  {
    if schema != [] {
      var n := |schema|;
      var p := schema[..n - 1];
      RegistryUnique(p, env);
      RegistryEntries(p, env);
      assert forall i :: 0 <= i < n - 1 ==> p[i] == schema[i];
      assert schema[n - 1].0 !in Registry(p, env).value;
    }
  }

  /**
   * The build succeeds exactly when no user-declared name is declared twice
   * and every user declaration's arguments are valid.
   */
  lemma {:induction false} RegistrySucceeds(schema: Ast.DirectiveDefinitions, env: Env)
    ensures Registry(schema, env).Ok? <==>
      && (forall i, j :: 0 <= i < j < |schema| && schema[i].0 == schema[j].0 ==> IsBuiltin(schema[i].0))
      && (forall i :: 0 <= i < |schema| && !IsBuiltin(schema[i].0) ==> BuildArguments(schema[i].1, env).Ok?)
  {
    if Registry(schema, env).Ok? {
      RegistryUnique(schema, env);
      RegistryEntries(schema, env);
    } else if schema != [] {
      var n := |schema|;
      var p := schema[..n - 1];
      assert forall i :: 0 <= i < n - 1 ==> p[i] == schema[i];
      RegistrySucceeds(p, env);
      if Registry(p, env).Ok? {
        RegistryKeys(p, env);
      }
    }
  }

  /**
   * A user-declared name declared a second time, after a prefix that built
   * cleanly, is reported as a duplicate.
   */
  lemma DuplicateReported(schema: Ast.DirectiveDefinitions, i: nat, j: nat, env: Env)
    requires i < j < |schema|
    requires schema[i].0 == schema[j].0 && !IsBuiltin(schema[j].0)
    requires Registry(schema[..j], env).Ok?
    ensures Registry(schema, env) == Err(DuplicateDirectiveName(schema[j].0))
  {
    RegistryEntries(schema[..j], env);
    assert schema[..j][i] == schema[i];
    assert schema[..j + 1][..j] == schema[..j];
    RegistryPrefixErr(schema, j + 1, env);
  }

  /**
   * Built-in declarations are ignored altogether, even when repeated: the
   * duplicate check never fires for them, because they never enter the registry.
   */
  lemma {:induction false} BuiltinsIgnored(schema: Ast.DirectiveDefinitions, env: Env)
    ensures Registry(schema, env) == Registry(UserDeclared(schema), env)
  {
    if schema != [] {
      var n := |schema|;
      var p := schema[..n - 1];
      BuiltinsIgnored(p, env);
      if IsBuiltin(schema[n - 1].0) {
        assert UserDeclared(schema) == UserDeclared(p);
        if Registry(p, env).Ok? {
          RegistryKeys(p, env);
          assert schema[n - 1].0 !in Registry(p, env).value;
        }
      } else {
        var u := UserDeclared(schema);
        assert u == UserDeclared(p) + [schema[n - 1]];
        assert u[..|u| - 1] == UserDeclared(p);
        assert u[|u| - 1] == schema[n - 1];
      }
    }
  }

  /**
   * Keys of a hash map are distinct, so a build from the schema's own map
   * never reports a duplicate name.
   */
  lemma {:induction false} DistinctNamesNoDuplicate(schema: Ast.DirectiveDefinitions, env: Env)
    requires forall i, j :: 0 <= i < j < |schema| ==> schema[i].0 != schema[j].0
    ensures Registry(schema, env).Err? ==> !Registry(schema, env).error.DuplicateDirectiveName?
  {
    if schema != [] {
      var n := |schema|;
      var p := schema[..n - 1];
      assert forall i :: 0 <= i < n - 1 ==> p[i] == schema[i];
      DistinctNamesNoDuplicate(p, env);
      if Registry(p, env).Ok? {
        RegistryKeys(p, env);
        var m := Registry(p, env).value;
        assert schema[n - 1].0 !in m;
        if BuildArguments(schema[n - 1].1, env).Err? {
          ArgumentsRejected(schema[n - 1].1, env);
        }
      }
    }
  }

  /** An entry at two positions occurs at least twice in the multiset. */
  lemma CountedTwice<T>(s: seq<T>, i: nat, j: nat)
    requires i < j < |s| && s[i] == s[j]
    ensures multiset(s)[s[i]] >= 2
  {
    assert s == s[..j] + [s[j]] + s[j + 1..];
    assert s[..j][i] == s[i];
  }

  /** An entry occurring at least twice in the multiset stands at two positions. */
  lemma {:induction false} TwoPositions<T>(s: seq<T>, x: T)
    requires multiset(s)[x] >= 2
    ensures exists i, j :: 0 <= i < j < |s| && s[i] == x && s[j] == x
  {
    assert s == [s[0]] + s[1..];
    if s[0] == x {
      assert x in multiset(s[1..]);
      var j :| 0 <= j < |s[1..]| && s[1..][j] == x;
      assert s[j + 1] == x;
    } else {
      TwoPositions(s[1..], x);
      var i, j :| 0 <= i < j < |s[1..]| && s[1..][i] == x && s[1..][j] == x;
      assert s[i + 1] == x && s[j + 1] == x;
    }
  }

  /** Reordering keeps "no user-declared name twice". */
  lemma PermutedUnique(s1: Ast.DirectiveDefinitions, s2: Ast.DirectiveDefinitions)
    requires multiset(s1) == multiset(s2)
    requires forall i, j :: 0 <= i < j < |s1| && s1[i].0 == s1[j].0 ==> IsBuiltin(s1[i].0)
    ensures forall i, j :: 0 <= i < j < |s2| && s2[i].0 == s2[j].0 ==> IsBuiltin(s2[i].0)
  {
    forall i, j | 0 <= i < j < |s2| && s2[i].0 == s2[j].0
      ensures IsBuiltin(s2[i].0)
    {
      if s2[i] == s2[j] {
        CountedTwice(s2, i, j);
        TwoPositions(s1, s2[i]);
        var p, q :| 0 <= p < q < |s1| && s1[p] == s2[i] && s1[q] == s2[i];
      } else {
        assert s2[i] in multiset(s1) && s2[j] in multiset(s1);
        var p :| 0 <= p < |s1| && s1[p] == s2[i];
        var q :| 0 <= q < |s1| && s1[q] == s2[j];
        assert p != q;
        if q < p {
          assert s1[q].0 == s1[p].0;
        }
      }
    }
  }

  /** Reordering keeps "every user declaration's arguments build". */
  lemma PermutedArgumentsBuild(s1: Ast.DirectiveDefinitions, s2: Ast.DirectiveDefinitions, env: Env)
    requires multiset(s1) == multiset(s2)
    requires forall i :: 0 <= i < |s1| && !IsBuiltin(s1[i].0) ==> BuildArguments(s1[i].1, env).Ok?
    ensures forall i :: 0 <= i < |s2| && !IsBuiltin(s2[i].0) ==> BuildArguments(s2[i].1, env).Ok?
  {
    forall i | 0 <= i < |s2| && !IsBuiltin(s2[i].0)
      ensures BuildArguments(s2[i].1, env).Ok?
    {
      assert s2[i] in multiset(s1);
      var p :| 0 <= p < |s1| && s1[p] == s2[i];
    }
  }

  /** Two orders of the same declarations that both build give the same registry. */
  lemma SameRegistry(s1: Ast.DirectiveDefinitions, s2: Ast.DirectiveDefinitions, env: Env)
    requires multiset(s1) == multiset(s2)
    requires Registry(s1, env).Ok? && Registry(s2, env).Ok?
    ensures Registry(s1, env) == Registry(s2, env)
  {
    RegistryKeys(s1, env);
    RegistryKeys(s2, env);
    RegistryEntries(s1, env);
    RegistryEntries(s2, env);
    var m1, m2 := Registry(s1, env).value, Registry(s2, env).value;
    forall k | k in m1
      ensures k in m2 && m2[k] == m1[k]
    {
      var i :| 0 <= i < |s1| && s1[i].0 == k;
      assert s1[i] in multiset(s2);
      var j :| 0 <= j < |s2| && s2[j] == s1[i];
    }
    forall k | k in m2
      ensures k in m1
    {
      var j :| 0 <= j < |s2| && s2[j].0 == k;
      assert s2[j] in multiset(s1);
      var i :| 0 <= i < |s1| && s1[i] == s2[j];
    }
    assert m1 == m2;
  }

  /**
   * The hash map's iteration order does not matter: when one order of the
   * declarations builds, every other order builds too, to the same registry.
   */
  lemma OrderIrrelevant(s1: Ast.DirectiveDefinitions, s2: Ast.DirectiveDefinitions, env: Env)
    requires multiset(s1) == multiset(s2)
    requires Registry(s1, env).Ok?
    ensures Registry(s2, env) == Registry(s1, env)
  {
    RegistrySucceeds(s1, env);
    PermutedUnique(s1, s2);
    PermutedArgumentsBuild(s1, s2, env);
    RegistrySucceeds(s2, env);
    SameRegistry(s1, s2, env);
  }

  /**
   * A user declaration with an invalid argument, met after a prefix that
   * built cleanly and not a duplicate, fails the build with that argument's
   * error.
   */
  lemma ArgumentErrorReported(schema: Ast.DirectiveDefinitions, j: nat, env: Env)
    requires j < |schema|
    requires Registry(schema[..j], env).Ok?
    requires forall i :: 0 <= i < j ==> schema[i].0 != schema[j].0
    requires !IsBuiltin(schema[j].0)
    requires BuildArguments(schema[j].1, env).Err?
    ensures Registry(schema, env) == Err(BuildArguments(schema[j].1, env).error)
  {
    RegistryKeys(schema[..j], env);
    assert schema[..j + 1][..j] == schema[..j];
    RegistryPrefixErr(schema, j + 1, env);
  }

  /** The builder's loops: fill a map of definitions, returning on the first error. */
  method BuildDirectives(schema: Ast.DirectiveDefinitions, env: Env) returns (r: Result<map<string, Directive>, Error>)
    ensures r == Registry(schema, env)
    ensures r.Ok? ==> forall k :: k in r.value ==> !IsBuiltin(k) && r.value[k].name == k
  {
    var directives: map<string, Directive> := map[];
    for i := 0 to |schema|
      invariant Registry(schema[..i], env) == Ok(directives)
    {
      var (name, dir) := schema[i];
      assert schema[..i + 1][..i] == schema[..i];
      if name in directives {
        RegistryPrefixErr(schema, i + 1, env);
        return Err(DuplicateDirectiveName(name));
      }
      if IsBuiltin(name) {
        continue;
      }
      var args: seq<FieldArgument> := [];
      for j := 0 to |dir.arguments|
        invariant |args| == j
        invariant forall k :: 0 <= k < j ==> BuildArgument(dir.name, dir.arguments[k], env) == Ok(args[k])
      {
        var arg := dir.arguments[j];
        var newArg := FieldArgument(arg.name, env.getType(arg.typ), env.toGoPrivate(arg.name), Nil, Nil);
        if !newArg.typeRef.isInput {
          r := Err(InvalidArgumentType(arg.typ, dir.name, arg.name));
          MapAllFirstErr(dir.arguments, ArgumentBuilder(dir.name, env), j);
          RegistryPrefixErr(schema, i + 1, env);
          return;
        }
        if arg.defaultValue.Some? {
          var v := env.evaluate(arg.defaultValue.value);
          if v.Err? {
            r := Err(InvalidDefaultValue(dir.name, arg.name, v.error));
            MapAllFirstErr(dir.arguments, ArgumentBuilder(dir.name, env), j);
            RegistryPrefixErr(schema, i + 1, env);
            return;
          }
          newArg := newArg.(default := v.value);
        }
        args := args + [newArg];
      }
      var f := ArgumentBuilder(dir.name, env);
      assert forall k :: 0 <= k < |dir.arguments| ==> f(dir.arguments[k]) == Ok(args[k]);
      MapAllOk(dir.arguments, f);
      assert MapAll(dir.arguments, f).value == args;
      directives := directives[name := Directive(name, args)];
    }
    assert schema[..|schema|] == schema;
    RegistryKeys(schema, env);
    return Ok(directives);
  }
}
