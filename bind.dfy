/**
 * The instance binder (codegen/directive.go:61-98): binds each use of a
 * directive at a schema element to its definition, one argument per
 * definition argument, taking the explicit value when one was written and
 * the definition's default otherwise.
 */
module Bind {
  import opened Wrappers
  import opened Sequences
  import Ast
  import opened Codegen

  /**
   * The explicit argument values of one use, by name. A later argument of the
   * same name overwrites an earlier one; the first evaluation that fails aborts.
   */
  function EvalArguments(args: seq<Ast.Argument>, env: Env): Result<map<string, Value>, string>
  {
    if args == [] then Ok(map[])
    else match EvalArguments(args[..|args| - 1], env)
      case Err(e) => Err(e)
      case Ok(m) =>
        var da := args[|args| - 1];
        match env.evaluate(da.value)
        case Err(e) => Err(e)
        case Ok(v) => Ok(m[da.name := v])
  }

  /** The value expression of the last argument called `name`, if any was written. */
  function LastSupplied(args: seq<Ast.Argument>, name: string): Option<Ast.ValueExpr>
  {
    if args == [] then None
    else if args[|args| - 1].name == name then Some(args[|args| - 1].value)
    else LastSupplied(args[..|args| - 1], name)
  }

  /** One definition argument bound to a use: the explicit value if the name is present, else the default. */
  function BindArgument(a: FieldArgument, values: map<string, Value>): FieldArgument
  {
    var value := if a.gqlName in values then values[a.gqlName] else a.default;
    FieldArgument(a.gqlName, a.typeRef, a.goVarName, Nil, value)
  }

  function ArgumentBinder(values: map<string, Value>): FieldArgument -> FieldArgument
  {
    a => BindArgument(a, values)
  }

  /** One use: evaluate its explicit arguments, then look up its definition, then bind every definition argument. */
  function BindDirective(d: Ast.Directive, registry: map<string, Directive>, env: Env): Result<Directive, Error>
  {
    match EvalArguments(d.arguments, env)
    case Err(msg) => Err(ArgumentValueError(msg))
    case Ok(values) =>
      if d.name !in registry then Err(DirectiveNotFound(d.name))
      else Ok(Directive(d.name, MapSeq(registry[d.name].args, ArgumentBinder(values))))
  }

  function Binder(registry: map<string, Directive>, env: Env): Ast.Directive -> Result<Directive, Error>
  {
    d => BindDirective(d, registry, env)
  }

  /** Every use of a site, in order; the first error aborts. */
  function Instances(list: seq<Ast.Directive>, registry: map<string, Directive>, env: Env): Result<seq<Directive>, Error>
  {
    MapAll(list, Binder(registry, env))
  }

  /** Once a prefix of the arguments fails to evaluate, the whole evaluation fails with the same error. */
  lemma {:induction false} EvalPrefixErr(args: seq<Ast.Argument>, k: nat, env: Env)
    requires k <= |args|
    requires EvalArguments(args[..k], env).Err?
    ensures EvalArguments(args, env) == EvalArguments(args[..k], env)
  {
    if k == |args| {
      assert args[..k] == args;
    } else {
      var p := args[..|args| - 1];
      assert p[..k] == args[..k];
      EvalPrefixErr(p, k, env);
    }
  }

  /**
   * Evaluation succeeds exactly when every explicit value evaluates; a failure
   * reports the first value that does not.
   */
  lemma {:induction false} EvalArgumentsFails(args: seq<Ast.Argument>, env: Env)
    ensures EvalArguments(args, env).Ok? <==> forall j :: 0 <= j < |args| ==> env.evaluate(args[j].value).Ok?
    ensures EvalArguments(args, env).Err? ==>
      exists j :: 0 <= j < |args| &&
                  (forall k :: 0 <= k < j ==> env.evaluate(args[k].value).Ok?) &&
                  env.evaluate(args[j].value) == Err(EvalArguments(args, env).error)
  {
    if args != [] {
      var n := |args|;
      var p := args[..n - 1];
      EvalArgumentsFails(p, env);
      assert forall j :: 0 <= j < n - 1 ==> p[j] == args[j];
      if EvalArguments(p, env).Err? {
        var j :| 0 <= j < n - 1 &&
                 (forall k :: 0 <= k < j ==> env.evaluate(p[k].value).Ok?) &&
                 env.evaluate(p[j].value) == Err(EvalArguments(p, env).error);
        assert env.evaluate(args[j].value).Err?;
      }
    }
  }

  /**
   * After a successful evaluation a name has a value exactly when an argument
   * of that name was written, and its value is that of the last such argument,
   * nil included.
   */
  lemma {:induction false} EvalArgumentsValues(args: seq<Ast.Argument>, env: Env)
    requires EvalArguments(args, env).Ok?
    ensures var m := EvalArguments(args, env).value;
      forall name :: (name in m <==> LastSupplied(args, name).Some?) &&
                     (name in m ==> env.evaluate(LastSupplied(args, name).value) == Ok(m[name]))
  {
    if args != [] {
      EvalArgumentsValues(args[..|args| - 1], env);
    }
  }

  /**
   * Binding a use fails exactly when one of its explicit values fails to
   * evaluate or its name is not registered; an evaluation failure is
   * reported first, whatever the registry holds.
   */
  lemma BindFailures(d: Ast.Directive, registry: map<string, Directive>, env: Env)
    ensures BindDirective(d, registry, env).Err? <==>
      (exists j :: 0 <= j < |d.arguments| && env.evaluate(d.arguments[j].value).Err?) || d.name !in registry
    ensures (forall j :: 0 <= j < |d.arguments| ==> env.evaluate(d.arguments[j].value).Ok?) && d.name !in registry ==>
      BindDirective(d, registry, env) == Err(DirectiveNotFound(d.name))
    ensures (exists j :: 0 <= j < |d.arguments| && env.evaluate(d.arguments[j].value).Err?) ==>
      exists j :: 0 <= j < |d.arguments| &&
                  (forall k :: 0 <= k < j ==> env.evaluate(d.arguments[k].value).Ok?) &&
                  env.evaluate(d.arguments[j].value).Err? &&
                  BindDirective(d, registry, env) == Err(ArgumentValueError(env.evaluate(d.arguments[j].value).error))
  {
    EvalArgumentsFails(d.arguments, env);
  }

  /**
   * A bound use carries the use's name and one argument per definition
   * argument, in definition order, with the definition's name, Go name and
   * type, no default, and as value the last explicit value written for that
   * name (even a nil one) or else the definition's default.
   */
  lemma BoundArguments(d: Ast.Directive, registry: map<string, Directive>, env: Env)
    requires BindDirective(d, registry, env).Ok?
    ensures d.name in registry
    ensures var def, inst := registry[d.name], BindDirective(d, registry, env).value;
      && inst.name == d.name
      && |inst.args| == |def.args|
      && forall i :: 0 <= i < |def.args| ==>
        && inst.args[i].gqlName == def.args[i].gqlName
        && inst.args[i].goVarName == def.args[i].goVarName
        && inst.args[i].typeRef == def.args[i].typeRef
        && inst.args[i].default == Nil
        && (LastSupplied(d.arguments, def.args[i].gqlName).Some? ==>
              env.evaluate(LastSupplied(d.arguments, def.args[i].gqlName).value) == Ok(inst.args[i].value))
        && (LastSupplied(d.arguments, def.args[i].gqlName).None? ==> inst.args[i].value == def.args[i].default)
  {
    EvalArgumentsValues(d.arguments, env);
  }

  /** A use written without arguments takes every definition default. */
  lemma DefaultsWhenNoArguments(d: Ast.Directive, registry: map<string, Directive>, env: Env)
    requires d.arguments == [] && d.name in registry
    ensures BindDirective(d, registry, env).Ok?
    ensures var def, inst := registry[d.name], BindDirective(d, registry, env).value;
      |inst.args| == |def.args| &&
      forall i :: 0 <= i < |def.args| ==> inst.args[i].value == def.args[i].default
  {
  }

  /**
   * An explicit argument whose name the definition does not declare, and
   * whose value evaluates, changes nothing: shown for one appended last, an
   * instance of the general rule BoundArguments states (only names the
   * definition declares are looked up).
   */
  lemma UndeclaredIgnored(d: Ast.Directive, extra: Ast.Argument, registry: map<string, Directive>, env: Env)
    requires d.name in registry ==>
      forall i :: 0 <= i < |registry[d.name].args| ==> registry[d.name].args[i].gqlName != extra.name
    requires env.evaluate(extra.value).Ok?
    ensures BindDirective(Ast.Directive(d.name, d.arguments + [extra]), registry, env) == BindDirective(d, registry, env)
  {
    var args := d.arguments + [extra];
    assert args[..|args| - 1] == d.arguments;
    if EvalArguments(d.arguments, env).Ok? && d.name in registry {
      var values := EvalArguments(d.arguments, env).value;
      var values' := EvalArguments(args, env).value;
      var defArgs := registry[d.name].args;
      assert values' == values[extra.name := env.evaluate(extra.value).value];
      assert MapSeq(defArgs, ArgumentBinder(values')) == MapSeq(defArgs, ArgumentBinder(values));
    }
  }

  /**
   * An explicit argument is evaluated whether or not the definition declares
   * its name: when its value fails to evaluate, the use fails to bind.
   */
  lemma UndeclaredStillEvaluated(d: Ast.Directive, extra: Ast.Argument, registry: map<string, Directive>, env: Env)
    requires EvalArguments(d.arguments, env).Ok?
    requires env.evaluate(extra.value).Err?
    ensures BindDirective(Ast.Directive(d.name, d.arguments + [extra]), registry, env)
         == Err(ArgumentValueError(env.evaluate(extra.value).error))
  {
  }

  /**
   * Binding a site succeeds exactly when every use binds; then there is one
   * instance per use, in the order written, each named as its use.
   */
  lemma InstancesShape(list: seq<Ast.Directive>, registry: map<string, Directive>, env: Env)
    ensures Instances(list, registry, env).Ok? <==>
      forall i :: 0 <= i < |list| ==> BindDirective(list[i], registry, env).Ok?
    ensures Instances(list, registry, env).Ok? ==>
      var ds := Instances(list, registry, env).value;
      |ds| == |list| &&
      forall i :: 0 <= i < |list| ==>
        ds[i] == BindDirective(list[i], registry, env).value && ds[i].name == list[i].name
  {
    MapAllOk(list, Binder(registry, env));
  }

  /** A failing site reports the error of its first use that fails to bind. */
  lemma InstancesFail(list: seq<Ast.Directive>, registry: map<string, Directive>, env: Env)
    requires Instances(list, registry, env).Err?
    ensures exists i :: 0 <= i < |list| &&
                        (forall k :: 0 <= k < i ==> BindDirective(list[k], registry, env).Ok?) &&
                        BindDirective(list[i], registry, env) == Err(Instances(list, registry, env).error)
  {
    MapAllErr(list, Binder(registry, env));
  }

  /** The binder's loops: fill a preallocated array with one instance per use, returning on the first error. */
  method GetDirectives(list: seq<Ast.Directive>, registry: map<string, Directive>, env: Env) returns (r: Result<seq<Directive>, Error>)
    ensures r == Instances(list, registry, env)
    ensures r.Ok? ==> |r.value| == |list| && forall i :: 0 <= i < |list| ==> r.value[i].name == list[i].name
  {
    var dirs := new Directive[|list|];
    for i := 0 to |list|
      invariant forall k :: 0 <= k < i ==> BindDirective(list[k], registry, env) == Ok(dirs[k])
    {
      var d := list[i];
      var argValues: map<string, Value> := map[];
      for j := 0 to |d.arguments|
        invariant EvalArguments(d.arguments[..j], env) == Ok(argValues)
      {
        var da := d.arguments[j];
        assert d.arguments[..j + 1][..j] == d.arguments[..j];
        var val := env.evaluate(da.value);
        if val.Err? {
          EvalPrefixErr(d.arguments, j + 1, env);
          MapAllFirstErr(list, Binder(registry, env), i);
          return Err(ArgumentValueError(val.error));
        }
        argValues := argValues[da.name := val.value];
      }
      assert d.arguments[..|d.arguments|] == d.arguments;
      if d.name !in registry {
        MapAllFirstErr(list, Binder(registry, env), i);
        return Err(DirectiveNotFound(d.name));
      }
      var def := registry[d.name];
      var args: seq<FieldArgument> := [];
      for j := 0 to |def.args|
        invariant |args| == j
        invariant forall k :: 0 <= k < j ==> args[k] == BindArgument(def.args[k], argValues)
      {
        var a := def.args[j];
        var value := a.default;
        if a.gqlName in argValues {
          value := argValues[a.gqlName];
        }
        args := args + [FieldArgument(a.gqlName, a.typeRef, a.goVarName, Nil, value)];
      }
      assert args == MapSeq(def.args, ArgumentBinder(argValues));
      dirs[i] := Directive(d.name, args);
    }
    MapAllOk(list, Binder(registry, env));
    assert Instances(list, registry, env).value == dirs[..];
    return Ok(dirs[..]);
  }
}
