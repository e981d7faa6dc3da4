/**
 * The emitters (codegen/directive.go:100-148): text fragments the
 * templates paste into generated Go code, built from a directive's argument
 * list without changing it.
 */
module Emit {
  import opened Wrappers
  import opened Sequences
  import Ast
  import opened Codegen
  import Bind

  /** Go's strings.Join. */
  function Join(parts: seq<string>, sep: string): string
  {
    if |parts| == 0 then ""
    else if |parts| == 1 then parts[0]
    else parts[0] + sep + Join(parts[1..], sep)
  }

  /** Each part preceded by the separator, as a `res +=` loop produces it. */
  function Prefixed(parts: seq<string>, sep: string): string
  {
    if parts == [] then "" else sep + parts[0] + Prefixed(parts[1..], sep)
  }

  /**
   * The name of the generated argument-parsing helper: none when there is
   * nothing to parse; otherwise `dir_<name>_args`, from which the directive's
   * name can be read back.
   */
  function ArgsFunc(d: Directive): (r: string)
    ensures r == "" <==> d.args == []
    ensures d.args != [] ==>
      && |r| == |d.name| + 9
      && r[..4] == "dir_"
      && r[4..|r| - 5] == d.name
      && r[|r| - 5..] == "_args"
  {
    if |d.args| == 0 then "" else "dir_" + d.name + "_args"
  }

  function CallArgToken(a: FieldArgument, env: Env): string
  {
    "args[" + env.quote(a.gqlName) + "].(" + env.lookupType(a.typeRef.goType) + ")"
  }

  function CallArgTokens(args: seq<FieldArgument>, env: Env): seq<string>
  {
    MapSeq(args, a => CallArgToken(a, env))
  }

  /** The arguments of a call that takes the directive's arguments out of an untyped map. */
  function CallArgs(d: Directive, env: Env): string
  {
    Join(["ctx", "obj", "n"] + CallArgTokens(d.args, env), ", ")
  }

  /**
   * The value passed for one argument down the resolver chain: a rendered
   * literal for a non-pointer argument (the value, else the default); for a
   * pointer argument `nil` when there is neither, else the address of its
   * Go variable.
   */
  function ResolveArgToken(a: FieldArgument, env: Env): string
  {
    if !a.typeRef.isPtr then
      (if a.value != Nil then env.dump(a.value) else env.dump(a.default))
    else if a.value == Nil && a.default == Nil then "nil"
    else "&" + a.goVarName
  }

  function ResolveArgTokens(args: seq<FieldArgument>, env: Env): seq<string>
  {
    MapSeq(args, a => ResolveArgToken(a, env))
  }

  /** The arguments of the call that runs this directive around the resolver `next`. */
  function ResolveArgs(d: Directive, obj: string, next: string, env: Env): string
  {
    Join(["ctx", obj, next] + ResolveArgTokens(d.args, env), ", ")
  }

  function DeclarationToken(a: FieldArgument, env: Env): string
  {
    a.goVarName + " " + env.lookupType(a.typeRef.goType)
  }

  function DeclarationTokens(args: seq<FieldArgument>, env: Env): seq<string>
  {
    MapSeq(args, a => DeclarationToken(a, env))
  }

  /** The parameters every directive implementation takes before its own: context, object, next resolver. */
  const FixedParameters: seq<string> := ["ctx context.Context", "obj interface{}", "next graphql.Resolver"]

  /**
   * The signature a user's implementation of the directive must have:
   * `<Name> func(ctx context.Context, obj interface{}, next graphql.Resolver`,
   * then `, <go name> <type>` per argument, then the result pair.
   */
  function Declaration(d: Directive, env: Env): string
  {
    env.ucFirst(d.name) + " func(" + Join(FixedParameters, ", ")
      + Prefixed(DeclarationTokens(d.args, env), ", ")
      + ") (res interface{}, err error)"
  }

  /** A non-empty join is its first part followed by every other part, each after the separator. */
  lemma {:induction false} JoinFirst(parts: seq<string>, sep: string)
    requires |parts| >= 1
    ensures Join(parts, sep) == parts[0] + Prefixed(parts[1..], sep)
  {
    if |parts| > 1 {
      JoinFirst(parts[1..], sep);
      assert parts[1..][1..] == parts[2..];
    }
  }

  /** Joining a fixed non-empty head with more parts appends each further part after the separator. */
  lemma {:induction false} JoinAfter(head: seq<string>, parts: seq<string>, sep: string)
    requires |head| >= 1
    ensures Join(head + parts, sep) == Join(head, sep) + Prefixed(parts, sep)
  {
    if |head| == 1 {
      if parts != [] {
        JoinFirst(parts, sep);
        assert (head + parts)[1..] == parts;
      } else {
        assert head + parts == head;
      }
    } else {
      JoinAfter(head[1..], parts, sep);
      assert (head + parts)[1..] == head[1..] + parts;
    }
  }

  /**
   * CallArgs is `ctx, obj, n` followed, for each argument in order, by one
   * `, args["<quoted name>"].(<type>)`.
   */
  lemma CallArgsLayout(d: Directive, env: Env)
    ensures CallArgs(d, env) == "ctx, obj, n" + Prefixed(CallArgTokens(d.args, env), ", ")
    ensures |CallArgTokens(d.args, env)| == |d.args|
    ensures forall i :: 0 <= i < |d.args| ==>
      CallArgTokens(d.args, env)[i] ==
        "args[" + env.quote(d.args[i].gqlName) + "].(" + env.lookupType(d.args[i].typeRef.goType) + ")"
  {
    JoinAfter(["ctx", "obj", "n"], CallArgTokens(d.args, env), ", ");
  }

  /**
   * ResolveArgs is `ctx, <obj>, <next>` followed by one token per argument in
   * order: the resolver it wraps always stands third.
   */
  lemma ResolveArgsLayout(d: Directive, obj: string, next: string, env: Env)
    ensures ResolveArgs(d, obj, next, env) == "ctx, " + obj + ", " + next + Prefixed(ResolveArgTokens(d.args, env), ", ")
    ensures |ResolveArgTokens(d.args, env)| == |d.args|
    ensures forall i :: 0 <= i < |d.args| ==> ResolveArgTokens(d.args, env)[i] == ResolveArgToken(d.args[i], env)
  {
    var head := ["ctx", obj, next];
    JoinAfter(head, ResolveArgTokens(d.args, env), ", ");
    assert head[1..] == [obj, next] && head[1..][1..] == [next];
    assert Join([next], ", ") == next;
    assert Join(head[1..], ", ") == obj + ", " + next;
    assert Join(head, ", ") == "ctx" + ", " + (obj + ", " + next);
  }

  /** The fixed parameters read as in the generated source. */
  lemma FixedParametersText()
    ensures Join(FixedParameters, ", ") == "ctx context.Context, obj interface{}, next graphql.Resolver"
  {
    assert FixedParameters[1..] == ["obj interface{}", "next graphql.Resolver"];
    assert FixedParameters[1..][1..] == ["next graphql.Resolver"];
  }

  /**
   * The declaration's parameter list is the three fixed parameters and then
   * one `<go name> <type>` per argument in order, joined by commas.
   */
  lemma DeclarationLayout(d: Directive, env: Env)
    ensures Declaration(d, env) ==
      env.ucFirst(d.name) + " func("
        + Join(FixedParameters + DeclarationTokens(d.args, env), ", ")
        + ") (res interface{}, err error)"
    ensures |DeclarationTokens(d.args, env)| == |d.args|
    ensures forall i :: 0 <= i < |d.args| ==>
      DeclarationTokens(d.args, env)[i] == d.args[i].goVarName + " " + env.lookupType(d.args[i].typeRef.goType)
  {
    JoinAfter(FixedParameters, DeclarationTokens(d.args, env), ", ");
  }

  /**
   * On a bound instance, where no default is kept, a non-pointer argument
   * renders its value and a pointer argument is `nil` exactly when its value is nil.
   */
  lemma BoundTokens(d: Ast.Directive, registry: map<string, Directive>, env: Env)
    requires Bind.BindDirective(d, registry, env).Ok?
    ensures var inst := Bind.BindDirective(d, registry, env).value;
      forall i :: 0 <= i < |inst.args| ==>
        ResolveArgToken(inst.args[i], env) ==
          if !inst.args[i].typeRef.isPtr then env.dump(inst.args[i].value)
          else if inst.args[i].value == Nil then "nil"
          else "&" + inst.args[i].goVarName
  {
  }

  /**
   * An explicit `null` for a pointer argument is passed as `nil` even when
   * the definition declares a default.
   */
  lemma ExplicitNullOverridesDefault(d: Ast.Directive, registry: map<string, Directive>, env: Env, i: nat)
    requires Bind.BindDirective(d, registry, env).Ok?
    requires d.name in registry && i < |registry[d.name].args|
    requires registry[d.name].args[i].typeRef.isPtr
    requires Bind.LastSupplied(d.arguments, registry[d.name].args[i].gqlName).Some?
    requires env.evaluate(Bind.LastSupplied(d.arguments, registry[d.name].args[i].gqlName).value) == Ok(Nil)
    ensures ResolveArgToken(Bind.BindDirective(d, registry, env).value.args[i], env) == "nil"
  {
    Bind.BoundArguments(d, registry, env);
  }

  /**
   * An argument left out at the use site is passed from the definition's
   * default: rendered when not a pointer; `nil` or the variable's address
   * when a pointer, as the default is nil or not.
   */
  lemma OmittedUsesDefault(d: Ast.Directive, registry: map<string, Directive>, env: Env, i: nat)
    requires Bind.BindDirective(d, registry, env).Ok?
    requires d.name in registry && i < |registry[d.name].args|
    requires Bind.LastSupplied(d.arguments, registry[d.name].args[i].gqlName).None?
    ensures var def := registry[d.name].args[i];
      ResolveArgToken(Bind.BindDirective(d, registry, env).value.args[i], env) ==
        if !def.typeRef.isPtr then env.dump(def.default)
        else if def.default == Nil then "nil"
        else "&" + def.goVarName
  {
    Bind.BoundArguments(d, registry, env);
  }
}
