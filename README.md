# Directive code generation for gqlgen, modelled in Dafny

This project models `codegen/directive.go` of gqlgen, the GraphQL server generator for Go. GraphQL directives
(section 3.13 of the GraphQL specification, June 2018) are named annotations such as `@hasRole(role: ADMIN)`. At run time
the generated server wraps a field's resolver in one call per directive. The file has three parts, and each is a module here:

- **Build** (`buildDirectives`): turns the schema's `directive @name(...)` declarations into a registry of `Directive`
  definitions. It rejects a name seen twice and skips the built-ins `skip`, `include` and `deprecated`. It resolves
  each argument's type, rejects types that are not input types, and evaluates declared defaults.
- **Bind** (`getDirectives`): turns the directive uses written at one schema element into `Directive` instances, one per
  use and in use order. Each instance has one argument per definition argument, in definition order. An argument takes
  the explicit value written at the use site, or the definition's default when none was written.
- **Emit** (`ArgsFunc`, `CallArgs`, `ResolveArgs`, `Declaration`): the Go text fragments the templates paste into the
  generated code.

Supporting modules:

- `Wrappers` holds `Option` and `Result`.
- `Sequences` holds the two loop shapes the file is made of: map every element, or map every element and stop at the
  first error.
- `Ast` holds the parser's declarations and uses.
- `Codegen` holds the records and the error type. It also holds `Env`, the record of collaborators.

The loops of `buildDirectives` and `getDirectives` are methods. `Build.BuildDirectives` fills a map. `Bind.GetDirectives` fills a
preallocated array. Each is proved equal to a function: `Build.Registry` for the first, `Bind.Instances` for the second.
The lemmas state their properties about those functions. The emitters only accumulate strings, so they are functions.

Calls into code outside this file are fields of `Codegen.Env` and are otherwise unconstrained:

- the type binder's `getType`, which yields a `TypeRef` carrying the Go type, the `IsPtr` flag and the input-type flag;
- `Value(nil)` evaluation;
- `ToGoPrivate`, `LookupType`, `Dump`, `ucFirst` and `strconv.Quote`.

Evaluated values are opaque apart from being nil or not.

Four behaviours of the code are kept as written:

- An argument's value is a nullable value, as in the code: an explicit null and an omitted argument with no default
  both bind to nil.
- A use that leaves a non-pointer argument with neither a value nor a default is not rejected. It renders `Dump(nil)`.
- The built-in names are skipped only after the duplicate check. So repeated built-in declarations are never
  reported (`Build.BuiltinsIgnored`).
- Arguments written at a use site are all evaluated, including those the definition does not declare. An evaluation
  failure in one of them fails the bind (`Bind.UndeclaredStillEvaluated`).

## Model

| member | source | states |
|---|---|---|
| Build.BuildDirectives | codegen/directive.go:18-59 | the builder's loops return exactly the registry the declarations define, first error included; on success no key is a built-in name and every entry is named by its key |
| Build.ArgumentsBuilt | codegen/directive.go:29-50 | building a declaration's arguments succeeds iff every argument has an input type and a default that evaluates; then one argument per declaration in declared order, with the declared name, the resolved type, `GoVarName = ToGoPrivate(name)`, no value, and the evaluated default or nil when none is declared |
| Build.ArgumentsRejected | codegen/directive.go:38-47 | a failing argument build reports the first invalid argument: "not an input type" (checked first) or "default value is not valid" with the evaluator's message, naming the directive and the argument |
| Build.RegistryKeys | codegen/directive.go:21-55 | a built registry holds no `skip`, `include` or `deprecated`; every entry's `Name` equals its key; every key is a declared name |
| Build.RegistryEntries | codegen/directive.go:29-55 | every user-declared name is in a built registry, with the arguments built from its declaration |
| Build.RegistryUnique | codegen/directive.go:21-24 | a successful build saw no user-declared name twice |
| Build.RegistrySucceeds | codegen/directive.go:21-58 | the build succeeds iff no user-declared name is declared twice and every user declaration's arguments build |
| Build.DuplicateReported | codegen/directive.go:22-24 | a user-declared name declared again after a clean prefix fails the build with "directive with name … already exists" |
| Build.BuiltinsIgnored | codegen/directive.go:22-27 | the registry is the same with every built-in declaration dropped, so a repeated built-in is never reported |
| Build.DistinctNamesNoDuplicate | codegen/directive.go:21-24 | declarations with distinct keys, as a Go map has, never fail with the duplicate error |
| Build.OrderIrrelevant | codegen/directive.go:21-56 | when one iteration order of the declarations builds, every other order of the same declarations builds too, to the same registry |
| Build.ArgumentErrorReported | codegen/directive.go:29-48 | a new user declaration with an invalid argument, after a prefix that built cleanly, fails the whole build with that argument's error (`InvalidArgumentType` or `InvalidDefaultValue`, as `Build.ArgumentsRejected` says which) |
| Bind.GetDirectives | codegen/directive.go:61-98 | the binder's loops return exactly the instances the uses define, first error included; on success one instance per use, named as the use, in use order |
| Bind.EvalArgumentsFails | codegen/directive.go:65-71 | a use's explicit values evaluate iff each one does; a failure is the first failing value's error |
| Bind.EvalArgumentsValues | codegen/directive.go:64-71 | after evaluation a name has a value iff an argument of that name was written, and the value is that of the last one, nil included |
| Bind.BindFailures | codegen/directive.go:65-75 | binding a use fails iff an explicit value fails to evaluate or the name is not registered; the evaluation error wins over "directive … not found" whatever the registry holds |
| Bind.BoundArguments | codegen/directive.go:77-93 | an instance has the use's name and one argument per definition argument in definition order, copying `GQLName`, `GoVarName` and the type, with no `Default`, and with the last written value if the name was supplied (even nil) or else the definition's default |
| Bind.DefaultsWhenNoArguments | codegen/directive.go:78-82 | a registered use written without arguments binds, and every argument takes its definition's default |
| Bind.UndeclaredIgnored | codegen/directive.go:78-82 | an undeclared argument whose value evaluates, appended to a use, does not change the binding result, whether or not the name is registered |
| Bind.UndeclaredStillEvaluated | codegen/directive.go:65-69 | an undeclared argument whose value fails to evaluate, appended to a use whose own arguments evaluate, fails the bind with that evaluation error |
| Bind.InstancesShape | codegen/directive.go:62-95 | binding a site succeeds iff every use binds; then exactly one instance per use, in order, named as its use |
| Bind.InstancesFail | codegen/directive.go:63-75 | a failing site reports the error of its first use that fails |
| Emit.ArgsFunc | codegen/directive.go:100-106 | the helper name is empty iff there are no arguments; otherwise it is `dir_`, the directive's name and `_args`, so the name reads back from it |
| Emit.CallArgsLayout | codegen/directive.go:108-116 | `CallArgs` is `ctx, obj, n` then one `, args[Quote(GQLName)].(LookupType(GoType))` per argument, in argument order |
| Emit.ResolveArgsLayout | codegen/directive.go:118-137 | `ResolveArgs` is `ctx, <obj>, <next>` then one token per argument in order: the wrapped resolver always stands third |
| Emit.FixedParametersText | codegen/directive.go:140 | the fixed parameters join to `ctx context.Context, obj interface{}, next graphql.Resolver` |
| Emit.DeclarationLayout | codegen/directive.go:139-148 | the declaration is `ucFirst(Name) func(` then the fixed parameters and one `GoVarName LookupType(GoType)` per argument in order, comma-joined, then `) (res interface{}, err error)` |
| Emit.BoundTokens | codegen/directive.go:121-131 | on a bound instance, which keeps no default, a non-pointer argument renders `Dump(Value)` and a pointer argument is `nil` iff its value is nil, else `&GoVarName` |
| Emit.ExplicitNullOverridesDefault | codegen/directive.go:121-131 | an explicit null for a pointer argument is passed as `nil` even when the definition declares a default |
| Emit.OmittedUsesDefault | codegen/directive.go:121-131 | an argument left out at the use site is passed from the definition's default: `Dump(Default)` if not a pointer, else `nil` or `&GoVarName` as that default is nil or not |

## Left out

- Error messages are the constructors of `Codegen.Error`. Each carries the values its message is formatted from; the
  formatted text is not modelled.
- Schema parsing, value evaluation, type resolution and the template helpers are not defined here. They are fields of
  `Codegen.Env`, and nothing is assumed about what they return.
- Go's map iteration order is unspecified. The schema's declarations are a sequence in one such order.
  `Build.OrderIrrelevant` shows that success and the registry do not depend on it; which error a failing build
  reports can.
- The source passes `*Directive` and `*FieldArgument` pointers around. They are values here. No directive or argument
  is changed after it is stored, so no aliasing is observable.
- How the templates nest the `ResolveArgs` calls of a site's directives into a chain is not part of this model. Neither
  are file output and run-time execution of the generated resolvers. `Emit.ResolveArgsLayout` states only that the
  given `next` stands third.
- Building twice from the same input giving the same registry needs no lemma: every function here is deterministic.
