/**
 * The code generator's view of directives (codegen/directive.go): the
 * `Directive` record, the `FieldArgument` records it holds, the errors that
 * building and binding can raise, and the collaborators this code calls but
 * does not define.
 */
module Codegen {
  import opened Wrappers
  import Ast

  /** An evaluated GraphQL value. Opaque apart from whether it is nil. */
  datatype Value = Nil | Literal(repr: string)

  /** A Go type, by its qualified name. */
  type GoType = string

  /**
   * What the type binder resolves an argument's GraphQL type to: its Go type,
   * whether generated code passes it by pointer (the type is nullable), and
   * whether its GraphQL definition is an input type (scalar, enum or input object).
   */
  datatype TypeRef = TypeRef(goType: GoType, isPtr: bool, isInput: bool)

  /**
   * A directive argument. On a definition `value` is Nil and `default` holds
   * the declared default; on a bound instance `value` holds the resolved value
   * and `default` is Nil (the binder does not copy it).
   */
  datatype FieldArgument = FieldArgument(
    gqlName: string,
    typeRef: TypeRef,
    goVarName: string,
    default: Value,
    value: Value)

  /** A directive definition or a bound instance: a name and its arguments in declaration order. */
  datatype Directive = Directive(name: string, args: seq<FieldArgument>)

  /** The errors of building and binding, with the values their messages are formatted from. */
  datatype Error =
    | DuplicateDirectiveName(name: string)
    | InvalidArgumentType(typ: Ast.TypeExpr, directive: string, argument: string)
    | InvalidDefaultValue(directive: string, argument: string, message: string)
    | ArgumentValueError(message: string)
    | DirectiveNotFound(name: string)

  /**
   * The collaborators the directive code calls: the type binder
   * (`getType`), value evaluation without variables (`evaluate`), and the
   * template helpers for naming, type lookup, literal rendering, upper-casing
   * the first letter and Go string quoting.
   */
  datatype Env = Env(
    getType: Ast.TypeExpr -> TypeRef,
    evaluate: Ast.ValueExpr -> Result<Value, string>,
    toGoPrivate: string -> string,
    lookupType: GoType -> string,
    dump: Value -> string,
    ucFirst: string -> string,
    quote: string -> string)

  /** The directives GraphQL defines itself, which get no generated code. */
  predicate IsBuiltin(name: string)
  {
    name == "skip" || name == "include" || name == "deprecated"
  }
}
