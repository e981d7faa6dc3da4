/**
 * The parsed schema as the directive code receives it from the GraphQL
 * parser: directive declarations and directive uses. Type expressions and
 * value expressions stay opaque; only their text is kept.
 */
module Ast {
  import opened Wrappers

  /** A GraphQL type expression as written in the schema (`String!`, `[Role]`). */
  type TypeExpr = string

  /** A GraphQL value expression as written in the schema, evaluated later without variables. */
  type ValueExpr = string

  /** One argument of a directive declaration: `role: Role = USER`. */
  datatype ArgumentDefinition = ArgumentDefinition(name: string, typ: TypeExpr, defaultValue: Option<ValueExpr>)

  /** `directive @name(arguments) on ...` */
  datatype DirectiveDefinition = DirectiveDefinition(name: string, arguments: seq<ArgumentDefinition>)

  /** One explicit argument at a use site: `role: ADMIN`. */
  datatype Argument = Argument(name: string, value: ValueExpr)

  /** One use of a directive at a schema element: `@hasRole(role: ADMIN)`. */
  datatype Directive = Directive(name: string, arguments: seq<Argument>)

  /**
   * The schema's directive declarations, keyed by name. The schema holds
   * them in a hash map whose iteration order is unspecified; here they are a
   * sequence in one such order.
   */
  type DirectiveDefinitions = seq<(string, DirectiveDefinition)>
}
