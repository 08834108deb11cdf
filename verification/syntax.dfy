/**
  The slice of the C# syntax tree that the attribute helpers read, as plain
  values. Each field holds what the corresponding Roslyn accessor returns;
  how the parser computes it is outside the model.
*/
module Syntax {
  import opened Wrappers

  /** The `SyntaxKind` of a literal expression. */
  datatype LiteralKind =
    | TrueLiteral | FalseLiteral | NumericLiteral | StringLiteral
    | Utf8StringLiteral | CharacterLiteral | NullLiteral | DefaultLiteral | ArgListLiteral

  /**
    An argument's expression. `text` is the expression's full text as
    `GetText()` returns it, surrounding trivia included. Any expression that is
    not a `LiteralExpressionSyntax` (an identifier, `typeof(...)`, `nameof(...)`,
    a member access, a negated number `-1`) is a `NonLiteral`.
  */
  datatype Expr = Literal(kind: LiteralKind, text: string) | NonLiteral(text: string)

  /**
    An `AttributeArgumentSyntax`. `nameEquals` is the full text of the
    `Name =` clause, trivia included, when there is one; positional arguments
    and colon-named arguments (`x: 1`) have none.
  */
  datatype Argument = Argument(nameEquals: Option<string>, expr: Expr)

  /** The name an attribute is written with. Only `Identifier` is a simple name. */
  datatype Name =
    | Identifier(valueText: string)
    | Generic(valueText: string, typeArguments: seq<string>)
    | Qualified(left: string, right: string)
    | AliasQualified(alias: string, right: string)

  /** An `AttributeSyntax`: its name and, when written with parentheses, its argument list. */
  datatype Attribute = Attribute(name: Name, argumentList: Option<seq<Argument>>)

  /** One bracketed list `[A, B]`. */
  datatype AttributeList = AttributeList(attributes: seq<Attribute>)

  /** A `TypeDeclarationSyntax`, of which only the attribute lists are read. */
  datatype TypeDeclaration = TypeDeclaration(attributeLists: seq<AttributeList>)
}
