/** Outcome of a compilation step: a value, or the `panic!` that aborts the
    macro expansion. */
module Outcome {
  datatype Result<T> = Ok(value: T) | Panic(message: string)
}

/** The slice of the compiler host's syntax tree that the binding compiler
    builds: identifiers, patterns, expressions, `let` statements and the
    result handed back to the macro expander. */
module Ast {
  /** An identifier: either one the user wrote, or one made by the host's
      gensym from a base text and a counter value.  A gensym'd identifier is
      never equal to a user identifier, even when the texts agree. */
  datatype Name = User(text: string) | Gensym(base: string, id: nat)

  /** The field key token; only ever passed through to the field accessor. */
  type Key = string

  /** Patterns: a single identifier binding, or a tuple of patterns. */
  datatype Pat = PIdent(name: Name) | PTuple(elems: seq<Pat>)

  /** Expressions.  `EGet(obj, key)` stands for the accessor the field
      accessor helper builds for field `key` on message `obj` (always in its
      by-value, non-repeated mode); `EBlock(binder, init, body)` is the block
      `{ let binder = init; body }`. */
  datatype Expr =
    | EVar(name: Name)
    | EGet(obj: Expr, key: Key)
    | ETuple(elems: seq<Expr>)
    | EBlock(binder: Name, init: Expr, body: Expr)

  /** `let pat = init;` with no type annotation and no attributes. */
  datatype Stmt = SLet(pat: Pat, init: Expr)

  /** What a macro expansion returns: statements to splice in, or the inert
      placeholder the host uses after it has reported an error. */
  datatype MacResult = Stmts(stmts: seq<Stmt>) | DummyAny
}

/** The field specification the macro's parser produces. */
module Parser {
  import opened Ast

  /** How one field is bound: directly to a user identifier, by recursively
      destructuring a nested message, or as a repeated field (which the
      binding compiler does not support; its payload is never inspected). */
  datatype Value = SingleValue(ident: string) | MessageValue(msg: Message) | RepeatedValue

  datatype Field = Field(key: Key, value: Value)

  /** An ordered list of fields; the order fixes the tuple layout. */
  datatype Message = Message(fields: seq<Field>)

  /** What the parser returns: the source expression and the specification,
      or a parse error the host has already reported. */
  datatype Parsed = Parsed(expr: Expr, msg: Message) | ParseError
}
