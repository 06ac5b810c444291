/**
 * The syntax tree the evaluator walks. The lexer and parser that build it
 * are not part of this model; each constructor stands for one token class
 * of the C++ tree (value_token, identifier_token, binary_operator_token,
 * conditional_token, ...). Numbers are integers (see Objects.Value).
 */
module Syntax {
  import opened Errors

  /** The operator tokens of the language (TOK_MINUS ... TOK_CARET). */
  datatype Op =
    | Minus | Not | Increment | Decrement
    | Equals | NotEqual | More | Less | MoreEqual | LessEqual
    | Or | And | Plus | Asterisk | Slash | Modulus | Caret
    | OtherOp   // any token that is not an operator

  /**
   * What a value token carries: a scalar, or a string (value(const char*),
   * an array of characters).
   */
  datatype Literal = NullLit | NumberLit(n: int) | CharLit(c: char) | StringLit(text: string)

  /** A modifier of an identifier: `.name` (TOK_PROPERTY) or `[e]` (TOK_INDEX). */
  datatype Modifier = Property(name: string) | Index(index: Expr)

  /** Expression tokens, as getValue dispatches on them. */
  datatype Expr =
    | Value(lit: Literal)                                 // TOK_VALUE
    | Identifier(name: string, modifiers: seq<Modifier>)  // TOK_IDENTIFIER
    | Reference(target: Expr)                             // TOK_REFRENCE
    | UnaryOp(op: Op, operand: Expr)                      // TOK_UNIARY_OP
    | BinaryOp(op: Op, left: Expr, right: Expr)           // TOK_BINARY_OP
    | NewStruct(name: string)                             // TOK_NEW_STRUCT
    | CreateArray(items: seq<Expr>)                       // TOK_CREATE_ARRAY
    | CallFunction(name: string, args: seq<Expr>)         // TOK_CALL_FUNCTION
    | OtherExpr                                           // any other token

  /**
   * One link of an if-chain (a conditional_token): a condition, or None
   * for `else`, and the block it guards.
   */
  datatype Conditional = Conditional(condition: Option<Expr>, body: seq<Stmt>)

  /** Statement tokens, as execute dispatches on them. */
  datatype Stmt =
    | SetVariable(name: string, modifiers: seq<Modifier>, global: bool, value: Expr) // TOK_SET_VARIABLE
    | Return(result: Option<Expr>)                                  // TOK_RETURN
    | Break                                                         // TOK_BREAK
    | If(chain: seq<Conditional>)                                   // TOK_IF
    | While(condition: Expr, body: seq<Stmt>)                       // TOK_WHILE
    | For(name: string, over: Expr, body: seq<Stmt>)                // TOK_FOR
    | CallStatement(name: string, args: seq<Expr>)                  // TOK_CALL_FUNCTION
    | UnaryStatement(op: Op, operand: Expr)                          // TOK_UNIARY_OP
    | FunctionProto(name: string, params: seq<string>, body: seq<Stmt>) // TOK_FUNCTION_PROTO
    | StructProto(name: string, properties: seq<string>)            // TOK_STRUCT_PROTO
    | OtherStmt                                                     // any other token

  /** A function_prototype as the registry keeps it. */
  datatype Function = Function(params: seq<string>, body: seq<Stmt>)

  /** The names getValue handles itself when no user function has them. */
  predicate IsBuiltin(name: string) {
    name in ["input", "print", "printl", "len", "array", "clone", "abort", "stop"]
  }
}
