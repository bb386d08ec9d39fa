/** Shared datatypes of the calculator core: tokens, symbolic values, results and errors. */
module Model {

  datatype Option<T> = None | Some(value: T)

  /** The `Result<_, String>` of the source, with the message strings replaced by an error datatype. */
  datatype Result<T> = Ok(value: T) | Err(error: Error)

  /** The `Result<(), String>` returned by `apply_operator`. */
  datatype Outcome = Pass | Fail(error: Error)

  /** One constructor per error message of the source. */
  datatype Error =
    | InvalidNumberFormat                 // "Invalid number format"
    | UnexpectedCharacterAfterMinus       // "Unexpected character after '-'"
    | UnexpectedEndAfterMinus             // "Unexpected end of input after '-'"
    | UnexpectedCharacter(ch: char)       // "Unexpected character: {ch}"
    | UnknownConstant(name: string)       // "Unknown constant: {name}"
    | UnknownFunction(name: string)       // "Unknown function: {name}"
    | MismatchedParentheses               // "Mismatched parentheses"
    | InvalidExpression                   // "Invalid expression"
    | InsufficientValues                  // "Insufficient values in expression"
    | UnexpectedOperator(op: char)        // "Unexpected operator: {op}"
    | TooManySides                        // "Can only compare 2 equations"
    | ComparisonFailed                    // "Comparison Failed"

  /**
   * A symbolic `f64`. Instead of computing floating-point numbers the model
   * keeps the expression that the source would compute:
   *   Lit(s)            the float that Rust's `str::parse::<f64>` yields for the lexeme s
   *   Pi, Euler         `std::f64::consts::PI` and `std::f64::consts::E`
   *   Binary(op, a, b)  `a op b` for op one of + - * / ^ (`^` is `a.powf(b)`)
   *   Call(f, a)        the library function f (sin, cos, ..., exp) applied to a
   */
  datatype Value =
    | Lit(lexeme: string)
    | Pi
    | Euler
    | Binary(op: char, lhs: Value, rhs: Value)
    | Call(name: string, arg: Value)

  /** The `0.0` that the comparison layer passes as `ans` to both sides. */
  const Zero: Value := Lit("0.0")

  datatype Token =
    | Number(num: Value)
    | Operator(op: char)
    | LeftParen
    | RightParen
    | Constant(name: string)
    | Function(name: string)

  /**
   * `EvalResult` of the source. `Comp(c, l, r)` stands for the boolean
   * `l c r` (c one of = < >) that the source computes with the derived
   * `PartialEq`/`PartialOrd`; that comparison itself is not modelled.
   */
  datatype EvalResult =
    | Num(value: Value)
    | Comp(comparator: char, lhs: EvalResult, rhs: EvalResult)

  /** The five binary operator characters the tokenizer emits and `apply_operator` knows. */
  predicate IsOperatorChar(c: char) {
    c == '+' || c == '-' || c == '*' || c == '/' || c == '^'
  }
}
