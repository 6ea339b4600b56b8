/** Option and Result, the engine's errors, as values. The PHP engine throws an
    exception for each of the errors below and aborts the statement; here every
    operation that can throw returns a Result instead. */
module Wrappers {

  datatype Option<+T> = None | Some(value: T)

  /** The exceptions core.php raises, one constructor per message kind. */
  datatype Error =
    | UnknownTable(table: string)          // "Table X does not exist"
    | UnknownColumn(column: string)        // "Column X does not exist"
    | AmbiguousColumn(column: string)      // "Column X is ambigious"
    | UnknownTableOrAlias(prefix: string)  // "Table or alias X does not exist"
    | UnknownAlias(alias: string)          // "Unknown alias: X"
    | UnknownOperator(op: string)          // "unknown operator X"
    | UnsupportedExpression                // "Unknown expression: ..." / "unknown column: ..."
    | UnknownFunction(name: string)        // a func<Name> method that does not exist
    | FunctionNotModelled(name: string)    // a clock, date or float function of the source
    | BadArguments(name: string)           // a scalar function given arguments PHP rejects
    | DivisionByZero                       // AVG over a parent row without keys
    | AliasCycle                           // a select alias that refers back to itself

  datatype Result<+T> = Ok(value: T) | Err(error: Error) {
    predicate IsFailure() { Err? }
    function PropagateFailure<U>(): Result<U>
      requires Err?
    {
      Err(error)
    }
    function Extract(): T
      requires Ok?
    {
      value
    }
  }

  /** A prefix of a prefix is the shorter prefix. */
  lemma PrefixOfPrefix<T>(s: seq<T>, n: nat, k: nat)
    requires k <= n <= |s|
    ensures s[..n][..k] == s[..k]
  {
  }
}
