/** The `ReduceMethod` interface repeats the three built-in handlers of
    `ParseRule` line for line; its handlers are the `ParseRules` handlers,
    and this module adds its two shared handler constants. */
module ReduceMethods {
  import opened ParseNodes
  import opened ParseRules

  /** Passes the first symbol's value through. */
  const FirstElemPassthrough: Handler := Passthrough(0)
  /** Passes the whole symbol array through. */
  const AllPassthrough: Handler := Passthrough(PassAll)

  /** The first-element handler yields the first value (`null` for an empty
      rule); the all handler yields the whole array. */
  lemma PassthroughConstants(symbols: seq<Value>)
    ensures |symbols| > 0 ==> PassthroughReduce(FirstElemPassthrough.fieldIdx, symbols) == symbols[0]
    ensures |symbols| == 0 ==> PassthroughReduce(FirstElemPassthrough.fieldIdx, symbols) == Null
    ensures PassthroughReduce(AllPassthrough.fieldIdx, symbols) == Array(symbols)
  {
  }
}
