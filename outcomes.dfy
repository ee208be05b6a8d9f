/** Optional values, the exceptions a DictTuple raises, and results that carry them. */
module Outcomes {

  datatype Option<T> = None | Some(value: T)

  /** One constructor per kind of exception the class raises. */
  datatype Error =
    | NoDictionaries          // AssertionError: the constructor got no arguments
    | NoNonEmptyDictionaries  // AssertionError: every argument was falsy
    | NotADictionary          // AssertionError: a truthy argument is not a dict
    | KeyNotFound(key: int)   // KeyError: no layer holds the key
    | UnsupportedOperand      // TypeError: `+` with an operand that is neither dict nor DictTuple

  datatype Result<T> = Ok(value: T) | Err(error: Error)
}
