/** Failure-compatible wrappers and the error tags raised by the library.
    Every `throw new Error(...)` of the modelled code becomes an `Err` carrying
    one of the tags below; the tags follow the messages of
    lib/structured/errorMessages.js and of the orchestrators. */
module Wrappers {

  /** JS `null`/`undefined` versus a present value. */
  datatype Option<+T> = None | Some(value: T)

  datatype Error =
    | InvalidAlphabetEmpty          // 'invalid argument, alphabet cannot be empty'
    | InvalidCharacter              // 'invalid argument, input character not found in alphabet'
    | InvalidInputChar(ch: char)    // 'invalid character found in the input:' / 'Invalid input char:'
    | InvalidInputLength            // 'invalid input length' (cipher) and 'Invalid input len' (dataset)
    | InvalidSourceLength           // 'invalid source length'
    | InvalidTweak                  // 'invalid tweak'
    | InvalidTweakLength            // 'invalid tweak length'
    | KeySize(size: nat)            // 'key size error: <n>'
    | MinTextLengthRange            // 'minimum text length out of range'
    | StringExceeds                 // 'string exceeds desired length'
    | MissingKey                    // 'invalid or missing key'
    | CouldNotLoad(name: string)    // 'Could not load FfsName: ...' / 'Could not load Fpe for: ...'
    | InvalidBillingAction          // "Billing action: '...' is not valid"
    | InvalidBillingType            // "Billing dataset_type: '...' is not valid"
    | TypeError                     // a JS TypeError (property of undefined, result of a void call)
    | Hangs                         // the JS loop never terminates on this input
    | Upstream(reason: string)      // an error raised by a collaborator that is not modelled

  datatype Result<+T> = Ok(value: T) | Err(error: Error) {
    predicate IsFailure() {
      Err?
    }

    function PropagateFailure<U>(): Result<U>
      requires Err?
    {
      Err(error)
    }

    function Extract(): T
      requires Ok?
    {
      value
    }
  }

  /** Success-less check: `:- Need(cond, e)` fails with `e` unless `cond`. */
  datatype Outcome = Pass | Fail(error: Error) {
    predicate IsFailure() {
      Fail?
    }

    function PropagateFailure<U>(): Result<U>
      requires Fail?
    {
      Err(error)
    }
  }

  function Need(condition: bool, error: Error): (o: Outcome)
  {
    if condition then Pass else Fail(error)
  }
}
