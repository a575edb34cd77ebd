/** Failure-compatible results shared by every module, and the error kinds of the two crates. */
module Wrappers {

  datatype Option<+T> = None | Some(value: T) {
    predicate IsFailure() { None? }

    function PropagateFailure<U>(): Option<U>
      requires None?
    {
      None
    }

    function Extract(): T
      requires Some?
    {
      value
    }

    function UnwrapOr(default: T): T {
      if Some? then value else default
    }
  }

  /** One constructor per error variant that the modelled code can return.  `Panicked` is a
      call that panics instead of returning; `Unreachable` is an `unreachable!` arm. */
  datatype Error =
    | ParseSfv
    | InvalidComponentName
    | InvalidComponentParam
    | InvalidComponentId
    | InvalidComponent
    | InvalidSignatureParams
    | BuildSignatureHeader
    | BuildSignatureBase
    | ExpiredSignatureParams
    | NotYetImplemented
    | NoSignatureHeaders
    | InvalidSignature
    | InvalidHeaderValue
    | HeaderToStr
    | SigningFailed
    | NoDigestHeader
    | InvalidContentDigest
    | Panicked
    | Unreachable

  datatype Result<+T> = Ok(value: T) | Err(error: Error) {
    predicate IsFailure() { Err? }

    function PropagateFailure<U>(): Result<U>
      requires Err?
    {
      Err(error)
    }

    function Extract(): T
      requires Ok?
    {
      value
    }
  }

  function OkOr<T>(o: Option<T>, e: Error): Result<T> {
    if o.Some? then Ok(o.value) else Err(e)
  }
}
