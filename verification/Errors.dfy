/** The error codes the modelled operations report, and results that carry them. */
module Errors {

  datatype ErrorCode =
    | EncodingFailed
    | EncodeConstraintViolation
    | InvalidArgument
    | BufferOverrun
    | BufferUnderrun
    | UnknownDiscriminator
    | AlreadyRunning

  datatype Option<+T> = None | Some(value: T)

  datatype Result<+T> = Ok(value: T) | Err(error: ErrorCode)

  /** A list read so far in front of what the rest of the input gives, with the end position. */
  ghost function Prefixed<T>(vs: seq<T>, r: Result<(seq<T>, nat)>): Result<(seq<T>, nat)> {
    if r.Err? then r else Ok((vs + r.value.0, r.value.1))
  }

  lemma PrefixedNone<T>(r: Result<(seq<T>, nat)>)
    ensures Prefixed([], r) == r
  {
    if r.Ok? { assert [] + r.value.0 == r.value.0; }
  }

  lemma PrefixedStep<T>(vs: seq<T>, v: T, r: Result<(seq<T>, nat)>)
    ensures Prefixed(vs, Prefixed([v], r)) == Prefixed(vs + [v], r)
  {
    if r.Ok? { assert vs + ([v] + r.value.0) == (vs + [v]) + r.value.0; }
  }
}
