/**
 Failure-compatible datatypes shared by the model of the credential service.

 Every way the Go service can stop abnormally (a `log.Panicln` or a runtime
 index-out-of-range panic) is modelled as a `Fail` carrying a `Panic` value, so
 that the model can say precisely which reads fail and why.
 */
module Outcomes {

  datatype Option<+T> = None | Some(value: T)

  /** The reasons the service panics. */
  datatype Panic =
    | FileUnreadable            // fileUtils.ReadLnFile returned an error
    | LineMissing(line: nat)    // `user[line]` is out of range: the file is too short
    | FieldMissing(line: nat)   // `strings.Split(user[line], "=")[1]`: the line has no '='
    | AuthenticationFailed      // `log.Panicln("User authentication failed")`

  /** A value, or the panic that prevented computing it. */
  datatype Result<+T> = Ok(value: T) | Fail(panic: Panic) {

    predicate IsFailure() {
      Fail?
    }

    function PropagateFailure<U>(): Result<U>
      requires Fail?
    {
      Fail(panic)
    }

    function Extract(): T
      requires Ok?
    {
      value
    }
  }
}
