/**
 * What the store and the context report to the core, as abstract outcomes,
 * and the errors Read and Write return. Error text is not modelled: each
 * error records the key and the failed step, and keeps the underlying cause.
 */
module Outcomes {
  import opened Wrappers

  /** The outcome of one Pool.Do call: the reply decoded into a string, or the error radix returned. */
  datatype Reply = Value(text: string) | Failed(cause: string)

  datatype Error =
    | PttlFailed(key: string, cause: string)      // maybeTTL: PTTL call failed
    | DumpFailed(key: string, cause: string)      // Read: DUMP call failed
    | TtlSyncFailed(key: string, inner: Error)    // Read: maybeTTL returned an error
    | ReadCancelled(cause: string)                // Read: ctx.Done() with ctx.Err() != nil
    | ScanFailed(cause: string)                   // Read: scanner.Close() error, returned as is
    | WriteCancelled(cause: string)               // Write: ctx.Done() with ctx.Err() != nil
    | RestoreFailed(key: string, cause: string)   // Write: RESTORE call failed

  /**
   * Cancellation as seen by one loop: `at` is the iteration (counting from 0)
   * in which the select picks ctx.Done(), and `ctxErr` is what ctx.Err()
   * then returns. A Go context's Err() is never nil once Done is closed.
   */
  datatype Cancel = Cancel(at: nat, ctxErr: Option<string>)

  predicate CancelsAt(cancel: Option<Cancel>, i: nat) {
    cancel.Some? && cancel.value.at == i
  }

  /** True of every cancellation a real Go context produces. */
  predicate IsGoContext(cancel: Option<Cancel>) {
    cancel.Some? ==> cancel.value.ctxErr.Some?
  }
}
