/**
 * The client's error class: a code, a message, optional metadata and a flattened `trace`
 * of causes. Wrapping another client error moves that error's trace up into the wrapper.
 */
module ClientError {
  import opened Eav

  /** A cause: a plain `Error` (only its message matters here) or another client error object. */
  datatype Cause = PlainError(message: string) | ClientCause(error: FFClientError)

  /** The client error object wrapped by `cause`, if any: the one object the constructor updates. */
  function WrappedObject(cause: Option<Cause>): set<FFClientError> {
    if cause.Some? && cause.value.ClientCause? then {cause.value.error} else {}
  }

  class FFClientError {
    var code: string
    var message: string
    var trace: seq<Cause>
    var meta: map<string, string>

    /** The client errors listed in the trace. */
    ghost function TraceObjects(): set<FFClientError>
      reads this
    {
      set c | c in trace && c.ClientCause? :: c.error
    }

    /** Only this error holds a trace: every client error listed in it has an empty trace. */
    ghost predicate Flat()
      reads this, TraceObjects()
    {
      forall e :: e in TraceObjects() ==> e.trace == []
    }

    constructor (code: string, message: string, cause: Option<Cause>, meta: Option<map<string, string>>)
      modifies WrappedObject(cause)
      ensures this.code == code && this.message == message
      ensures meta.Some? ==> this.meta == meta.value
      ensures meta.None? ==> this.meta == map[]
      ensures cause.None? ==> trace == []
      ensures cause.Some? && cause.value.PlainError? ==> trace == [cause.value]
      ensures cause.Some? && cause.value.ClientCause? ==>
        && trace == [cause.value] + old(cause.value.error.trace)
        && |trace| == 1 + |old(cause.value.error.trace)|
        && cause.value.error.trace == []
      ensures cause.Some? && cause.value.ClientCause? ==>
        && cause.value.error.code == old(cause.value.error.code)
        && cause.value.error.message == old(cause.value.error.message)
        && cause.value.error.meta == old(cause.value.error.meta)
      ensures cause.Some? && cause.value.ClientCause? && old(cause.value.error.Flat()) ==> Flat()
      ensures cause.None? || cause.value.PlainError? ==> Flat()
    {
      this.code := code;
      this.message := message;
      this.meta := if meta.Some? then meta.value else map[];
      this.trace := [];
      if cause.Some? {
        match cause.value
        case ClientCause(e) =>
          this.trace := [cause.value] + e.trace;
        case PlainError(_) =>
          this.trace := [cause.value] + this.trace;
      }
      new;
      if cause.Some? && cause.value.ClientCause? {
        cause.value.error.trace := [];
      }
    }
  }
}
