/**
 * Go's `error` values as they occur in this system, and the package-level
 * ConflictError check of errors.go.
 *
 * Go's error interface is open; the model closes it over the error types
 * that the modelled code creates. A nil error is `None` of `Option<Error>`.
 * `Wrapped` is what github.com/pkg/errors.Wrap returns: it has a cause that
 * errors.Cause unwraps; no other error type here has one (srvError keeps a
 * `cause` field but has no Cause method).
 */
module Errors {
  import opened Base
  import opened Texts

  datatype Error =
    | Message(text: string)                                 // errors.New, fmt.Errorf
    | Wrapped(cause: Error, context: string)                // errors.Wrap(cause, context)
    | StatusError(reason: Error, outOfRange: bool)            // *statusError, status.go
    | DataError(stale: bool, noID: bool)                     // dataError{old, noID}, store/error.go
    | UnsupportedContentType(got: string)                   // errorContentType, rest/codex.go
    | RestError(inner: Option<Error>, code: int)             // restError, rest/error.go
    | ServerError(srvCause: Option<Error>, code: int, message: string) // srvError, server/error.go

  /** Outcome of a decoder with a pointer receiver: the new value, or the error (receiver untouched). */
  datatype Result<+T> = Ok(value: T) | Err(error: Error)

  /** errors.Wrap: a nil error stays nil. */
  function Wrap(e: Option<Error>, context: string): (r: Option<Error>)
    ensures r.None? <==> e.None?
  {
    if e.None? then None else Some(Wrapped(e.value, context))
  }

  /** errors.Cause: follows Wrapped to the innermost error. */
  function Cause(e: Error): (c: Error)
    ensures !c.Wrapped?
  {
    if e.Wrapped? then Cause(e.cause) else e
  }

  /** errors.Cause on a possibly nil error. */
  function CauseOf(e: Option<Error>): Option<Error>
  {
    if e.None? then None else Some(Cause(e.value))
  }

  /** Applies errors.Wrap once per context, innermost first. */
  function WrapAll(e: Error, contexts: seq<string>): (r: Error)
    ensures contexts != [] ==> r.Wrapped?
  {
    if contexts == [] then e else Wrapped(WrapAll(e, contexts[..|contexts| - 1]), contexts[|contexts| - 1])
  }

  /** Wrapping any number of times keeps the root cause. */
  lemma {:induction false} CauseOfWrapAll(e: Error, contexts: seq<string>)
    ensures Cause(WrapAll(e, contexts)) == Cause(e)
  {
    if contexts != [] {
      CauseOfWrapAll(e, contexts[..|contexts| - 1]);
    }
  }

  // ------------------------------------------------------------------ errors.go

  /** Whether an error value has a `Conflict() bool` method: only dataError does. */
  predicate IsConflicter(e: Error) {
    e.DataError?
  }

  /**
   * ConflictError: ask the error itself if it has Conflict(), otherwise ask
   * its root cause, otherwise false. Nil is not a conflict, and whichever
   * error answers, the answer is the root cause's.
   */
  function ConflictError(e: Option<Error>): (b: bool)
    ensures e.None? ==> !b
    ensures e.Some? ==> (b <==> IsConflicter(Cause(e.value)) && Cause(e.value).stale)
  {
    if e.None? then false
    else if IsConflicter(e.value) then e.value.stale
    else if IsConflicter(Cause(e.value)) then Cause(e.value).stale
    else false
  }

  /** A conflict wrapped by errors.Wrap, any number of times, is still detected, and so is its absence. */
  lemma ConflictThroughWraps(e: Error, contexts: seq<string>)
    ensures ConflictError(Some(WrapAll(e, contexts))) == ConflictError(Some(e))
  {
    CauseOfWrapAll(e, contexts);
  }

  // ------------------------------------------------------------- error strings

  /** The message of dataError (store/error.go): reasons joined by ", ". */
  function DataErrorText(stale: bool, noID: bool): (t: string)
    ensures |t| >= 8 && t[..8] == "bad data"
    ensures t == "bad data" <==> !stale && !noID
  {
    "bad data"
    + (if stale then ", a more recent version of this resource already exists" else "")
    + (if noID then ", resource ID cannot be zero-value" else "")
  }

  /** The text Go prints for an error with %v or %+v (nil prints as "<nil>"). */
  function Text(e: Error): (t: string)
    ensures e.Wrapped? ==> var n := |e.context| + 2;
      |t| >= n && t[..n] == e.context + ": " && t[n..] == Text(e.cause)
    ensures e.StatusError? ==> |t| >= 14 && t[..14] == "status error: "
    ensures e.UnsupportedContentType? ==> |t| >= 26 && t[..26] == "unsupported content type: "
  {
    match e
    case Message(t) => t
    case Wrapped(c, context) => context + ": " + Text(c)
    case StatusError(err, _) => "status error: " + Text(err)
    case DataError(stale, noID) => DataErrorText(stale, noID)
    case UnsupportedContentType(got) => "unsupported content type: " + Quote(got)
    case RestError(err, code) =>
      FormatCode(code) + " " + (if err.None? then "<nil>" else Text(err.value))
    case ServerError(cause, code, message) =>
      if cause.Some? then FormatCode(code) + ": " + message + ": " + Text(cause.value)
      else FormatCode(code) + ": " + message
  }
}
