/**
 * What the watch command returns once the scheduler stops
 * (commands/watch.go:155-159): an error that is, or wraps,
 * context.Canceled is a clean stop and yields nil; every other error,
 * and nil itself, is returned unchanged.
 */
module RunResult {
  import opened Wrappers

  /**
   * The errors scheduler.Run can return, with the wrapping that
   * xerrors.Errorf("...: %w", err) adds. A Go nil error is None.
   */
  datatype Error =
    | Canceled
    | DeadlineExceeded
    | Failure(msg: string)
    | Wrapped(msg: string, cause: Error)

  /** The chain errors.Is walks: the error itself, then each error it wraps. */
  function Chain(e: Error): (c: seq<Error>)
    ensures |c| >= 1 && c[0] == e
  {
    [e] + (if e.Wrapped? then Chain(e.cause) else [])
  }

  /**
   * errors.Is for a non-nil error: compare, and if unequal unwrap once and
   * try again. It holds exactly when target occurs on the unwrap chain.
   */
  function Is(e: Error, target: Error): (r: bool)
    ensures r <==> target in Chain(e)
  {
    if e == target then true
    else if e.Wrapped? then Is(e.cause, target)
    else false
  }

  /** errors.Is with a possibly nil error: a nil error is nothing but nil. */
  function IsErr(err: Option<Error>, target: Error): (r: bool)
    ensures r <==> err.Some? && target in Chain(err.value)
  {
    match err
    case None => false
    case Some(e) => Is(e, target)
  }

  /** The command's return value for the result of scheduler.Run. */
  function Exit(run: Option<Error>): (r: Option<Error>)
    ensures r.None? <==> run.None? || Canceled in Chain(run.value)
    ensures r.Some? ==> r == run
  {
    if !IsErr(run, Canceled) then run else None
  }

  /** Canceled wrapped any number of times. */
  function WrapAll(msgs: seq<string>, e: Error): Error
  {
    if |msgs| == 0 then e else Wrapped(msgs[0], WrapAll(msgs[1..], e))
  }

  /** However deeply Canceled is wrapped, the command returns nil. */
  lemma {:induction false} WrappedCancelIsClean(msgs: seq<string>)
    ensures Exit(Some(WrapAll(msgs, Canceled))) == None
  {
    WrappedCancelOnChain(msgs);
  }

  lemma {:induction false} WrappedCancelOnChain(msgs: seq<string>)
    ensures Canceled in Chain(WrapAll(msgs, Canceled))
    decreases |msgs|
  {
    if |msgs| > 0 {
      WrappedCancelOnChain(msgs[1..]);
    }
  }

  /** An error whose chain ends in something other than Canceled is returned unchanged, and so is nil. */
  lemma {:induction false} PassThrough(msgs: seq<string>, m: string)
    ensures Exit(None) == None
    ensures Exit(Some(WrapAll(msgs, Failure(m)))) == Some(WrapAll(msgs, Failure(m)))
    ensures Exit(Some(WrapAll(msgs, DeadlineExceeded))) == Some(WrapAll(msgs, DeadlineExceeded))
  {
    NoCancelOnChain(msgs, Failure(m));
    NoCancelOnChain(msgs, DeadlineExceeded);
  }

  lemma {:induction false} NoCancelOnChain(msgs: seq<string>, e: Error)
    requires !e.Wrapped? && e != Canceled
    ensures Canceled !in Chain(WrapAll(msgs, e))
    decreases |msgs|
  {
    if |msgs| > 0 {
      NoCancelOnChain(msgs[1..], e);
    }
  }
}
