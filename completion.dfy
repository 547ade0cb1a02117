/**
 * How one overlapped `ReadFile`/`WriteFile` call is turned into a blocking result, the rule
 * `write_dvc` and `read_dvc` share: an immediate success gives its count, an `ERROR_IO_PENDING`
 * status is followed by one blocking `GetOverlappedResult`, and any other error is returned.
 *
 * The operating system is not modelled: a call is described by what the submission reported and by
 * what the one blocking wait would report if it were made.
 */
module Completion {
  import opened Common

  /** What `ReadFile`/`WriteFile` reported: completed with a value, or an error status. */
  datatype Submission<T> = Completed(value: T) | Failed(code: HResult)

  /** What `GetOverlappedResult(.., bWait = true)` reports once the operation has finished. */
  datatype WaitResult<T> = WaitOk(value: T) | WaitErr(code: HResult)

  /** One transfer on a channel handle: the submission and the wait that would follow it. */
  datatype Call<T> = Call(submit: Submission<T>, wait: WaitResult<T>)

  /** The submission is still in flight, so the caller waits for it. */
  predicate IsPending<T>(c: Call<T>)
  {
    c.submit == Failed(ERROR_IO_PENDING_HRESULT)
  }

  /** The outcome of one transfer once the caller has blocked until it is complete. */
  function Resolve<T>(c: Call<T>): (r: Result<T, HResult>)
    ensures r.Ok? ==> c.submit == Completed(r.value) || (IsPending(c) && c.wait == WaitOk(r.value))
    ensures r.Err? ==> (c.submit == Failed(r.error) && !IsPending(c)) || (IsPending(c) && c.wait == WaitErr(r.error))
  {
    match c.submit
    case Completed(v) => Ok(v)
    case Failed(code) =>
      if code == ERROR_IO_PENDING_HRESULT then
        match c.wait
        case WaitOk(v) => Ok(v)
        case WaitErr(e) => Err(e)
      else Err(code)
  }

  /** The wait is consulted only for a pending submission: otherwise what it would report is irrelevant. */
  lemma WaitOnlyWhenPending<T>(c: Call<T>, w: WaitResult<T>)
    requires !IsPending(c)
    ensures Resolve(Call(c.submit, w)) == Resolve(c)
  {
  }

  /** An immediate completion is final, and an error other than "pending" is returned unchanged. */
  lemma ResolveNotPending<T>(c: Call<T>)
    requires !IsPending(c)
    ensures c.submit.Completed? ==> Resolve(c) == Ok(c.submit.value)
    ensures c.submit.Failed? ==> Resolve(c) == Err(c.submit.code)
  {
  }

  /** A pending submission has exactly the outcome of its wait. */
  lemma ResolvePending<T>(c: Call<T>)
    requires IsPending(c)
    ensures Resolve(c).Ok? <==> c.wait.WaitOk?
    ensures c.wait.WaitOk? ==> Resolve(c).value == c.wait.value
    ensures c.wait.WaitErr? ==> Resolve(c).error == c.wait.code
  {
  }
}
