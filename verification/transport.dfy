/**
 The HTTP exchange both pipelines perform, reduced to what their code looks
 at: the status code, the reason phrase, the body text, and which kind of
 exception an awaited step ended with. The socket, the timer and the task
 machinery are outside the model; the exchange arrives as a value.
 */
module Transport {
  import opened Wrappers

  /** The kind of exception an awaited step throws, as the `catch` clauses
      tell them apart. */
  datatype Failure =
    | Canceled       // `OperationCanceledException`, `TaskCanceledException` included
    | RequestFailed  // `HttpRequestException`
    | OtherFailure   // any other exception

  /** A step that either produces a value or throws. */
  datatype Outcome<T> = Done(value: T) | Threw(failure: Failure)

  /** A response: its status code, its reason phrase (possibly null) and the
      result of reading its body as a string. */
  datatype Response = Response(status: int, reason: Option<string>, body: Outcome<string>)

  /** What `GetAsync` is asked for: the target and the deadline, in seconds,
      its linked cancellation source was armed with. */
  datatype Request = Request(url: string, deadlineSeconds: int)

  /** The whole exchange, as a function of the request. */
  type Send = Request -> Outcome<Response>

  /** `HttpResponseMessage.IsSuccessStatusCode`. */
  predicate IsSuccessStatus(status: int) {
    200 <= status <= 299
  }

  /** `Math.Max(5, configured)`: the deadline is never under five seconds. */
  function DeadlineSeconds(configured: int): (d: int)
    ensures d >= 5 && d >= configured
    ensures d == 5 || d == configured
  {
    if configured < 5 then 5 else configured
  }

  /** The longest delay, in milliseconds, `CancellationTokenSource.CancelAfter`
      accepts; a longer one throws `ArgumentOutOfRangeException`. */
  const MaxTimerMilliseconds: int := 0xFFFF_FFFE

  /** `CancelAfter(TimeSpan.FromSeconds(seconds))` arms the timer without
      throwing. */
  predicate TimerAccepts(seconds: int) {
    seconds * 1000 <= MaxTimerMilliseconds
  }

  /** Which `catch` clause of the pipelines handles a failure. The timeout
      clause carries the filter `when (!cancellationToken.IsCancellationRequested)`:
      a cancellation the caller asked for skips it and lands in the catch-all. */
  datatype Handler = TimeoutHandler | NetworkHandler | CatchAll

  function HandlerFor(f: Failure, callerCancelled: bool): (h: Handler)
    ensures h == TimeoutHandler <==> f == Canceled && !callerCancelled
    ensures h == NetworkHandler <==> f == RequestFailed
  {
    match f
    case Canceled => if callerCancelled then CatchAll else TimeoutHandler
    case RequestFailed => NetworkHandler
    case OtherFailure => CatchAll
  }

  /** The timer is armed exactly when the configured timeout is at most
      4294967 seconds. */
  lemma DeadlineArmsTimer(configured: int)
    ensures TimerAccepts(DeadlineSeconds(configured)) <==> configured <= 4_294_967
  {
  }
}
