/**
 * `sendToServer`: the health-gated retry loop that uploads one JSON payload.
 *
 * Each attempt first GETs `/api/health`; only on HTTP 200 does it POST the payload.
 * A POST answered with 200 ends the procedure. Any other outcome, an exception
 * included, counts one failed attempt and, unless it was the last of
 * `MaxAttempts`, waits `DelayBetweenAttemptsMs` before the next one. When every
 * attempt has failed the "server unavailable" notice is shown once.
 *
 * The network is an oracle `net`: `net(k)` is what the server answers during
 * attempt k. What the procedure does is recorded as a trace of events.
 */
module Delivery {
  import Json

  const MaxAttempts: nat := 5
  const DelayBetweenAttemptsMs: nat := 2000
  const HttpOk: int := 200

  /** The body handed to `sendToServer`: a JSON array of objects. */
  type Payload = seq<Json.Object>

  /** The result of one HTTP exchange: a response code, or an exception (timeout, refused connection, I/O error). */
  datatype Response = Status(code: int) | Thrown

  /** What the network does during one attempt: the answer to the health GET, and the answer the POST gets if it is issued. */
  datatype Exchange = Exchange(health: Response, post: Response)

  /** What the procedure does, in order. `attempt` is the zero-based attempt number. */
  datatype Event =
    | HealthCheck(attempt: nat)
    | Post(attempt: nat, body: Payload)
    | Sleep(ms: nat)
    | NotifyUnavailable

  predicate HealthOk(e: Exchange)
  {
    e.health == Status(HttpOk)
  }

  /** The attempt that ends the procedure: health 200, then POST 200. */
  predicate Delivered(e: Exchange)
  {
    HealthOk(e) && e.post == Status(HttpOk)
  }

  /** The kind of an event, without its arguments. */
  datatype EventKind = HealthCheckKind | PostKind | SleepKind | NotifyKind

  function KindOf(e: Event): EventKind
  {
    match e
    case HealthCheck(_) => HealthCheckKind
    case Post(_, _) => PostKind
    case Sleep(_) => SleepKind
    case NotifyUnavailable => NotifyKind
  }

  /** How many events of a trace are of kind `k`. */
  function Count(t: seq<Event>, k: EventKind): nat
  {
    if t == [] then 0 else (if KindOf(t[0]) == k then 1 else 0) + Count(t[1..], k)
  }

  /** The requests issued in attempt `k`: the health GET, then the POST when health answered 200. */
  function AttemptEvents(data: Payload, k: nat, e: Exchange): seq<Event>
  {
    [HealthCheck(k)] + (if HealthOk(e) then [Post(k, data)] else [])
  }

  /** The pause after a failed attempt, when the incremented counter is still below the limit. */
  function Pause(next: nat): seq<Event>
  {
    if next < MaxAttempts then [Sleep(DelayBetweenAttemptsMs)] else []
  }

  /** Everything the procedure does from the point where the counter equals `attempt`. */
  function Run(data: Payload, net: nat -> Exchange, attempt: nat): seq<Event>
    decreases MaxAttempts - attempt
  {
    if attempt >= MaxAttempts then [NotifyUnavailable]
    else if Delivered(net(attempt)) then AttemptEvents(data, attempt, net(attempt))
    else AttemptEvents(data, attempt, net(attempt)) + Pause(attempt + 1) + Run(data, net, attempt + 1)
  }

  /** Every attempt from `from` up to (not including) `to` failed. */
  predicate FailedBetween(net: nat -> Exchange, from: nat, to: nat)
  {
    forall k :: from <= k < to ==> !Delivered(net(k))
  }

  /** The attempt whose POST succeeds, counting from `from`; `MaxAttempts` when none does. */
  function FirstDelivered(net: nat -> Exchange, from: nat): nat
    decreases MaxAttempts - from
  {
    if from >= MaxAttempts then from
    else if Delivered(net(from)) then from
    else FirstDelivered(net, from + 1)
  }

  /**
   * The counter the loop stops at: every attempt before it failed, it delivered
   * unless it is `MaxAttempts`, and it is `MaxAttempts` exactly when every attempt failed.
   */
  lemma {:induction false} FirstDeliveredSpec(net: nat -> Exchange, from: nat)
    requires from <= MaxAttempts
    ensures from <= FirstDelivered(net, from) <= MaxAttempts
    ensures FailedBetween(net, from, FirstDelivered(net, from))
    ensures FirstDelivered(net, from) < MaxAttempts ==> Delivered(net(FirstDelivered(net, from)))
    ensures FirstDelivered(net, from) == MaxAttempts <==> FailedBetween(net, from, MaxAttempts)
    decreases MaxAttempts - from
  {
    if from < MaxAttempts && !Delivered(net(from)) {
      FirstDeliveredSpec(net, from + 1);
    }
  }

  /** What attempts 0 .. `attempt` - 1 did, each of them failed, with the pauses after them. */
  function Failures(data: Payload, net: nat -> Exchange, attempt: nat): seq<Event>
  {
    if attempt == 0 then []
    else Failures(data, net, attempt - 1) + AttemptEvents(data, attempt - 1, net(attempt - 1)) + Pause(attempt)
  }

  /** A failed attempt is followed by the pause and by the next attempt. */
  lemma RunAfterFailure(data: Payload, net: nat -> Exchange, k: nat)
    requires k < MaxAttempts && !Delivered(net(k))
    ensures Run(data, net, k) == AttemptEvents(data, k, net(k)) + Pause(k + 1) + Run(data, net, k + 1)
  {
  }

  /** Traces concatenate associatively. */
  lemma EventsAssoc(a: seq<Event>, b: seq<Event>, c: seq<Event>)
    ensures (a + b) + c == a + (b + c)
  {
  }

  /** Failed attempts followed by the rest of the procedure make up the whole procedure. */
  lemma {:induction false} FailuresThenRun(data: Payload, net: nat -> Exchange, attempt: nat)
    requires attempt <= MaxAttempts
    requires FailedBetween(net, 0, attempt)
    ensures Failures(data, net, attempt) + Run(data, net, attempt) == Run(data, net, 0)
  {
    if attempt > 0 {
      var k := attempt - 1;
      var step := AttemptEvents(data, k, net(k)) + Pause(attempt);
      calc {
        Failures(data, net, attempt) + Run(data, net, attempt);
        (Failures(data, net, k) + step) + Run(data, net, attempt);
        { EventsAssoc(Failures(data, net, k), step, Run(data, net, attempt)); }
        Failures(data, net, k) + (step + Run(data, net, attempt));
        { RunAfterFailure(data, net, k); }
        Failures(data, net, k) + Run(data, net, k);
        { FailuresThenRun(data, net, k); }
        Run(data, net, 0);
      }
    }
  }

  /**
   * The loop itself. `attempt` is the final value of the source's counter: the
   * number of the attempt whose POST succeeded, or `MaxAttempts` when none did.
   */
  method SendToServer(data: Payload, net: nat -> Exchange) returns (trace: seq<Event>, attempt: nat)
    ensures trace == Run(data, net, 0)
    ensures attempt == FirstDelivered(net, 0)
    ensures attempt <= MaxAttempts
  {
    trace := [];
    attempt := 0;
    while attempt < MaxAttempts
      invariant attempt <= MaxAttempts
      invariant FailedBetween(net, 0, attempt)
      invariant trace == Failures(data, net, attempt)
      decreases MaxAttempts - attempt
    {
      var e := net(attempt);
      ghost var before := trace;
      trace := trace + [HealthCheck(attempt)];
      match e.health {
        case Thrown =>
          // the health GET threw: the catch block counts the attempt
        case Status(code) =>
          if code == HttpOk {
            trace := trace + [Post(attempt, data)];
            if e.post == Status(HttpOk) {
              FailuresThenRun(data, net, attempt);
              FirstDeliveredAt(net, 0, attempt);
              return;
            }
          }
      }
      assert trace == before + AttemptEvents(data, attempt, e) && !Delivered(e);
      trace := trace + Pause(attempt + 1);
      attempt := attempt + 1;
    }
    FailuresThenRun(data, net, attempt);
    FirstDeliveredAt(net, 0, attempt);
    if attempt >= MaxAttempts {
      trace := trace + [NotifyUnavailable];
    }
  }

  /** `FirstDelivered` is the first delivered attempt, or `MaxAttempts`. */
  lemma {:induction false} FirstDeliveredAt(net: nat -> Exchange, from: nat, k: nat)
    requires from <= k <= MaxAttempts
    requires FailedBetween(net, from, k)
    requires k < MaxAttempts ==> Delivered(net(k))
    ensures FirstDelivered(net, from) == k
    decreases k - from
  {
    if from < k {
      FirstDeliveredAt(net, from + 1, k);
    }
  }

  // Properties of the whole procedure. Each is stated for the rest of the run
  // from counter value `j`; `j == 0` is a complete call of `SendToServer`.

  /** Every POST directly follows a health check of the same attempt that answered 200, and carries the payload. */
  predicate PostsGated(t: seq<Event>, data: Payload, net: nat -> Exchange)
  {
    forall i :: 0 <= i < |t| && t[i].Post? ==>
      t[i].body == data && HealthOk(net(t[i].attempt)) && 0 < i && t[i - 1] == HealthCheck(t[i].attempt)
  }

  /** Every pause lasts the fixed delay and is directly followed by the next health check. */
  predicate SleepsBetweenAttempts(t: seq<Event>)
  {
    forall i :: 0 <= i < |t| && t[i].Sleep? ==>
      t[i].ms == DelayBetweenAttemptsMs && i + 1 < |t| && t[i + 1].HealthCheck?
  }

  /** Attempt `j` starts with its health check; past the last attempt only the notice remains. */
  lemma RunStarts(data: Payload, net: nat -> Exchange, j: nat)
    ensures |Run(data, net, j)| > 0
    ensures j < MaxAttempts ==> Run(data, net, j)[0] == HealthCheck(j)
    ensures j >= MaxAttempts ==> Run(data, net, j) == [NotifyUnavailable]
  {
  }

  /** The notice is raised exactly once when every remaining attempt fails, and never otherwise. */
  lemma {:induction false} NotifyExactlyWhenAllFailed(data: Payload, net: nat -> Exchange, j: nat)
    requires j <= MaxAttempts
    ensures Count(Run(data, net, j), NotifyKind) == if FailedBetween(net, j, MaxAttempts) then 1 else 0
    decreases MaxAttempts - j
  {
    var e := net(j);
    if j == MaxAttempts {
      CountSingleton(NotifyUnavailable, NotifyKind);
    } else if Delivered(e) {
      assert !FailedBetween(net, j, MaxAttempts);
      CountAttempt(data, j, e, NotifyKind);
    } else {
      var a, pause, rest := AttemptEvents(data, j, e), Pause(j + 1), Run(data, net, j + 1);
      RunAfterFailure(data, net, j);
      NotifyExactlyWhenAllFailed(data, net, j + 1);
      CountAttempt(data, j, e, NotifyKind);
      CountPause(j + 1, NotifyKind);
      CountAppend(a, pause, NotifyKind);
      CountAppend(a + pause, rest, NotifyKind);
      assert Count(Run(data, net, j), NotifyKind) == Count(rest, NotifyKind);
      FailedBetweenStep(net, j, MaxAttempts);
    }
  }

  lemma FailedBetweenStep(net: nat -> Exchange, from: nat, to: nat)
    requires from < to
    ensures FailedBetween(net, from, to) <==> !Delivered(net(from)) && FailedBetween(net, from + 1, to)
  {
  }

  /**
   * The run ends with the successful POST when some attempt delivers (nothing
   * follows it), and with the notice when none does.
   */
  lemma {:induction false} RunEnds(data: Payload, net: nat -> Exchange, j: nat)
    requires j <= MaxAttempts
    ensures |Run(data, net, j)| > 0
    ensures FirstDelivered(net, j) < MaxAttempts ==>
      Run(data, net, j)[|Run(data, net, j)| - 1] == Post(FirstDelivered(net, j), data)
    ensures FirstDelivered(net, j) == MaxAttempts ==>
      Run(data, net, j)[|Run(data, net, j)| - 1] == NotifyUnavailable
    decreases MaxAttempts - j
  {
    var t := Run(data, net, j);
    if j >= MaxAttempts {
      assert t == [NotifyUnavailable];
    } else if Delivered(net(j)) {
      assert t == [HealthCheck(j), Post(j, data)];
    } else {
      var rest := Run(data, net, j + 1);
      RunAfterFailure(data, net, j);
      RunEnds(data, net, j + 1);
      assert FirstDelivered(net, j) == FirstDelivered(net, j + 1);
      var front := AttemptEvents(data, j, net(j)) + Pause(j + 1);
      assert t == front + rest;
      assert t[|t| - 1] == rest[|rest| - 1];
    }
  }

  /** One health check per attempt made: up to and including the delivered one, or `MaxAttempts` of them. */
  lemma {:induction false} HealthChecksMade(data: Payload, net: nat -> Exchange, j: nat)
    requires j <= MaxAttempts
    ensures Count(Run(data, net, j), HealthCheckKind) ==
      (if FirstDelivered(net, j) < MaxAttempts then FirstDelivered(net, j) + 1 else MaxAttempts) - j
    decreases MaxAttempts - j
  {
    if j == MaxAttempts {
      CountSingleton(NotifyUnavailable, HealthCheckKind);
    } else if Delivered(net(j)) {
      CountAttempt(data, j, net(j), HealthCheckKind);
    } else {
      CountAfterFailure(data, net, j, HealthCheckKind);
      FirstDeliveredSpec(net, j + 1);
      HealthChecksMade(data, net, j + 1);
    }
  }

  /** One pause fewer than health checks, so at most `MaxAttempts - 1` pauses in all. */
  lemma {:induction false} PausesBetweenChecks(data: Payload, net: nat -> Exchange, j: nat)
    requires j < MaxAttempts
    ensures Count(Run(data, net, j), SleepKind) + 1 == Count(Run(data, net, j), HealthCheckKind)
    ensures Count(Run(data, net, j), SleepKind) < MaxAttempts - j
    decreases MaxAttempts - j
  {
    if Delivered(net(j)) {
      CountAttempt(data, j, net(j), HealthCheckKind);
      CountAttempt(data, j, net(j), SleepKind);
    } else {
      CountAfterFailure(data, net, j, HealthCheckKind);
      CountAfterFailure(data, net, j, SleepKind);
      if j + 1 == MaxAttempts {
        CountSingleton(NotifyUnavailable, HealthCheckKind);
        CountSingleton(NotifyUnavailable, SleepKind);
      } else {
        PausesBetweenChecks(data, net, j + 1);
      }
    }
  }

  /** After a failed attempt the counts are those of the attempt, of its pause, and of the rest of the run. */
  lemma CountAfterFailure(data: Payload, net: nat -> Exchange, j: nat, k: EventKind)
    requires j < MaxAttempts && !Delivered(net(j))
    ensures Count(Run(data, net, j), k) ==
      (if k == HealthCheckKind then 1 else 0) + (if HealthOk(net(j)) && k == PostKind then 1 else 0)
      + (if j + 1 < MaxAttempts && k == SleepKind then 1 else 0) + Count(Run(data, net, j + 1), k)
  {
    var a, pause, rest := AttemptEvents(data, j, net(j)), Pause(j + 1), Run(data, net, j + 1);
    RunAfterFailure(data, net, j);
    CountAppend(a, pause, k);
    CountAppend(a + pause, rest, k);
    CountAttempt(data, j, net(j), k);
    CountPause(j + 1, k);
  }

  /** A POST is issued only after a health check of the same attempt answered 200, and always with the same payload. */
  lemma {:induction false} PostOnlyAfterHealthOk(data: Payload, net: nat -> Exchange, j: nat)
    ensures PostsGated(Run(data, net, j), data, net)
    decreases MaxAttempts - j
  {
    if j >= MaxAttempts {
      assert Run(data, net, j) == [NotifyUnavailable];
    } else if Delivered(net(j)) {
      AttemptGated(data, j, net);
    } else {
      var a, pause, rest := AttemptEvents(data, j, net(j)), Pause(j + 1), Run(data, net, j + 1);
      RunAfterFailure(data, net, j);
      PostOnlyAfterHealthOk(data, net, j + 1);
      RunStarts(data, net, j + 1);
      AttemptGated(data, j, net);
      assert PostsGated(pause, data, net);
      PostsGatedAppend(a, pause, data, net);
      PostsGatedAppend(a + pause, rest, data, net);
    }
  }

  lemma AttemptGated(data: Payload, j: nat, net: nat -> Exchange)
    ensures PostsGated(AttemptEvents(data, j, net(j)), data, net)
  {
  }

  /** A pause never ends the run and never comes right before the notice: it only separates two attempts. */
  lemma {:induction false} SleepOnlyBetweenAttempts(data: Payload, net: nat -> Exchange, j: nat)
    ensures SleepsBetweenAttempts(Run(data, net, j))
    decreases MaxAttempts - j
  {
    if j >= MaxAttempts {
      RunStarts(data, net, j);
    } else if Delivered(net(j)) {
      AttemptShape(data, j, net(j));
    } else {
      RunAfterFailure(data, net, j);
      SleepOnlyBetweenAttempts(data, net, j + 1);
      RunStarts(data, net, j + 1);
      AttemptShape(data, j, net(j));
      SleepsAcrossFailure(AttemptEvents(data, j, net(j)), Pause(j + 1), Run(data, net, j + 1));
    }
  }

  lemma SleepsAcrossFailure(a: seq<Event>, pause: seq<Event>, rest: seq<Event>)
    requires a != [] && !a[|a| - 1].Sleep? && SleepsBetweenAttempts(a)
    requires pause == [] || pause == [Sleep(DelayBetweenAttemptsMs)]
    requires pause != [] ==> rest != [] && rest[0].HealthCheck?
    requires SleepsBetweenAttempts(rest)
    ensures SleepsBetweenAttempts(a + pause + rest)
  {
    if pause == [] {
      assert a + pause + rest == a + rest;
      SleepsAppend(a, rest);
    } else {
      SleepsPrepend(rest);
      assert a + pause + rest == a + (pause + rest);
      SleepsAppend(a, pause + rest);
    }
  }

  lemma PostsGatedAppend(a: seq<Event>, b: seq<Event>, data: Payload, net: nat -> Exchange)
    requires PostsGated(a, data, net) && PostsGated(b, data, net)
    requires b != [] ==> !b[0].Post?
    ensures PostsGated(a + b, data, net)
  {
    forall i | 0 <= i < |a + b| && (a + b)[i].Post?
      ensures (a + b)[i].body == data && HealthOk(net((a + b)[i].attempt))
      ensures 0 < i && (a + b)[i - 1] == HealthCheck((a + b)[i].attempt)
    {
      if i >= |a| {
        assert (a + b)[i] == b[i - |a|];
        assert (a + b)[i - 1] == b[i - |a| - 1];
      }
    }
  }

  lemma SleepsAppend(a: seq<Event>, b: seq<Event>)
    requires SleepsBetweenAttempts(a) && SleepsBetweenAttempts(b)
    requires a == [] || !a[|a| - 1].Sleep?
    ensures SleepsBetweenAttempts(a + b)
  {
    forall i | 0 <= i < |a + b| && (a + b)[i].Sleep?
      ensures (a + b)[i].ms == DelayBetweenAttemptsMs && i + 1 < |a + b| && (a + b)[i + 1].HealthCheck?
    {
      if i >= |a| {
        assert (a + b)[i] == b[i - |a|];
        assert (a + b)[i + 1] == b[i + 1 - |a|];
      } else {
        assert (a + b)[i + 1] == a[i + 1];
      }
    }
  }

  lemma SleepsPrepend(b: seq<Event>)
    requires SleepsBetweenAttempts(b)
    requires b != [] && b[0].HealthCheck?
    ensures SleepsBetweenAttempts([Sleep(DelayBetweenAttemptsMs)] + b)
  {
    var t := [Sleep(DelayBetweenAttemptsMs)] + b;
    forall i | 0 <= i < |t| && t[i].Sleep?
      ensures t[i].ms == DelayBetweenAttemptsMs && i + 1 < |t| && t[i + 1].HealthCheck?
    {
      if i > 0 {
        assert t[i] == b[i - 1];
        assert i < |b| && b[i - 1].Sleep?;
        assert t[i + 1] == b[i];
      }
    }
  }

  /** The events of one attempt: a health check first, and no pause among them. */
  lemma AttemptShape(data: Payload, k: nat, e: Exchange)
    ensures AttemptEvents(data, k, e) != [] && AttemptEvents(data, k, e)[0] == HealthCheck(k)
    ensures forall x :: x in AttemptEvents(data, k, e) ==> !x.Sleep?
    ensures !AttemptEvents(data, k, e)[|AttemptEvents(data, k, e)| - 1].Sleep?
    ensures SleepsBetweenAttempts(AttemptEvents(data, k, e))
  {
  }

  lemma CountSingleton(x: Event, k: EventKind)
    ensures Count([x], k) == if KindOf(x) == k then 1 else 0
  {
  }

  lemma CountAttempt(data: Payload, k: nat, e: Exchange, kind: EventKind)
    ensures Count(AttemptEvents(data, k, e), kind) ==
      (if kind == HealthCheckKind then 1 else 0) + (if HealthOk(e) && kind == PostKind then 1 else 0)
  {
    CountSingleton(HealthCheck(k), kind);
    CountSingleton(Post(k, data), kind);
    CountAppend([HealthCheck(k)], if HealthOk(e) then [Post(k, data)] else [], kind);
  }

  lemma CountPause(next: nat, k: EventKind)
    ensures Count(Pause(next), k) == if next < MaxAttempts && k == SleepKind then 1 else 0
  {
    CountSingleton(Sleep(DelayBetweenAttemptsMs), k);
  }

  lemma {:induction false} CountAppend(a: seq<Event>, b: seq<Event>, k: EventKind)
    ensures Count(a + b, k) == Count(a, k) + Count(b, k)
    decreases |a|
  {
    if a == [] {
      assert a + b == b;
    } else {
      assert (a + b)[1..] == a[1..] + b;
      CountAppend(a[1..], b, k);
    }
  }
}
