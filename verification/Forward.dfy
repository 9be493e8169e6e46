/** The retry loop and its decisions (plecto/crates/server/src/forward.rs and retry.rs). */
module Forward {

  import opened Words

  // ---------- pure decisions ----------

  datatype Failure = Timeout | Connect

  /** The methods section 9.2.2 of RFC 9110 calls idempotent, compared with case. */
  predicate IsIdempotent(verb: string) {
    verb in {"GET", "HEAD", "PUT", "DELETE", "OPTIONS", "TRACE"}
  }

  predicate MayRetry(failure: Failure, verb: string, bodyless: bool, triesLeft: nat) {
    bodyless && triesLeft > 0 && (failure.Timeout? ==> IsIdempotent(verb))
  }

  predicate IsRetriable5xx(status: nat) {
    502 <= status <= 504
  }

  datatype PerTry = Bounded(limit: nat) | OverallDeadlineElapsed

  /** The next attempt's timer; 0 means none. */
  function PerTryTimeout(deadline: Option<nat>, perTryBound: nat, now: nat): PerTry {
    match deadline
    case None => Bounded(perTryBound)
    case Some(d) =>
      if now >= d then OverallDeadlineElapsed
      else if perTryBound == 0 then Bounded(d - now)
      else Bounded(if perTryBound <= d - now then perTryBound else d - now)
  }

  /** What comes back for one request: an answer, or a failure before or after connecting. */
  datatype Reply = Response(status: nat) | Failed(connect: bool)

  /** How one attempt ended. */
  datatype Outcome = Replied(reply: Reply) | TimedOut

  predicate ShouldAttemptRetry(o: Outcome, verb: string, bodyless: bool, triesLeft: nat, overallElapsed: bool) {
    !overallElapsed &&
    match o
    case Replied(Response(status)) => IsRetriable5xx(status) && MayRetry(Timeout, verb, bodyless, triesLeft)
    case TimedOut => MayRetry(Timeout, verb, bodyless, triesLeft)
    case Replied(Failed(connect)) => connect && MayRetry(Connect, verb, bodyless, triesLeft)
  }

  // ---------- the environment ----------

  /**
    What the outside world does at one attempt: the clock before and after it, whether the
    request can be built, the upstream's answer and how long it takes, and the alternate
    instance on offer.
   */
  datatype Attempt = Attempt(start: nat, builds: bool, reply: Reply, delay: nat, finish: nat, alternate: Option<nat>)

  type World = nat -> Attempt

  datatype Body = Empty | Streamed(content: seq<nat>)

  /** One request actually sent. */
  datatype Send = Send(start: nat, timer: nat, body: Body, instance: nat, outcome: Outcome, triesLeft: nat)

  datatype Verdict = Responded(status: nat) | OverallTimeout | PerTryTimedOut | SendFailed(connect: bool) | BuildFailed

  datatype Params = Params(verb: string, bodyless: bool, perTryBound: nat, deadline: Option<nat>)

  /** A timer that runs out first hides the reply; without one the loop waits for it. */
  function Ended(a: Attempt, timer: nat): Outcome {
    if timer != 0 && timer <= a.delay then TimedOut else Replied(a.reply)
  }

  predicate Elapsed(p: Params, now: nat) {
    p.deadline.Some? && now >= p.deadline.value
  }

  function Final(p: Params, o: Outcome, finish: nat): Verdict {
    match o
    case Replied(Response(status)) => Responded(status)
    case TimedOut => if Elapsed(p, finish) then OverallTimeout else PerTryTimedOut
    case Replied(Failed(connect)) => SendFailed(connect)
  }

  // ---------- what the loop computes ----------

  /** Attempt `k` and all that follow it. */
  function Attempts(p: Params, w: World, k: nat, triesLeft: nat, instance: nat, body: Body): (Verdict, seq<Send>)
    decreases triesLeft
  {
    match PerTryTimeout(p.deadline, p.perTryBound, w(k).start)
    case OverallDeadlineElapsed => (OverallTimeout, [])
    case Bounded(timer) =>
      if !w(k).builds then (BuildFailed, [])
      else
        var o := Ended(w(k), timer);
        var send := Send(w(k).start, timer, if p.bodyless then Empty else body, instance, o, triesLeft);
        if ShouldAttemptRetry(o, p.verb, p.bodyless, triesLeft, Elapsed(p, w(k).finish)) && w(k).alternate.Some? then
          var (v, rest) := Attempts(p, w, k + 1, triesLeft - 1, w(k).alternate.value, Empty);
          (v, [send] + rest)
        else (Final(p, o, w(k).finish), [send])
  }

  /** One attempt that ends the loop after a send, or goes on to the next. */
  lemma {:induction false} OneAttempt(p: Params, w: World, k: nat, triesLeft: nat, instance: nat, body: Body)
    ensures ghost var perTry := PerTryTimeout(p.deadline, p.perTryBound, w(k).start);
            ghost var all := Attempts(p, w, k, triesLeft, instance, body);
            if perTry.OverallDeadlineElapsed? then all == (OverallTimeout, [])
            else if !w(k).builds then all == (BuildFailed, [])
            else
              ghost var o := Ended(w(k), perTry.limit);
              ghost var send := Send(w(k).start, perTry.limit, if p.bodyless then Empty else body, instance, o, triesLeft);
              if ShouldAttemptRetry(o, p.verb, p.bodyless, triesLeft, Elapsed(p, w(k).finish)) && w(k).alternate.Some? then
                && triesLeft > 0
                && all.0 == Attempts(p, w, k + 1, triesLeft - 1, w(k).alternate.value, Empty).0
                && all.1 == [send] + Attempts(p, w, k + 1, triesLeft - 1, w(k).alternate.value, Empty).1
              else all == (Final(p, o, w(k).finish), [send])
  {}

  /** The loop: the streamed body is taken by the first attempt, later ones send an empty one. */
  method ForwardWithRetry(p: Params, w: World, maxRetries: nat, pick: nat, body0: Body)
    returns (v: Verdict, sends: seq<Send>)
    ensures (v, sends) == Attempts(p, w, 0, maxRetries, pick, body0)
  {
    hide Attempts, PerTryTimeout, Ended, Elapsed;
    var triesLeft, attempt, instance, body := maxRetries, 0, pick, body0;
    sends := [];
    while true
      invariant Attempts(p, w, 0, maxRetries, pick, body0).0 == Attempts(p, w, attempt, triesLeft, instance, body).0
      invariant Attempts(p, w, 0, maxRetries, pick, body0).1
                == sends + Attempts(p, w, attempt, triesLeft, instance, body).1
      decreases triesLeft
    {
      OneAttempt(p, w, attempt, triesLeft, instance, body);
      assert sends + [] == sends;
      ghost var before := sends;
      var now := w(attempt).start;
      var perTry := PerTryTimeout(p.deadline, p.perTryBound, now);
      if perTry.OverallDeadlineElapsed? {
        return OverallTimeout, sends;
      }
      var attemptBody := if p.bodyless then Empty else body;
      body := Empty;
      if !w(attempt).builds {
        return BuildFailed, sends;
      }
      var outcome := Ended(w(attempt), perTry.limit);
      var overallElapsed := Elapsed(p, w(attempt).finish);
      sends := sends + [Send(now, perTry.limit, attemptBody, instance, outcome, triesLeft)];
      if outcome.TimedOut? && overallElapsed {
        return OverallTimeout, sends;
      }
      var shouldRetry := ShouldAttemptRetry(outcome, p.verb, p.bodyless, triesLeft, overallElapsed);
      if shouldRetry && w(attempt).alternate.Some? {
        ghost var rest := Attempts(p, w, attempt + 1, triesLeft - 1, w(attempt).alternate.value, Empty).1;
        assert sends + rest == before + ([sends[|before|]] + rest);
        instance := w(attempt).alternate.value;
        attempt := attempt + 1;
        triesLeft := triesLeft - 1;
        continue;
      }
      match outcome {
        case Replied(Response(status)) => return Responded(status), sends;
        case TimedOut => return PerTryTimedOut, sends;
        case Replied(Failed(connect)) => return SendFailed(connect), sends;
      }
    }
  }

  // ---------- what that means ----------

  /** At most one send and `triesLeft` retries; a request with a body is sent at most once. */
  lemma {:induction false} SendsAreBounded(p: Params, w: World, k: nat, triesLeft: nat, instance: nat, body: Body)
    ensures |Attempts(p, w, k, triesLeft, instance, body).1| <= triesLeft + 1
    ensures !p.bodyless ==> |Attempts(p, w, k, triesLeft, instance, body).1| <= 1
    decreases triesLeft
  {
    if triesLeft > 0 && w(k).alternate.Some? {
      SendsAreBounded(p, w, k + 1, triesLeft - 1, w(k).alternate.value, Empty);
    }
  }

  /** A streamed body goes out with the first send only, and a bodyless request carries none. */
  lemma {:induction false} BodyIsSentOnce(p: Params, w: World, k: nat, triesLeft: nat, instance: nat, body: Body, i: nat)
    requires i < |Attempts(p, w, k, triesLeft, instance, body).1|
    ensures Attempts(p, w, k, triesLeft, instance, body).1[i].body
            == (if p.bodyless || i > 0 then Empty else body)
    decreases triesLeft
  {
    if i > 0 {
      BodyIsSentOnce(p, w, k + 1, triesLeft - 1, w(k).alternate.value, Empty, i - 1);
    }
  }

  // ---------- the loop, read off the world alone ----------

  /** The timer was set and ran out before the reply. */
  predicate RanOut(timer: nat, a: Attempt) {
    0 < timer <= a.delay
  }

  predicate Passed(deadline: Option<nat>, now: nat) {
    deadline.Some? && deadline.value <= now
  }

  /**
    Attempt `a`, with `tries` retries left, is followed by another: nothing of the request was
    consumed, there is budget, time and an alternate, and either the upstream was never connected
    to, or it may be asked again and did not answer in time or answered for a gateway.
   */
  predicate GoesOn(p: Params, a: Attempt, timer: nat, tries: nat) {
    && p.bodyless && tries > 0 && a.alternate.Some? && !Passed(p.deadline, a.finish)
    && (if !RanOut(timer, a) && a.reply.Failed? then a.reply.connect
        else
          && (p.verb == "GET" || p.verb == "HEAD" || p.verb == "PUT" || p.verb == "DELETE"
              || p.verb == "OPTIONS" || p.verb == "TRACE")
          && (RanOut(timer, a) || a.reply.status == 502 || a.reply.status == 503 || a.reply.status == 504))
  }

  /** The policy as coded decides the same. */
  lemma {:induction false} PolicyIsGoesOn(p: Params, a: Attempt, timer: nat, tries: nat)
    ensures GoesOn(p, a, timer, tries)
            <==> ShouldAttemptRetry(Ended(a, timer), p.verb, p.bodyless, tries, Elapsed(p, a.finish)) && a.alternate.Some?
  {}

  /** Send `i` is attempt `k + i` of the world, and all but the last are attempts that go on. */
  ghost predicate SendIs(p: Params, w: World, k: nat, triesLeft: nat, instance: nat, sends: seq<Send>, i: nat)
    requires i < |sends|
  {
    var a, s := w(k + i), sends[i];
    && a.builds && s.start == a.start && !Passed(p.deadline, a.start)
    && i <= triesLeft && s.triesLeft == triesLeft - i
    && s.instance == (if i == 0 then instance else OfferedAfter(w(k + i - 1)))
    && s.outcome == (if RanOut(s.timer, a) then TimedOut else Replied(a.reply))
    && (i < |sends| - 1 ==> GoesOn(p, a, s.timer, s.triesLeft))
  }

  function OfferedAfter(a: Attempt): nat {
    if a.alternate.Some? then a.alternate.value else 0
  }

  /** Every send of the loop, for every world. */
  lemma {:induction false} SendsFollowTheWorld(p: Params, w: World, k: nat, triesLeft: nat, instance: nat, body: Body, i: nat)
    requires i < |Attempts(p, w, k, triesLeft, instance, body).1|
    ensures SendIs(p, w, k, triesLeft, instance, Attempts(p, w, k, triesLeft, instance, body).1, i)
    decreases triesLeft
  {
    hide ShouldAttemptRetry, Ended;
    OneAttempt(p, w, k, triesLeft, instance, body);
    var timer := PerTryTimeout(p.deadline, p.perTryBound, w(k).start).limit;
    PolicyIsGoesOn(p, w(k), timer, triesLeft);
    EndedIs(w(k), timer);
    hide Attempts, GoesOn;
    if i > 0 {
      SendsFollowTheWorld(p, w, k + 1, triesLeft - 1, w(k).alternate.value, Empty, i - 1);
    }
  }

  lemma {:induction false} EndedIs(a: Attempt, timer: nat)
    ensures Ended(a, timer) == if RanOut(timer, a) then TimedOut else Replied(a.reply)
  {}

  /** The verdict after the last send, when that send does not go on. */
  ghost predicate Reports(v: Verdict, p: Params, a: Attempt, timer: nat) {
    if RanOut(timer, a) then v == (if Passed(p.deadline, a.finish) then OverallTimeout else PerTryTimedOut)
    else match a.reply
         case Response(status) => v == Responded(status)
         case Failed(connect) => v == SendFailed(connect)
  }

  /**
    The verdict, for every world. After the last send's attempt, unless it goes on, the loop
    reports how that attempt ended; if it goes on, or before any send, the next attempt could not
    start: the deadline had passed, or the request could not be built.
   */
  lemma {:induction false} VerdictFollowsTheWorld(p: Params, w: World, k: nat, triesLeft: nat, instance: nat, body: Body)
    ensures ghost var (v, sends) := Attempts(p, w, k, triesLeft, instance, body);
            ghost var n := |sends|;
            if n > 0 && !GoesOn(p, w(k + n - 1), sends[n - 1].timer, sends[n - 1].triesLeft)
            then Reports(v, p, w(k + n - 1), sends[n - 1].timer)
            else if Passed(p.deadline, w(k + n).start) then v == OverallTimeout
            else v == BuildFailed && !w(k + n).builds
    decreases triesLeft
  {
    var (v, sends) := Attempts(p, w, k, triesLeft, instance, body);
    OneAttempt(p, w, k, triesLeft, instance, body);
    hide Attempts;
    if sends != [] {
      var timer := PerTryTimeout(p.deadline, p.perTryBound, w(k).start).limit;
      PolicyIsGoesOn(p, w(k), timer, triesLeft);
      if GoesOn(p, w(k), timer, triesLeft) {
        VerdictFollowsTheWorld(p, w, k + 1, triesLeft - 1, w(k).alternate.value, Empty);
      }
    }
  }

  /** The attempt may have reached an upstream. */
  predicate Reached(s: Send) {
    s.outcome != Replied(Failed(true))
  }

  /** Every attempt but the last ended in a way that permits a retry, and the next took the alternate. */
  lemma {:induction false} RetriedForAReason(p: Params, w: World, k: nat, triesLeft: nat, instance: nat, body: Body, i: nat)
    requires i < |Attempts(p, w, k, triesLeft, instance, body).1| - 1
    ensures ghost var sends := Attempts(p, w, k, triesLeft, instance, body).1;
            && p.bodyless && sends[i].triesLeft > 0
            && GoesOn(p, w(k + i), sends[i].timer, sends[i].triesLeft)
            && Some(sends[i + 1].instance) == w(k + i).alternate
            && sends[i + 1].triesLeft == sends[i].triesLeft - 1
  {
    SendsFollowTheWorld(p, w, k, triesLeft, instance, body, i);
    SendsFollowTheWorld(p, w, k, triesLeft, instance, body, i + 1);
  }

  /**
    A request whose method is not idempotent is retried after connect failures only, so at most
    one of its attempts, the last, can have reached an upstream.
   */
  lemma {:induction false} NonIdempotentReachesOnce(p: Params, w: World, maxRetries: nat, pick: nat, body: Body, i: nat)
    requires p.verb !in {"GET", "HEAD", "PUT", "DELETE", "OPTIONS", "TRACE"}
    requires i < |Attempts(p, w, 0, maxRetries, pick, body).1| - 1
    ensures !Reached(Attempts(p, w, 0, maxRetries, pick, body).1[i])
  {
    SendsFollowTheWorld(p, w, 0, maxRetries, pick, body, i);
  }

  /** No attempt is repeated after an answer other than 502, 503 or 504. */
  lemma {:induction false} AnsweredOnce(p: Params, w: World, maxRetries: nat, pick: nat, body: Body, i: nat)
    requires i < |Attempts(p, w, 0, maxRetries, pick, body).1| - 1
    ensures ghost var o := Attempts(p, w, 0, maxRetries, pick, body).1[i].outcome;
            || o == TimedOut || o == Replied(Failed(true))
            || o in {Replied(Response(502)), Replied(Response(503)), Replied(Response(504))}
  {
    SendsFollowTheWorld(p, w, 0, maxRetries, pick, body, i);
  }

  /**
    Under an overall deadline every attempt starts before it, with a timer that is set and runs
    out no later than it: the per-try bound, or what is left if that is less. The loop never waits
    without a timer.
   */
  lemma {:induction false} DeadlineIsKept(p: Params, w: World, k: nat, triesLeft: nat, instance: nat, body: Body, i: nat)
    requires p.deadline.Some? && i < |Attempts(p, w, k, triesLeft, instance, body).1|
    ensures ghost var s := Attempts(p, w, k, triesLeft, instance, body).1[i];
            && s.start == w(k + i).start < p.deadline.value
            && 0 < s.timer && s.start + s.timer <= p.deadline.value
            && (p.perTryBound != 0 ==> s.timer <= p.perTryBound)
            && (s.timer == p.perTryBound || s.start + s.timer == p.deadline.value)
    decreases triesLeft
  {
    if i > 0 {
      DeadlineIsKept(p, w, k + 1, triesLeft - 1, w(k).alternate.value, Empty, i - 1);
    }
  }

  /** Without a deadline every attempt gets the per-try bound itself. */
  lemma {:induction false} PerTryBoundIsKept(p: Params, w: World, k: nat, triesLeft: nat, instance: nat, body: Body, i: nat)
    requires p.deadline.None? && i < |Attempts(p, w, k, triesLeft, instance, body).1|
    ensures Attempts(p, w, k, triesLeft, instance, body).1[i].timer == p.perTryBound
    decreases triesLeft
  {
    if i > 0 {
      PerTryBoundIsKept(p, w, k + 1, triesLeft - 1, w(k).alternate.value, Empty, i - 1);
    }
  }
}
