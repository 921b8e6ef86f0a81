/**
 * The feed consumer `Thread` of `pubsub/thread.go` as a step function.
 *
 * The broker reader is an abstract stream of fetch results; the process-wide
 * `IsShuttingDown` flag is read with each event. Sleeps are recorded in
 * `delays` (seconds) rather than taken, commits in `commits`, and the
 * throughput log lines are counted in `reports`.
 */
module Consumer {
  import opened SegmentPath
  import Relay

  const LogInterval: nat := 100
  const FailureLimit: nat := 200
  const BackoffCapAttempts: nat := 8

  /** A fetched broker record: its timestamp (ns since the epoch) and value. */
  datatype BrokerMessage = BrokerMessage(time: int, value: string)

  datatype Fetch = FetchFailed | Fetched(m: BrokerMessage)

  /** One turn of the inner loop, with the shutdown flag as it is read afterwards. */
  datatype Event = Event(fetch: Fetch, shuttingDown: bool)

  /** `Running`, left by `break outer` (`Stopped`) or by the fatal overload exit (`Crashed`). */
  datatype Status = Running | Stopped | Crashed

  datatype Consumer = Consumer(
    failedAttempts: nat,
    messageCounter: nat,
    rawChanFailures: nat,
    queue: seq<Message>,
    commits: seq<BrokerMessage>,
    delays: seq<nat>,
    reports: nat,
    status: Status)

  /** The consumer as `Thread` starts it, with the given channel contents. */
  function Start(queue: seq<Message>): Consumer {
    Consumer(0, 0, 0, queue, [], [], 0, Running)
  }

  function Pow2(k: nat): (r: nat)
    ensures r >= 1
  {
    if k == 0 then 1 else 2 * Pow2(k - 1)
  }

  function Min(a: int, b: int): int {
    if a < b then a else b
  }

  /** `1 << (min(failedAttempts, 8) - 1)` seconds, slept before reconnecting. */
  function Backoff(failedAttempts: nat): (seconds: nat)
    requires failedAttempts >= 1
  {
    Pow2(Min(failedAttempts, BackoffCapAttempts) - 1)
  }

  /** The delay doubles with each failure, from 1 second up to a cap of 128 seconds. */
  lemma {:induction false} BackoffSchedule(n: nat)
    requires n >= 1
    ensures 1 <= Backoff(n) <= 128
    ensures n == 1 ==> Backoff(n) == 1
    ensures n < 8 ==> Backoff(n + 1) == 2 * Backoff(n)
    ensures n >= 8 ==> Backoff(n) == 128
  {
    assert Pow2(7) == 128;
    var k: nat := Min(n, 8) - 1;
    assert Pow2(k) <= Pow2(7) by {
      PowMonotone(k, 7);
    }
  }

  lemma {:induction false} PowMonotone(a: nat, b: nat)
    requires a <= b
    ensures Pow2(a) <= Pow2(b)
    decreases b - a
  {
    if a < b {
      PowMonotone(a, b - 1);
    }
  }

  lemma BackoffExamples()
    ensures Backoff(1) == 1 && Backoff(2) == 2 && Backoff(4) == 8
    ensures Backoff(8) == 128 && Backoff(9) == 128
  {
    assert Pow2(7) == 128;
  }

  /** On a successful hand-off the overload counter drops by 2, but only from 2 or more. */
  function Relieve(failures: nat): (r: nat)
    ensures failures >= 2 ==> r + 2 == failures
    ensures failures < 2 ==> r == failures
  {
    if failures >= 2 then failures - 2 else failures
  }

  /** The message as handed to the writer: its value, filed under its time in UTC. */
  function ToRaw(m: BrokerMessage): (r: Message)
    ensures r.payload == m.value && WallClock(r.time) == m.time
    ensures r.time.instant == m.time && r.time.offset == 0
  {
    Message(Utc(m.time), m.value)
  }

  /**
   * One event. A fetch error counts a failed attempt and reconnects after
   * the backoff, without looking at the shutdown flag. A fetched message
   * bumps the log counter, is offered to the queue, is committed only if
   * accepted, counts towards the fatal overload threshold if rejected, and
   * then the shutdown flag is checked.
   */
  function Step(s: Consumer, e: Event): (r: Consumer)
    ensures s.status != Running ==> r == s
    ensures r.failedAttempts
         == s.failedAttempts + (if s.status == Running && e.fetch.FetchFailed? then 1 else 0)
  {
    if s.status != Running then s
    else match e.fetch
      case FetchFailed =>
        var attempts := s.failedAttempts + 1;
        s.(failedAttempts := attempts, delays := s.delays + [Backoff(attempts)])
      case Fetched(m) =>
        var counter := s.messageCounter + 1;
        var logged := counter % LogInterval == 0;
        var counted := s.(messageCounter := if logged then 0 else counter,
                          reports := if logged then s.reports + 1 else s.reports);
        var sent := Relay.TrySend(s.queue, ToRaw(m));
        if sent.1 then
          var accepted := counted.(rawChanFailures := Relieve(s.rawChanFailures),
                                   queue := sent.0,
                                   commits := s.commits + [m]);
          accepted.(status := if e.shuttingDown then Stopped else Running)
        else
          var failures := s.rawChanFailures + 1;
          var rejected := counted.(rawChanFailures := failures);
          if failures > FailureLimit then rejected.(status := Crashed)
          else rejected.(status := if e.shuttingDown then Stopped else Running)
  }

  function Run(s: Consumer, evs: seq<Event>): Consumer
    decreases |evs|
  {
    if evs == [] then s else Run(Step(s, evs[0]), evs[1..])
  }

  /** A message is committed exactly when the queue took it; a rejected one never is. */
  lemma CommitIffAccepted(s: Consumer, m: BrokerMessage, shuttingDown: bool)
    requires s.status == Running
    ensures var r := Step(s, Event(Fetched(m), shuttingDown));
      && (|s.queue| < Relay.Capacity <==> r.commits == s.commits + [m])
      && (|s.queue| < Relay.Capacity <==> r.queue == s.queue + [ToRaw(m)])
      && (|s.queue| >= Relay.Capacity <==> r.commits == s.commits && r.queue == s.queue)
  {
  }

  /** The overload counter: +1 per rejection, fatal exactly beyond 200; relieved per acceptance. */
  lemma OverloadCounter(s: Consumer, m: BrokerMessage, shuttingDown: bool)
    requires s.status == Running
    ensures var r := Step(s, Event(Fetched(m), shuttingDown));
      && (|s.queue| >= Relay.Capacity ==> r.rawChanFailures == s.rawChanFailures + 1)
      && (|s.queue| >= Relay.Capacity ==> (r.status == Crashed <==> s.rawChanFailures >= 200))
      && (|s.queue| < Relay.Capacity ==> r.rawChanFailures == Relieve(s.rawChanFailures))
      && (|s.queue| < Relay.Capacity ==> r.status != Crashed)
  {
  }

  /** The shutdown flag stops the consumer after any processed message, but never after a fetch error. */
  lemma ShutdownObserved(s: Consumer, f: Fetch)
    requires s.status == Running
    ensures f.Fetched? ==> Step(s, Event(f, true)).status != Running
    ensures f.Fetched? ==> Step(s, Event(f, false)).status != Stopped
    ensures f.FetchFailed? ==> Step(s, Event(f, true)).status == Running
  {
  }

  /** What holds of every consumer reachable from `Start`. */
  ghost predicate Invariant(s: Consumer) {
    && s.messageCounter < LogInterval
    && |s.delays| == s.failedAttempts
    && (forall i :: 0 <= i < |s.delays| ==> s.delays[i] == Backoff(i + 1))
    && |s.queue| <= Relay.Capacity
    && (s.status == Running ==> s.rawChanFailures <= FailureLimit)
  }

  lemma StartInvariant(queue: seq<Message>)
    requires |queue| <= Relay.Capacity
    ensures Invariant(Start(queue))
  {
  }

  lemma StepInvariant(s: Consumer, e: Event)
    requires Invariant(s)
    ensures Invariant(Step(s, e))
  {
  }

  /**
   * Along any run the log counter stays in [0, 99], the queue within its
   * capacity, and the recorded sleeps are exactly 1, 2, 4, … seconds, one
   * per failed attempt; `failedAttempts` never decreases.
   */
  lemma {:induction false} RunInvariant(s: Consumer, evs: seq<Event>)
    requires Invariant(s)
    ensures Invariant(Run(s, evs))
    ensures Run(s, evs).failedAttempts >= s.failedAttempts
    ensures s.delays <= Run(s, evs).delays
    decreases |evs|
  {
    if evs != [] {
      StepInvariant(s, evs[0]);
      RunInvariant(Step(s, evs[0]), evs[1..]);
    }
  }

  /** Events fetching each of `ms` in turn, with no shutdown requested. */
  function FetchAll(ms: seq<BrokerMessage>): (evs: seq<Event>)
    ensures |evs| == |ms|
  {
    if ms == [] then [] else [Event(Fetched(ms[0]), false)] + FetchAll(ms[1..])
  }

  function ToRawAll(ms: seq<BrokerMessage>): (r: seq<Message>)
    ensures |r| == |ms|
  {
    if ms == [] then [] else [ToRaw(ms[0])] + ToRawAll(ms[1..])
  }

  lemma {:induction false} ToRawAllAppend(a: seq<BrokerMessage>, b: seq<BrokerMessage>)
    ensures ToRawAll(a + b) == ToRawAll(a) + ToRawAll(b)
    decreases |a|
  {
    if a == [] {
      assert a + b == b;
    } else {
      assert (a + b)[1..] == a[1..] + b;
      ToRawAllAppend(a[1..], b);
    }
  }

  /** The log counter's arithmetic: one more message, then `n` more, is `n + 1` more. */
  lemma CounterStep(c: nat, n: nat)
    requires c < LogInterval
    ensures var wrapped := (c + 1) % LogInterval == 0;
      var c' := if wrapped then 0 else c + 1;
      && (c' + n) % LogInterval == (c + 1 + n) % LogInterval
      && (if wrapped then 1 else 0) + (c' + n) / LogInterval == (c + 1 + n) / LogInterval
  {
    if c + 1 == 100 {
      assert (c + 1 + n) / 100 == 1 + n / 100;
      assert (c + 1 + n) % 100 == n % 100;
    }
  }

  /** One fetched message the queue has room for, with no shutdown requested. */
  lemma StepAccepted(s: Consumer, m: BrokerMessage)
    requires s.status == Running && |s.queue| < Relay.Capacity
    ensures var r := Step(s, Event(Fetched(m), false));
      && r.status == Running
      && r.queue == s.queue + [ToRaw(m)]
      && r.commits == s.commits + [m]
      && r.messageCounter == (if (s.messageCounter + 1) % LogInterval == 0 then 0 else s.messageCounter + 1)
      && r.reports == s.reports + (if (s.messageCounter + 1) % LogInterval == 0 then 1 else 0)
  {
  }

  /** Messages that fit in the queue are all accepted, in order, each committed once. */
  lemma {:induction false} AcceptedBurst(s: Consumer, ms: seq<BrokerMessage>)
    requires s.status == Running
    requires |s.queue| + |ms| <= Relay.Capacity
    ensures var r := Run(s, FetchAll(ms));
      && r.status == Running
      && r.queue == s.queue + ToRawAll(ms)
      && r.commits == s.commits + ms
    decreases |ms|
  {
    if ms == [] {
      assert s.queue + ToRawAll(ms) == s.queue;
      assert s.commits + ms == s.commits;
    } else {
      var evs := FetchAll(ms);
      assert evs[0] == Event(Fetched(ms[0]), false);
      assert evs[1..] == FetchAll(ms[1..]);
      var next := Step(s, evs[0]);
      assert Run(s, evs) == Run(next, evs[1..]);
      StepAccepted(s, ms[0]);
      AcceptedBurst(next, ms[1..]);
      var raw := ToRaw(ms[0]);
      var rest := ToRawAll(ms[1..]);
      assert ToRawAll(ms) == [raw] + rest;
      assert next.queue == s.queue + [raw];
      assert (s.queue + [raw]) + rest == s.queue + ([raw] + rest);
      assert s.commits + [ms[0]] + ms[1..] == s.commits + ms;
    }
  }

  /** While every message is accepted, a throughput line is logged once per 100 messages. */
  lemma {:induction false} AcceptedBurstReports(s: Consumer, ms: seq<BrokerMessage>)
    requires s.status == Running && s.messageCounter < LogInterval
    requires |s.queue| + |ms| <= Relay.Capacity
    ensures var r := Run(s, FetchAll(ms));
      && r.messageCounter == (s.messageCounter + |ms|) % LogInterval
      && r.reports == s.reports + (s.messageCounter + |ms|) / LogInterval
    decreases |ms|
  {
    if ms != [] {
      var evs := FetchAll(ms);
      assert evs[0] == Event(Fetched(ms[0]), false);
      assert evs[1..] == FetchAll(ms[1..]);
      var next := Step(s, evs[0]);
      assert Run(s, evs) == Run(next, evs[1..]);
      StepAccepted(s, ms[0]);
      CounterStep(s.messageCounter, |ms| - 1);
      AcceptedBurstReports(next, ms[1..]);
    }
  }

  /**
   * Into a full queue, `k` rejections in a row from a counter of `c` are
   * survived while `c + k <= 200` and nothing is committed; one more is fatal.
   */
  lemma {:induction false} RejectedBurst(s: Consumer, ms: seq<BrokerMessage>)
    requires s.status == Running && |s.queue| >= Relay.Capacity
    requires s.rawChanFailures <= FailureLimit
    ensures var r := Run(s, FetchAll(ms));
      && (s.rawChanFailures + |ms| <= FailureLimit ==>
           r.status == Running && r.rawChanFailures == s.rawChanFailures + |ms|
           && r.commits == s.commits && r.queue == s.queue)
      && (s.rawChanFailures + |ms| > FailureLimit ==> r.status == Crashed)
    decreases |ms|
  {
    if ms != [] {
      var evs := FetchAll(ms);
      assert evs[0] == Event(Fetched(ms[0]), false);
      assert evs[1..] == FetchAll(ms[1..]);
      var next := Step(s, evs[0]);
      if next.status == Running {
        RejectedBurst(next, ms[1..]);
      } else {
        assert next.status == Crashed;
        CrashedStays(next, evs[1..]);
      }
    }
  }

  lemma {:induction false} CrashedStays(s: Consumer, evs: seq<Event>)
    requires s.status != Running
    ensures Run(s, evs) == s
    decreases |evs|
  {
    if evs != [] {
      CrashedStays(s, evs[1..]);
    }
  }

  /** From a fresh overload counter, 200 rejections are survived and the 201st is fatal. */
  lemma OverloadThreshold(s: Consumer, ms: seq<BrokerMessage>)
    requires s.status == Running && |s.queue| >= Relay.Capacity && s.rawChanFailures == 0
    ensures |ms| <= 200 ==> Run(s, FetchAll(ms)).status == Running
    ensures |ms| == 201 ==> Run(s, FetchAll(ms)).status == Crashed
  {
    RejectedBurst(s, ms);
  }

  /** Fetch errors, each read with the given shutdown flag. */
  function FailAll(flags: seq<bool>): (evs: seq<Event>)
    ensures |evs| == |flags|
  {
    if flags == [] then [] else [Event(FetchFailed, flags[0])] + FailAll(flags[1..])
  }

  /** The sleeps taken after failed attempts `k + 1` through `k + n`. */
  function Sleeps(k: nat, n: nat): (r: seq<nat>)
    ensures |r| == n
    decreases n
  {
    if n == 0 then [] else [Backoff(k + 1)] + Sleeps(k + 1, n - 1)
  }

  /** Fetch errors alone never stop the consumer, shutdown or not; each adds the next backoff sleep. */
  lemma {:induction false} FailuresOnly(s: Consumer, flags: seq<bool>)
    requires s.status == Running
    ensures var r := Run(s, FailAll(flags));
      && r.status == Running
      && r.failedAttempts == s.failedAttempts + |flags|
      && r.queue == s.queue && r.commits == s.commits
      && r.delays == s.delays + Sleeps(s.failedAttempts, |flags|)
    decreases |flags|
  {
    if flags == [] {
      assert s.delays + [] == s.delays;
    } else {
      var evs := FailAll(flags);
      assert evs[0] == Event(FetchFailed, flags[0]);
      assert evs[1..] == FailAll(flags[1..]);
      var next := Step(s, evs[0]);
      FailuresOnly(next, flags[1..]);
      assert s.delays + [Backoff(s.failedAttempts + 1)] + Sleeps(s.failedAttempts + 1, |flags| - 1)
          == s.delays + Sleeps(s.failedAttempts, |flags|);
    }
  }
}
