/**
 * The feed consumer and the segment writer running side by side on one
 * channel, as `main.go` starts them: any interleaving of consumer events
 * and writer turns, where a writer turn takes the oldest queued message
 * and appends it to its segment.
 */
module Pipeline {
  import opened SegmentPath
  import opened SegmentStore
  import opened Consumer

  datatype Pipeline = Pipeline(consumer: Consumer, delivered: seq<Message>, fs: Fs)

  datatype Action = Feed(e: Event) | Write

  function Init(fs: Fs): Pipeline {
    Pipeline(Start([]), [], fs)
  }

  /** One turn of either thread; a writer turn on an empty channel waits. */
  function PipelineStep(p: Pipeline, a: Action, failing: set<string>): (r: Pipeline)
    ensures a.Write? && |p.consumer.queue| > 0 ==>
      r.delivered == p.delivered + [p.consumer.queue[0]] && r.consumer.queue == p.consumer.queue[1..]
  {
    match a
    case Feed(e) => p.(consumer := Step(p.consumer, e))
    case Write =>
      if p.consumer.queue == [] then p
      else
        var m := p.consumer.queue[0];
        p.(consumer := p.consumer.(queue := p.consumer.queue[1..]),
           delivered := p.delivered + [m],
           fs := Append(p.fs, m, failing).0)
  }

  function RunPipeline(p: Pipeline, actions: seq<Action>, failing: set<string>): Pipeline
    decreases |actions|
  {
    if actions == [] then p
    else RunPipeline(PipelineStep(p, actions[0], failing), actions[1..], failing)
  }

  /**
   * Every committed message has been handed over, in commit order: it is
   * either already written (or dropped by a failed append) or still queued;
   * and the files are exactly what writing the delivered ones produced.
   */
  ghost predicate Delivery(p: Pipeline, fs0: Fs, failing: set<string>) {
    && ToRawAll(p.consumer.commits) == p.delivered + p.consumer.queue
    && p.fs == Drain(fs0, p.delivered, failing)
  }

  /** A consumer event keeps `Delivery`: an accepted message is committed and queued together. */
  lemma FeedDelivery(p: Pipeline, e: Event, fs0: Fs, failing: set<string>)
    requires Delivery(p, fs0, failing)
    ensures Delivery(PipelineStep(p, Feed(e), failing), fs0, failing)
  {
    var c := p.consumer;
    if c.status == Running && e.fetch.Fetched? {
      CommitIffAccepted(c, e.fetch.m, e.shuttingDown);
      if |c.queue| < Relay.Capacity {
        ToRawAllAppend(c.commits, [e.fetch.m]);
        assert [ToRaw(e.fetch.m)] == ToRawAll([e.fetch.m]);
        assert p.delivered + (c.queue + [ToRaw(e.fetch.m)])
            == (p.delivered + c.queue) + [ToRaw(e.fetch.m)];
      }
    }
  }

  /** A writer turn keeps `Delivery`: the message it takes moves from the queue to the files. */
  lemma WriteDelivery(p: Pipeline, fs0: Fs, failing: set<string>)
    requires Delivery(p, fs0, failing)
    ensures Delivery(PipelineStep(p, Write, failing), fs0, failing)
  {
    if p.consumer.queue != [] {
      var q := p.consumer.queue;
      assert p.delivered + q == (p.delivered + [q[0]]) + q[1..];
      DrainSnoc(fs0, p.delivered, q[0], failing);
    }
  }

  /** Either thread's turn keeps `Delivery`. */
  lemma StepDelivery(p: Pipeline, a: Action, fs0: Fs, failing: set<string>)
    requires Delivery(p, fs0, failing)
    ensures Delivery(PipelineStep(p, a, failing), fs0, failing)
  {
    match a
    case Feed(e) => FeedDelivery(p, e, fs0, failing);
    case Write => WriteDelivery(p, fs0, failing);
  }

  /** `Delivery` holds in every state reachable from the start, whatever the interleaving. */
  lemma {:induction false} RunDelivery(p: Pipeline, actions: seq<Action>, fs0: Fs, failing: set<string>)
    requires Delivery(p, fs0, failing)
    ensures Delivery(RunPipeline(p, actions, failing), fs0, failing)
    decreases |actions|
  {
    if actions != [] {
      var q := PipelineStep(p, actions[0], failing);
      StepDelivery(p, actions[0], fs0, failing);
      RunDelivery(q, actions[1..], fs0, failing);
      assert RunPipeline(p, actions, failing) == RunPipeline(q, actions[1..], failing);
    }
  }

  /**
   * End to end: once the writer has emptied the channel, each writable
   * segment holds its old contents followed by one line per committed
   * message filed under it, in commit order.
   */
  lemma EndToEnd(fs0: Fs, actions: seq<Action>, failing: set<string>, path: string)
    requires !IsDir(fs0, path) && path !in failing
    requires RunPipeline(Init(fs0), actions, failing).consumer.queue == []
    ensures var p := RunPipeline(Init(fs0), actions, failing);
      Contents(p.fs, path)
        == Contents(fs0, path) + Lines(InSegment(ToRawAll(p.consumer.commits), path))
  {
    var p := RunPipeline(Init(fs0), actions, failing);
    assert Delivery(Init(fs0), fs0, failing);
    RunDelivery(Init(fs0), actions, fs0, failing);
    assert p.delivered + [] == p.delivered;
    DrainContents(fs0, p.delivered, failing, path);
  }
}
