/**
 * The buffered channel between the feed consumer and the segment writer
 * (`make(chan *rawstore.XmlMessageWithTime, 500_000)` in `main.go`) and the
 * non-blocking `select { case ch <- m: … default: … }` send of
 * `pubsub/thread.go`: a FIFO queue that accepts while it has room.
 */
module Relay {
  import opened SegmentPath

  const Capacity: nat := 500_000

  /** A non-blocking send: accepted iff the queue has room, appended at the tail. */
  function TrySend(q: seq<Message>, m: Message): (r: (seq<Message>, bool))
    ensures r.1 <==> |q| < Capacity
    ensures r.1 ==> r.0 == q + [m]
    ensures !r.1 ==> r.0 == q
  {
    if |q| < Capacity then (q + [m], true) else (q, false)
  }

  /** Sends a burst, one after the other; returns the queue and how many were rejected. */
  function SendAll(q: seq<Message>, ms: seq<Message>): (r: (seq<Message>, nat))
    decreases |ms|
  {
    if ms == [] then (q, 0)
    else
      var first := TrySend(q, ms[0]);
      var rest := SendAll(first.0, ms[1..]);
      (rest.0, rest.1 + (if first.1 then 0 else 1))
  }

  /** A burst that fits in the free space is accepted whole and in order. */
  lemma {:induction false} BurstWithinCapacity(q: seq<Message>, ms: seq<Message>)
    requires |q| + |ms| <= Capacity
    ensures SendAll(q, ms) == (q + ms, 0)
    decreases |ms|
  {
    if ms != [] {
      BurstWithinCapacity(q + [ms[0]], ms[1..]);
      assert q + [ms[0]] + ms[1..] == q + ms;
    } else {
      assert q + ms == q;
    }
  }

  /** Into a full queue every send is rejected and nothing changes. */
  lemma {:induction false} BurstIntoFullQueue(q: seq<Message>, ms: seq<Message>)
    requires |q| >= Capacity
    ensures SendAll(q, ms) == (q, |ms|)
    decreases |ms|
  {
    if ms != [] {
      BurstIntoFullQueue(q, ms[1..]);
    }
  }
}
