/**
 * The segment writer of `rawstore/thread.go`: `appendMessageToFile` and the
 * `Thread` loop that drains the hand-off channel into hour-segment files.
 *
 * The filesystem is a map from paths relative to the work directory to
 * nodes; joining with the work directory is the identity in this frame.
 * `failing` names the segment paths at which `os.OpenFile` fails, for the
 * whole drain.
 */
module SegmentStore {
  import opened SegmentPath

  datatype Node = Dir | File(data: string)

  type Fs = map<string, Node>

  /** What a file holds, or the empty string if it does not exist yet. */
  function Contents(fs: Fs, p: string): string {
    if p in fs && fs[p].File? then fs[p].data else ""
  }

  predicate IsDir(fs: Fs, p: string) {
    p in fs && fs[p].Dir?
  }

  /** The line a message contributes to its segment. */
  function Line(m: Message): string {
    m.payload + "\n"
  }

  function Lines(ms: seq<Message>): (s: string)
    ensures ms == [] ==> s == ""
  {
    if ms == [] then "" else Line(ms[0]) + Lines(ms[1..])
  }

  /** The messages of `ms` filed under segment `p`, in order. */
  function InSegment(ms: seq<Message>, p: string): (r: seq<Message>)
    ensures |r| <= |ms|
  {
    if ms == [] then []
    else if FilePath(ms[0]) == p then [ms[0]] + InSegment(ms[1..], p)
    else InSegment(ms[1..], p)
  }

  /**
   * Opening `p` in append mode, creating it if absent, and writing `line`.
   * Opening a directory fails; so does any path in `failing`. Once the open
   * succeeds the write is taken to succeed. The flag says whether the line
   * was written.
   */
  function AppendLine(fs: Fs, p: string, line: string, failing: set<string>): (r: (Fs, bool))
    ensures r.1 <==> !IsDir(fs, p) && p !in failing
    ensures r.1 ==> p in r.0 && r.0[p] == File(Contents(fs, p) + line)
    ensures !r.1 ==> r.0 == fs
    ensures r.0.Keys == fs.Keys + (if r.1 then {p} else {})
    ensures forall q :: q != p && q in fs ==> r.0[q] == fs[q]
  {
    if IsDir(fs, p) || p in failing then (fs, false)
    else (fs[p := File(Contents(fs, p) + line)], true)
  }

  /**
   * `appendMessageToFile`: the payload and a newline are appended to the
   * segment of the message's own time, not of the wall clock.
   */
  function Append(fs: Fs, m: Message, failing: set<string>): (r: (Fs, bool))
    ensures var p := FilePath(m);
      && (r.1 <==> !IsDir(fs, p) && p !in failing)
      && (r.1 ==> p in r.0 && r.0[p] == File(Contents(fs, p) + m.payload + "\n"))
      && (!r.1 ==> r.0 == fs)
      && (forall q :: q != p && q in fs ==> q in r.0 && r.0[q] == fs[q])
      && r.0.Keys <= fs.Keys + {p}
  {
    AppendLine(fs, FilePath(m), Line(m), failing)
  }

  /** A message reduced to what the writer does with it: a target path and a line. */
  datatype Filed = Filed(path: string, line: string)

  function Filing(ms: seq<Message>): (ws: seq<Filed>)
    ensures |ws| == |ms|
  {
    if ms == [] then [] else [Filed(FilePath(ms[0]), Line(ms[0]))] + Filing(ms[1..])
  }

  function DrainFiled(fs: Fs, ws: seq<Filed>, failing: set<string>): Fs
    decreases |ws|
  {
    if ws == [] then fs
    else DrainFiled(AppendLine(fs, ws[0].path, ws[0].line, failing).0, ws[1..], failing)
  }

  /** The writer loop's effect: every received message appended in order; failed ones dropped. */
  function Drain(fs: Fs, ms: seq<Message>, failing: set<string>): Fs {
    DrainFiled(fs, Filing(ms), failing)
  }

  /** The lines of the filings that target `p`, in order. */
  function LinesAt(ws: seq<Filed>, p: string): string {
    if ws == [] then ""
    else (if ws[0].path == p then ws[0].line else "") + LinesAt(ws[1..], p)
  }

  lemma {:induction false} LinesAppend(a: seq<Message>, b: seq<Message>)
    ensures Lines(a + b) == Lines(a) + Lines(b)
    decreases |a|
  {
    if a == [] {
      assert a + b == b;
    } else {
      assert (a + b)[1..] == a[1..] + b;
      LinesAppend(a[1..], b);
    }
  }

  lemma {:induction false} DrainFiledContents(fs: Fs, ws: seq<Filed>, failing: set<string>, p: string)
    requires !IsDir(fs, p) && p !in failing
    ensures Contents(DrainFiled(fs, ws, failing), p) == Contents(fs, p) + LinesAt(ws, p)
    ensures !IsDir(DrainFiled(fs, ws, failing), p)
    decreases |ws|
  {
    if ws == [] {
      assert Contents(fs, p) + "" == Contents(fs, p);
    } else {
      var next := AppendLine(fs, ws[0].path, ws[0].line, failing).0;
      var head := if ws[0].path == p then ws[0].line else "";
      assert Contents(next, p) == Contents(fs, p) + head;
      DrainFiledContents(next, ws[1..], failing, p);
      assert (Contents(fs, p) + head) + LinesAt(ws[1..], p) == Contents(fs, p) + (head + LinesAt(ws[1..], p));
    }
  }

  lemma {:induction false} FilingLines(ms: seq<Message>, p: string)
    ensures LinesAt(Filing(ms), p) == Lines(InSegment(ms, p))
    decreases |ms|
  {
    if ms != [] {
      FilingLines(ms[1..], p);
      assert Filing(ms)[1..] == Filing(ms[1..]);
      var tail := Lines(InSegment(ms[1..], p));
      if FilePath(ms[0]) == p {
        assert ([ms[0]] + InSegment(ms[1..], p))[1..] == InSegment(ms[1..], p);
      } else {
        assert "" + tail == tail;
      }
    }
  }

  /**
   * After draining, each writable segment holds its old contents followed by
   * the lines of exactly the messages filed under it, in dequeue order.
   */
  lemma DrainContents(fs: Fs, ms: seq<Message>, failing: set<string>, p: string)
    requires !IsDir(fs, p) && p !in failing
    ensures Contents(Drain(fs, ms, failing), p) == Contents(fs, p) + Lines(InSegment(ms, p))
    ensures !IsDir(Drain(fs, ms, failing), p)
  {
    DrainFiledContents(fs, Filing(ms), failing, p);
    FilingLines(ms, p);
  }

  lemma {:induction false} DrainFiledBlocked(fs: Fs, ws: seq<Filed>, failing: set<string>, p: string)
    requires IsDir(fs, p) || p in failing
    ensures p in DrainFiled(fs, ws, failing) <==> p in fs
    ensures p in fs ==> DrainFiled(fs, ws, failing)[p] == fs[p]
    decreases |ws|
  {
    if ws != [] {
      DrainFiledBlocked(AppendLine(fs, ws[0].path, ws[0].line, failing).0, ws[1..], failing, p);
    }
  }

  /** A directory, or a path at which writing fails, is left exactly as it was. */
  lemma DrainBlocked(fs: Fs, ms: seq<Message>, failing: set<string>, p: string)
    requires IsDir(fs, p) || p in failing
    ensures p in Drain(fs, ms, failing) <==> p in fs
    ensures p in fs ==> Drain(fs, ms, failing)[p] == fs[p]
  {
    DrainFiledBlocked(fs, Filing(ms), failing, p);
  }

  lemma {:induction false} FilingFrame(ms: seq<Message>, p: string)
    requires forall m :: m in ms ==> FilePath(m) != p
    ensures forall i :: 0 <= i < |Filing(ms)| ==> Filing(ms)[i].path != p
    decreases |ms|
  {
    if ms != [] {
      assert ms[0] in ms;
      FilingFrame(ms[1..], p);
      assert Filing(ms) == [Filed(FilePath(ms[0]), Line(ms[0]))] + Filing(ms[1..]);
    }
  }

  lemma {:induction false} DrainFiledFrame(fs: Fs, ws: seq<Filed>, failing: set<string>, p: string)
    requires forall i :: 0 <= i < |ws| ==> ws[i].path != p
    ensures p in DrainFiled(fs, ws, failing) <==> p in fs
    ensures p in fs ==> DrainFiled(fs, ws, failing)[p] == fs[p]
    decreases |ws|
  {
    if ws != [] {
      DrainFiledFrame(AppendLine(fs, ws[0].path, ws[0].line, failing).0, ws[1..], failing, p);
    }
  }

  /** A path no message is filed under is not touched by the writer. */
  lemma DrainFrame(fs: Fs, ms: seq<Message>, failing: set<string>, p: string)
    requires forall m :: m in ms ==> FilePath(m) != p
    ensures p in Drain(fs, ms, failing) <==> p in fs
    ensures p in fs ==> Drain(fs, ms, failing)[p] == fs[p]
  {
    FilingFrame(ms, p);
    DrainFiledFrame(fs, Filing(ms), failing, p);
  }

  lemma {:induction false} DrainFiledSnoc(fs: Fs, ws: seq<Filed>, w: Filed, failing: set<string>)
    ensures DrainFiled(fs, ws + [w], failing)
         == AppendLine(DrainFiled(fs, ws, failing), w.path, w.line, failing).0
    decreases |ws|
  {
    if ws == [] {
      assert (ws + [w])[1..] == [];
    } else {
      assert (ws + [w])[1..] == ws[1..] + [w];
      DrainFiledSnoc(AppendLine(fs, ws[0].path, ws[0].line, failing).0, ws[1..], w, failing);
    }
  }

  lemma {:induction false} FilingSnoc(ms: seq<Message>, m: Message)
    ensures Filing(ms + [m]) == Filing(ms) + [Filed(FilePath(m), Line(m))]
    decreases |ms|
  {
    if ms == [] {
      assert ms + [m] == [m];
    } else {
      assert (ms + [m])[1..] == ms[1..] + [m];
      FilingSnoc(ms[1..], m);
    }
  }

  lemma {:induction false} FilingAt(ms: seq<Message>, i: nat)
    requires i < |ms|
    ensures Filing(ms)[i] == Filed(FilePath(ms[i]), Line(ms[i]))
    decreases i
  {
    if i > 0 {
      FilingAt(ms[1..], i - 1);
    }
  }

  /** Draining one more message appends it to what the earlier ones left. */
  lemma DrainSnoc(fs: Fs, ms: seq<Message>, m: Message, failing: set<string>)
    ensures Drain(fs, ms + [m], failing) == Append(Drain(fs, ms, failing), m, failing).0
  {
    FilingSnoc(ms, m);
    DrainFiledSnoc(fs, Filing(ms), Filed(FilePath(m), Line(m)), failing);
  }

  /** One turn of the writer loop, in terms of the filings of the whole channel. */
  lemma DrainOneMore(fs: Fs, channel: seq<Message>, i: nat, failing: set<string>)
    requires i < |channel|
    ensures DrainFiled(fs, Filing(channel)[..i + 1], failing)
         == AppendLine(DrainFiled(fs, Filing(channel)[..i], failing),
                       FilePath(channel[i]), Line(channel[i]), failing).0
  {
    var w := Filed(FilePath(channel[i]), Line(channel[i]));
    FilingAt(channel, i);
    assert Filing(channel)[..i + 1] == Filing(channel)[..i] + [w];
    DrainFiledSnoc(fs, Filing(channel)[..i], w, failing);
  }

  datatype WriterResult = Panicked | Finished(fs: Fs)

  /**
   * `Thread`: an empty work directory panics before any message is taken;
   * otherwise the channel is drained until it is closed, here the end of
   * `channel`, with each failed append dropped and the loop carrying on.
   */
  method Thread(workdir: string, fs: Fs, channel: seq<Message>, failing: set<string>)
    returns (r: WriterResult)
    ensures workdir == "" <==> r.Panicked?
    ensures r.Finished? ==> r.fs == Drain(fs, channel, failing)
  {
    if workdir == "" {
      return Panicked;
    }
    var current := fs;
    var i := 0;
    while i < |channel|
      invariant 0 <= i <= |channel|
      invariant current == DrainFiled(fs, Filing(channel)[..i], failing)
    {
      var m := channel[i];
      DrainOneMore(fs, channel, i, failing);
      var step := Append(current, m, failing);
      current := step.0;
      i := i + 1;
    }
    assert Filing(channel)[..i] == Filing(channel);
    return Finished(current);
  }
}
