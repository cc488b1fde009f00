/** The strand-driven write queue of server_ws.hpp and client_ws.hpp: each queued item is written
    in parts (header and body on the server, one part on the client), one asynchronous write at
    a time, and every completion handler starts the next. */
module WriteQueue {
  import WebSocketFraming

  type Bytes = seq<WebSocketFraming.byte>

  /** A queued send: what one connection writes for it, part by part. */
  datatype Item = Item(parts: seq<Bytes>)

  /** An outstanding asynchronous operation: a posted send_from_queue, or a write of some part of
      the item in front, with the bytes not yet on the wire. */
  datatype Op = Posted | Writing(part: nat, left: Bytes)

  datatype State = State(
    queue: seq<Item>,
    ops: seq<Op>,              // everything outstanding; nothing in the type says there is at most one
    wire: Bytes,
    stopped: bool,             // the scope runner grants no more locks
    results: seq<bool>,        // callbacks made, with or without an error
    sent: seq<Item>,           // every item ever queued
    failed: bool)              // some write has reported an error

  datatype Event =
    | Enqueue(item: Item)            // the task a send posts to the strand
    | RunPosted(op: nat)             // a posted send_from_queue runs
    | Progress(op: nat, count: nat)  // some bytes of an outstanding write reach the wire
    | Complete(op: nat, ok: bool)    // its completion handler runs; success means all bytes were written
    | Stop

  const INITIAL := State([], [], [], false, [], [], false)

  predicate Enabled(s: State, e: Event) {
    match e
    case Enqueue(item) => item.parts != []
    case RunPosted(i) => i < |s.ops| && s.ops[i].Posted?
    case Progress(i, count) => i < |s.ops| && s.ops[i].Writing? && count <= |s.ops[i].left|
    case Complete(i, ok) => i < |s.ops| && s.ops[i].Writing? && (ok ==> s.ops[i].left == [])
    case Stop => true
  }

  function Without<T>(s: seq<T>, i: nat): seq<T>
    requires i < |s|
  {
    s[..i] + s[i + 1..]
  }

  /** A handler's effect. Begin-of-queue accesses name the item in front at that moment. */
  function Step(s: State, e: Event): State
    requires Enabled(s, e)
  {
    match e
    case Enqueue(item) =>
      var queued := s.(queue := s.queue + [item], sent := s.sent + [item]);
      if |queued.queue| == 1 then queued.(ops := s.ops + [Posted]) else queued
    case RunPosted(i) =>
      s.(ops := s.ops[i := Writing(0, Front(s, 0))])
    case Progress(i, count) =>
      var w := s.ops[i];
      s.(ops := s.ops[i := w.(left := w.left[count..])], wire := s.wire + w.left[..count])
    case Complete(i, ok) =>
      var rest := s.(ops := Without(s.ops, i));
      if s.stopped then rest.(failed := s.failed || !ok)
      else if !ok then rest.(queue := [], results := s.results + [false], failed := true)
      else if s.queue != [] && s.ops[i].part + 1 < |s.queue[0].parts| then
        rest.(ops := rest.ops + [Writing(s.ops[i].part + 1, Front(s, s.ops[i].part + 1))])
      else
        var popped := rest.(queue := if s.queue == [] then [] else s.queue[1..], results := s.results + [true]);
        if popped.queue != [] then popped.(ops := popped.ops + [Posted]) else popped
    case Stop => s.(stopped := true)
  }

  function Front(s: State, part: nat): Bytes {
    if s.queue != [] && part < |s.queue[0].parts| then s.queue[0].parts[part] else []
  }

  function After(events: seq<Event>): State {
    if events == [] then INITIAL
    else
      var s, e := After(events[..|events| - 1]), events[|events| - 1];
      if Enabled(s, e) then Step(s, e) else s
  }

  lemma AfterStep(events: seq<Event>, e: Event)
    requires Enabled(After(events), e)
    ensures After(events + [e]) == Step(After(events), e)
  {
    assert (events + [e])[..|events + [e]| - 1] == events;
  }

  // ---------- What holds in every state ----------

  function Joined(parts: seq<Bytes>): Bytes {
    if parts == [] then [] else Joined(parts[..|parts| - 1]) + parts[|parts| - 1]
  }

  function Flat(items: seq<Item>): Bytes {
    if items == [] then [] else Flat(items[..|items| - 1]) + Joined(items[|items| - 1].parts)
  }

  /** At most one operation is outstanding; while not stopped, one is exactly when the queue is not empty. */
  ghost predicate OneChain(s: State) {
    && |s.ops| <= 1
    && (!s.stopped ==> (s.ops != [] <==> s.queue != []))
    && (s.ops != [] ==> s.queue != [] && s.queue[0].parts != [])
    && (forall i :: 0 <= i < |s.queue| ==> s.queue[i].parts != [])
    && (s.ops != [] && s.ops[0].Writing? ==> s.ops[0].part < |s.queue[0].parts|)
  }

  /** How many items the wire may hold anything of: the finished ones and the next. */
  function Reach(s: State): (r: nat)
    ensures r <= |s.sent|
  {
    if |s.results| < |s.sent| then |s.results| + 1 else |s.sent|
  }

  /** Until a write fails: the queue is what was sent and not finished; the wire holds the finished
      items whole, then the parts already written of the one in front, then a prefix of its current
      part. A queue left behind by a stop is never written again. */
  ghost predicate InOrder(s: State) {
    Tally(s) && Bounded(s) && Exact(s)
  }

  predicate Tally(s: State) {
    && |s.results| <= |s.sent| && s.queue == s.sent[|s.results|..]
    && forall i :: 0 <= i < |s.results| ==> s.results[i]
  }

  predicate Bounded(s: State)
    requires |s.results| <= |s.sent|
  {
    Flat(s.sent[..|s.results|]) <= s.wire <= Flat(s.sent[..Reach(s)])
  }

  ghost predicate Exact(s: State)
    requires |s.results| <= |s.sent|
  {
    if s.ops != [] && s.ops[0].Writing? then InFront(s, s.ops[0])
    else s.ops != [] || s.queue == [] ==> s.wire == Flat(s.sent[..|s.results|])
  }

  ghost predicate InFront(s: State, w: Op)
    requires w.Writing? && |s.results| <= |s.sent|
  {
    && s.queue != [] && w.part < |s.queue[0].parts| && |w.left| <= |s.queue[0].parts[w.part]|
    && s.wire + w.left == Flat(s.sent[..|s.results|]) + Joined(s.queue[0].parts[..w.part + 1])
    && w.left == s.queue[0].parts[w.part][|s.queue[0].parts[w.part]| - |w.left|..]
  }

  lemma OneChainStep(s: State, e: Event)
    requires OneChain(s) && Enabled(s, e)
    ensures OneChain(Step(s, e))
  {
  }

  lemma {:induction false} AlwaysOneChain(events: seq<Event>)
    ensures OneChain(After(events))
  {
    if events != [] {
      AlwaysOneChain(events[..|events| - 1]);
      var s, e := After(events[..|events| - 1]), events[|events| - 1];
      if Enabled(s, e) {
        OneChainStep(s, e);
      }
    }
  }

  lemma FlatOne(x: seq<Item>, item: Item)
    ensures Flat(x + [item]) == Flat(x) + Joined(item.parts)
  {
    assert (x + [item])[..|x + [item]| - 1] == x;
  }

  lemma {:induction false} FlatPrefix(x: seq<Item>, y: seq<Item>)
    ensures Flat(x) <= Flat(x + y)
  {
    if y == [] {
      assert x + y == x;
    } else {
      var init, last := y[..|y| - 1], y[|y| - 1];
      FlatPrefix(x, init);
      assert x + y == (x + init) + [last];
      FlatOne(x + init, last);
    }
  }

  lemma {:induction false} JoinedPrefix(parts: seq<Bytes>, k: nat)
    requires k <= |parts|
    ensures Joined(parts[..k]) <= Joined(parts)
    decreases |parts| - k
  {
    if k == |parts| {
      assert parts[..k] == parts;
    } else {
      JoinedPrefix(parts, k + 1);
      assert parts[..k + 1][..k] == parts[..k];
    }
  }

  lemma JoinedStep(parts: seq<Bytes>, k: nat)
    requires k < |parts|
    ensures Joined(parts[..k + 1]) == Joined(parts[..k]) + parts[k]
  {
    assert parts[..k + 1][..k] == parts[..k];
  }

  /** What is on the wire while the front item is written stays inside that item. */
  lemma InsideFront(s: State, k: nat)
    requires |s.results| < |s.sent| && k <= |s.sent[|s.results|].parts|
    ensures Flat(s.sent[..|s.results|]) + Joined(s.sent[|s.results|].parts[..k]) <= Flat(s.sent[..|s.results| + 1])
  {
    var n := |s.results|;
    JoinedPrefix(s.sent[n].parts, k);
    FlatOne(s.sent[..n], s.sent[n]);
    assert s.sent[..n + 1] == s.sent[..n] + [s.sent[n]];
  }

  lemma ReachesFurther(sent: seq<Item>, n: nat)
    requires n < |sent|
    ensures Flat(sent[..n]) <= Flat(sent[..n + 1])
  {
    FlatOne(sent[..n], sent[n]);
    assert sent[..n + 1] == sent[..n] + [sent[n]];
  }

  lemma EnqueueShape(s: State, item: Item)
    requires OneChain(s) && item.parts != []
    ensures Step(s, Enqueue(item)) == s.(queue := s.queue + [item], sent := s.sent + [item],
                                         ops := if s.queue == [] then s.ops + [Posted] else s.ops)
    ensures s.queue == [] ==> s.ops == []
  {
  }

  lemma BoundedEnqueue(s: State, item: Item)
    requires Tally(s) && Bounded(s)
    ensures Bounded(s.(queue := s.queue + [item], sent := s.sent + [item]))
  {
    var sent', n := s.sent + [item], |s.results|;
    assert sent'[..n] == s.sent[..n];
    if n < |s.sent| {
      assert sent'[..n + 1] == s.sent[..n + 1];
    } else {
      ReachesFurther(sent', n);
    }
  }

  lemma InOrderEnqueue(s: State, item: Item)
    requires OneChain(s) && InOrder(s) && item.parts != []
    ensures InOrder(Step(s, Enqueue(item)))
  {
    var n := |s.results|;
    EnqueueShape(s, item);
    BoundedEnqueue(s, item);
    assert (s.sent + [item])[..n] == s.sent[..n] && (s.sent + [item])[n..] == s.sent[n..] + [item];
    assert s.queue != [] ==> (s.queue + [item])[0] == s.queue[0];
  }

  lemma InOrderPosted(s: State)
    requires OneChain(s) && InOrder(s) && s.ops != [] && s.ops[0].Posted?
    ensures InOrder(Step(s, RunPosted(0)))
  {
    assert s.ops == [Posted];
    assert Step(s, RunPosted(0)) == s.(ops := [Writing(0, s.queue[0].parts[0])]);
    assert Flat(s.sent[..|s.results|]) + [] == Flat(s.sent[..|s.results|]);
    StartPart(s, 0);
  }

  lemma Shifted(wire: Bytes, left: Bytes, count: nat)
    requires count <= |left|
    ensures (wire + left[..count]) + left[count..] == wire + left
    ensures wire <= wire + left[..count] <= wire + left
  {
    assert left == left[..count] + left[count..];
  }

  lemma PrefixTransitive(x: Bytes, y: Bytes, z: Bytes)
    requires x <= y <= z
    ensures x <= z
  {
  }

  lemma ProgressShape(s: State, count: nat)
    requires OneChain(s) && Enabled(s, Progress(0, count))
    ensures var w := s.ops[0];
            Step(s, Progress(0, count)) == s.(ops := [w.(left := w.left[count..])], wire := s.wire + w.left[..count])
  {
  }

  lemma BoundedProgress(s: State, s': State, w: Op, count: nat)
    requires Tally(s) && Bounded(s) && w.Writing? && InFront(s, w) && count <= |w.left|
    requires s' == s.(ops := s'.ops, wire := s.wire + w.left[..count])
    ensures Bounded(s')
  {
    Shifted(s.wire, w.left, count);
    InsideFront(s, w.part + 1);
    PrefixTransitive(s'.wire, s.wire + w.left, Flat(s.sent[..Reach(s)]));
    PrefixTransitive(Flat(s.sent[..|s.results|]), s.wire, s'.wire);
  }

  lemma InOrderProgress(s: State, count: nat)
    requires OneChain(s) && InOrder(s) && Enabled(s, Progress(0, count))
    ensures InOrder(Step(s, Progress(0, count)))
  {
    var w, s' := s.ops[0], Step(s, Progress(0, count));
    var part := s.queue[0].parts[w.part];
    Shifted(s.wire, w.left, count);
    ProgressShape(s, count);
    BoundedProgress(s, s', w, count);
    assert s'.ops == [Writing(w.part, w.left[count..])];
    assert w.left[count..] == part[|part| - |w.left[count..]|..];
  }

  lemma InOrderComplete(s: State)
    requires OneChain(s) && InOrder(s) && Enabled(s, Complete(0, true))
    ensures InOrder(Step(s, Complete(0, true)))
  {
    var w := s.ops[0];
    assert s.wire + w.left == s.wire;
    if !s.stopped {
      if w.part + 1 < |s.queue[0].parts| {
        InOrderNextPart(s);
      } else {
        InOrderPop(s);
      }
    }
  }

  lemma NextPartShape(s: State)
    requires OneChain(s) && Enabled(s, Complete(0, true)) && !s.stopped && s.ops[0].part + 1 < |s.queue[0].parts|
    ensures Step(s, Complete(0, true)) == s.(ops := [Writing(s.ops[0].part + 1, s.queue[0].parts[s.ops[0].part + 1])])
  {
  }

  lemma InOrderNextPart(s: State)
    requires OneChain(s) && InOrder(s) && Enabled(s, Complete(0, true)) && !s.stopped
    requires s.ops[0].part + 1 < |s.queue[0].parts|
    requires s.wire == Flat(s.sent[..|s.results|]) + Joined(s.queue[0].parts[..s.ops[0].part + 1])
    ensures InOrder(Step(s, Complete(0, true)))
  {
    NextPartShape(s);
    StartPart(s, s.ops[0].part + 1);
  }

  /** Starting the next part with the earlier ones whole on the wire keeps the order. */
  lemma StartPart(s: State, k: nat)
    requires Tally(s) && Bounded(s) && s.queue != [] && k < |s.queue[0].parts|
    requires s.wire == Flat(s.sent[..|s.results|]) + Joined(s.queue[0].parts[..k])
    ensures InOrder(s.(ops := [Writing(k, s.queue[0].parts[k])]))
  {
    var part := s.queue[0].parts[k];
    JoinedStep(s.queue[0].parts, k);
    Regroup(Flat(s.sent[..|s.results|]), Joined(s.queue[0].parts[..k]), part);
    assert part[0..] == part;
  }

  lemma Regroup(x: Bytes, y: Bytes, z: Bytes)
    ensures x + y + z == x + (y + z)
  {
  }

  lemma InOrderPop(s: State)
    requires OneChain(s) && InOrder(s) && Enabled(s, Complete(0, true)) && !s.stopped
    requires s.ops[0].part + 1 == |s.queue[0].parts|
    requires s.wire == Flat(s.sent[..|s.results|]) + Joined(s.queue[0].parts[..s.ops[0].part + 1])
    ensures InOrder(Step(s, Complete(0, true)))
  {
    var n, parts := |s.results|, s.queue[0].parts;
    assert parts[..|parts|] == parts && s.sent[n] == s.queue[0];
    FlatOne(s.sent[..n], s.sent[n]);
    assert s.sent[..n + 1] == s.sent[..n] + [s.sent[n]];
    Popped(s, Step(s, Complete(0, true)));
  }

  lemma Popped(s: State, s': State)
    requires InOrder(s) && s.queue != []
    requires s.wire == Flat(s.sent[..|s.results| + 1])
    requires s'.sent == s.sent && s'.wire == s.wire && s'.results == s.results + [true] && s'.queue == s.queue[1..]
    requires s'.ops == if s'.queue == [] then [] else [Posted]
    ensures InOrder(s')
  {
    var n := |s.results|;
    assert Tally(s') by {
      assert s.sent[n + 1..] == s.queue[1..];
    }
    assert Bounded(s') by {
      if n + 1 < |s.sent| {
        ReachesFurther(s.sent, n + 1);
      }
    }
  }

  lemma InOrderStop(s: State)
    requires InOrder(s)
    ensures InOrder(Step(s, Stop))
  {
  }

  lemma InOrderStep(s: State, e: Event)
    requires OneChain(s) && InOrder(s) && Enabled(s, e) && !Step(s, e).failed
    ensures InOrder(Step(s, e))
  {
    match e
    case Enqueue(item) => InOrderEnqueue(s, item);
    case RunPosted(_) => InOrderPosted(s);
    case Progress(_, count) => InOrderProgress(s, count);
    case Complete(_, _) => InOrderComplete(s);
    case Stop => InOrderStop(s);
  }

  lemma {:induction false} AlwaysInOrder(events: seq<Event>)
    ensures !After(events).failed ==> InOrder(After(events))
  {
    if events != [] {
      var past := events[..|events| - 1];
      AlwaysInOrder(past);
      AlwaysOneChain(past);
      var s, e := After(past), events[|events| - 1];
      if Enabled(s, e) && !Step(s, e).failed {
        InOrderStep(s, e);
      }
    }
  }

  /** In every interleaving of senders and completions at most one write chain is active, it never
      looks at the front of an empty queue, and while not stopped it is active exactly when
      something is queued. */
  lemma {:induction false} SingleChain(events: seq<Event>)
    ensures var s := After(events);
            |s.ops| <= 1 && (s.ops != [] ==> s.queue != []) && (!s.stopped ==> (s.ops != [] <==> s.queue != []))
  {
    AlwaysOneChain(events);
  }

  /** Until the first write error the wire holds the sent items in order: the completed ones whole,
      each once, and then at most part of the next; every callback so far reported success. */
  lemma {:induction false} WholeFramesInOrder(events: seq<Event>)
    requires !After(events).failed
    ensures var s := After(events); var done := |s.results|;
            && done <= |s.sent| && s.queue == s.sent[done..]
            && Flat(s.sent[..done]) <= s.wire <= Flat(s.sent)
            && (done < |s.sent| ==> s.wire <= Flat(s.sent[..done + 1]))
            && (s.queue == [] ==> s.wire == Flat(s.sent))
            && forall i :: 0 <= i < done ==> s.results[i]
  {
    AlwaysInOrder(events);
    AlwaysOneChain(events);
    var s := After(events);
    assert s.sent[..|s.sent|] == s.sent;
    assert s.sent == s.sent[..Reach(s)] + s.sent[Reach(s)..];
    FlatPrefix(s.sent[..Reach(s)], s.sent[Reach(s)..]);
  }

  /** A failed write is reported to its callback; the queue is emptied and no chain is left. */
  lemma {:induction false} FailureReported(events: seq<Event>, op: nat)
    requires Enabled(After(events), Complete(op, false)) && !After(events).stopped
    ensures var s, s' := After(events), After(events + [Complete(op, false)]);
            s'.results == s.results + [false] && s'.queue == [] && s'.ops == [] && s'.failed && s'.wire == s.wire
  {
    AlwaysOneChain(events);
    AfterStep(events, Complete(op, false));
  }

  /** A posted task starts the write of the item in front even after a stop, as it takes no lock. */
  lemma {:induction false} PostedStarts(events: seq<Event>, op: nat)
    requires Enabled(After(events), RunPosted(op))
    ensures var s := After(events);
            s.queue != [] && s.queue[0].parts != []
            && After(events + [RunPosted(op)]) == s.(ops := [Writing(0, s.queue[0].parts[0])])
  {
    AlwaysOneChain(events);
    AfterStep(events, RunPosted(op));
  }

  /** A completion after a stop only ends its own operation. */
  lemma {:induction false} StoppedCompletion(events: seq<Event>, op: nat, ok: bool)
    requires Enabled(After(events), Complete(op, ok)) && After(events).stopped
    ensures var s := After(events); After(events + [Complete(op, ok)]) == s.(ops := [], failed := s.failed || !ok)
  {
    AlwaysOneChain(events);
    AfterStep(events, Complete(op, ok));
  }

  /** After a stop no callback is made any more. */
  lemma {:induction false} StoppedReportsNothing(events: seq<Event>, more: seq<Event>)
    requires After(events).stopped
    ensures After(events + more).stopped && After(events + more).results == After(events).results
    decreases |more|
  {
    if more == [] {
      assert events + more == events;
    } else {
      StoppedReportsNothing(events, more[..|more| - 1]);
      assert (events + more)[..|events + more| - 1] == events + more[..|more| - 1];
    }
  }

  lemma CallbacksStep(s: State, e: Event)
    requires OneChain(s) && Enabled(s, e) && |s.results| + |s.queue| <= |s.sent|
    ensures var s' := Step(s, e); |s'.results| + |s'.queue| <= |s'.sent|
  {
  }

  /** No item is called back twice: callbacks made and items waiting are never more than were sent. */
  lemma {:induction false} CallbacksAtMostOnce(events: seq<Event>)
    ensures var s := After(events); |s.results| + |s.queue| <= |s.sent|
  {
    if events != [] {
      var s, e := After(events[..|events| - 1]), events[|events| - 1];
      CallbacksAtMostOnce(events[..|events| - 1]);
      AlwaysOneChain(events[..|events| - 1]);
      if Enabled(s, e) {
        CallbacksStep(s, e);
      }
    }
  }

  // ---------- Everything can be written ----------

  function PartsQueued(queue: seq<Item>): nat {
    if queue == [] then 0 else 1 + |queue[0].parts| + PartsQueued(queue[1..])
  }

  /** How many operations are still needed to empty the queue. */
  function Needed(s: State): int {
    PartsQueued(s.queue) - if s.ops != [] && s.ops[0].Writing? then 1 + s.ops[0].part else 0
  }

  /** The next operation, carried through: a posted task runs, or a write gets all its bytes out and
      is completed. */
  function Onward(s: State): seq<Event>
    requires s.ops != []
  {
    match s.ops[0]
    case Posted => [RunPosted(0)]
    case Writing(_, left) => [Progress(0, |left|), Complete(0, true)]
  }

  lemma {:induction false} AfterOnward(events: seq<Event>)
    requires var s := After(events); OneChain(s) && s.ops != [] && !s.stopped
    ensures var s, s' := After(events), After(events + Onward(After(events)));
            s'.sent == s.sent && s'.stopped == s.stopped && s'.failed == s.failed && 0 <= Needed(s') < Needed(s)
  {
    var s := After(events);
    AlwaysOneChain(events + Onward(s));
    match s.ops[0]
    case Posted => AfterStep(events, RunPosted(0));
    case Writing(_, left) =>
      var progress := Progress(0, |left|);
      AfterStep(events, progress);
      AfterStep(events + [progress], Complete(0, true));
      assert events + [progress] + [Complete(0, true)] == events + Onward(s);
      CompletedWrite(s);
  }

  lemma CompletedWrite(s: State)
    requires OneChain(s) && s.ops != [] && s.ops[0].Writing? && !s.stopped
    ensures var t := Step(s, Progress(0, |s.ops[0].left|));
            && Enabled(t, Complete(0, true))
            && var s' := Step(t, Complete(0, true));
            s'.sent == s.sent && !s'.stopped && s'.failed == s.failed && 0 <= Needed(s') < Needed(s)
  {
    assert PartsQueued(s.queue) == 1 + |s.queue[0].parts| + PartsQueued(s.queue[1..]);
  }

  /** From every state of a run without stop or write error there is a way, of operations alone, to
      have every queued item completed and on the wire. */
  lemma {:induction false} EverythingCanBeWritten(events: seq<Event>) returns (more: seq<Event>)
    requires !After(events).stopped && !After(events).failed
    ensures forall i :: 0 <= i < |more| ==> !more[i].Enqueue? && !more[i].Stop?
    ensures var s := After(events + more);
            && s.sent == After(events).sent && s.queue == [] && s.wire == Flat(s.sent)
            && |s.results| == |s.sent| && !s.failed
    decreases Needed(After(events))
  {
    var s := After(events);
    AlwaysOneChain(events);
    if s.queue == [] {
      more := [];
      assert events + more == events;
      WholeFramesInOrder(events);
    } else {
      AfterOnward(events);
      var rest := EverythingCanBeWritten(events + Onward(s));
      more := Onward(s) + rest;
      assert events + more == events + Onward(s) + rest;
    }
  }
}

/** The connection's send side as an object, handler by handler. */
module SendQueue {
  import opened WriteQueue

  class Connection {
    var sendQueue: seq<Item>
    var outstanding: seq<Op>
    var wire: Bytes
    var stopped: bool
    var results: seq<bool>
    ghost var sent: seq<Item>
    ghost var failed: bool
    ghost var events: seq<Event>  // everything that happened so far

    ghost function View(): State
      reads this
    {
      State(sendQueue, outstanding, wire, stopped, results, sent, failed)
    }

    ghost predicate Valid()
      reads this
    {
      View() == After(events)
    }

    constructor ()
      ensures Valid() && events == []
    {
      sendQueue, outstanding, wire, stopped, results, sent, failed := [], [], [], false, [], [], false;
      events := [];
    }

    /** The task send posts to the strand. */
    method SendTask(item: Item)
      requires Valid() && item.parts != []
      modifies this
      ensures Valid() && events == old(events) + [Enqueue(item)]
    {
      AfterStep(events, Enqueue(item));
      events, sent := events + [Enqueue(item)], sent + [item];
      sendQueue := sendQueue + [item];
      if |sendQueue| == 1 {
        SendFromQueue();
      }
    }

    method SendFromQueue()
      modifies this`outstanding
      ensures outstanding == old(outstanding) + [Posted]
    {
      outstanding := outstanding + [Posted];
    }

    /** The task send_from_queue posts: start writing the first part of the item in front. */
    method PostedTask(op: nat)
      requires Valid() && op < |outstanding| && outstanding[op].Posted?
      modifies this
      ensures Valid() && events == old(events) + [RunPosted(op)]
    {
      AlwaysOneChain(events);
      AfterStep(events, RunPosted(op));
      events := events + [RunPosted(op)];
      outstanding := outstanding[op := Writing(0, sendQueue[0].parts[0])];
    }

    /** Some bytes of an outstanding write reach the wire. */
    method Written(op: nat, count: nat)
      requires Valid() && op < |outstanding| && outstanding[op].Writing? && count <= |outstanding[op].left|
      modifies this
      ensures Valid() && events == old(events) + [Progress(op, count)]
    {
      AfterStep(events, Progress(op, count));
      events := events + [Progress(op, count)];
      wire := wire + outstanding[op].left[..count];
      outstanding := outstanding[op := outstanding[op].(left := outstanding[op].left[count..])];
    }

    /** The completion handler of a write. */
    method WriteHandler(op: nat, ok: bool)
      requires Valid() && Enabled(View(), Complete(op, ok))
      modifies this
      ensures Valid() && events == old(events) + [Complete(op, ok)]
    {
      AlwaysOneChain(events);
      AfterStep(events, Complete(op, ok));
      events := events + [Complete(op, ok)];
      var part := outstanding[op].part;
      outstanding := Without(outstanding, op);
      failed := failed || !ok;
      if stopped {
        return;
      }
      if ok && part + 1 < |sendQueue[0].parts| {
        outstanding := outstanding + [Writing(part + 1, sendQueue[0].parts[part + 1])];
        return;
      }
      results := results + [ok];
      if ok {
        sendQueue := sendQueue[1..];
        if |sendQueue| > 0 {
          SendFromQueue();
        }
      } else {
        sendQueue := [];
      }
    }

    /** From here on the scope runner refuses its lock to every handler. */
    method StopHandlers()
      requires Valid()
      modifies this
      ensures Valid() && events == old(events) + [Stop]
    {
      AfterStep(events, Stop);
      events := events + [Stop];
      stopped := true;
    }

    /** Whatever was called, at most one write is outstanding, and while not stopped one is exactly
        when something is queued; until a write fails the wire holds what was sent, in order. */
    lemma OneWriteAtATime()
      requires Valid()
      ensures |outstanding| <= 1 && (!stopped ==> (outstanding != [] <==> sendQueue != []))
      ensures !failed ==> |results| <= |sent| && sendQueue == sent[|results|..]
                          && Flat(sent[..|results|]) <= wire <= Flat(sent)
    {
      SingleChain(events);
      if !failed {
        WholeFramesInOrder(events);
      }
    }
  }
}
