/** From a client's calls of send to the server's handler: the client's write queue, its frames on
    the wire and the server's reading of them, put together. */
module ClientToServer {
  import opened Order
  import opened WebSocketFraming
  import opened Reassembly
  import opened WebSocketServer
  import WriteQueue

  /** What the client queues for one call of send: the whole frame as one part. */
  function ItemOf(s: Send): WriteQueue.Item
    requires Encodable(SendWire(s))
  {
    WriteQueue.Item([WireOf(SendWire(s))])
  }

  /** A final data message within the server's limit. */
  predicate FitsServer(s: Send, max: nat) {
    DataOp(s.op) && |s.payload| <= max && |s.mask| == 4 && 4 + |s.payload| < SIZE_T
  }

  /** The queue was given the frames of these sends, in this order. */
  predicate Queued(sent: seq<WriteQueue.Item>, sends: seq<Send>, max: nat) {
    && |sent| == |sends| && forall i :: 0 <= i < |sends| ==> FitsServer(sends[i], max) && sent[i] == ItemOf(sends[i])
  }

  lemma {:induction false} BytesAppend(ws: seq<OnWire>, w: OnWire)
    requires Encodable(w) && forall i :: 0 <= i < |ws| ==> Encodable(ws[i])
    ensures Bytes(ws + [w]) == Bytes(ws) + WireOf(w)
  {
    if ws == [] {
      assert [w][1..] == [] && [] + [w] == [w];
    } else {
      BytesAppend(ws[1..], w);
      assert (ws + [w])[0] == ws[0] && (ws + [w])[1..] == ws[1..] + [w];
      Regroup(WireOf(ws[0]), Bytes(ws[1..]), WireOf(w));
    }
  }

  lemma {:induction false} WiresAppend(sends: seq<Send>, s: Send)
    ensures SendWires(sends + [s]) == SendWires(sends) + [SendWire(s)]
  {
    if sends == [] {
      assert [] + [s] == [s];
    } else {
      WiresAppend(sends[1..], s);
      assert (sends + [s])[0] == sends[0] && (sends + [s])[1..] == sends[1..] + [s];
    }
  }

  /** The queued items one after the other are the frames one after the other. */
  lemma {:induction false} FlatIsBytes(sent: seq<WriteQueue.Item>, sends: seq<Send>, max: nat)
    requires Queued(sent, sends, max)
    ensures forall i :: 0 <= i < |SendWires(sends)| ==> Encodable(SendWires(sends)[i])
    ensures WriteQueue.Flat(sent) == Bytes(SendWires(sends))
  {
    WiresEncodable(sends);
    if sent != [] {
      var n := |sends| - 1;
      FlatIsBytes(sent[..n], sends[..n], max);
      assert sends == sends[..n] + [sends[n]];
      WiresAppend(sends[..n], sends[n]);
      BytesAppend(SendWires(sends[..n]), SendWire(sends[n]));
      JoinedOne(WireOf(SendWire(sends[n])));
    }
  }

  lemma JoinedOne(part: WriteQueue.Bytes)
    ensures WriteQueue.Joined([part]) == part
  {
    assert [part][..0] == [];
    assert WriteQueue.Joined([part][..0]) + part == part;
  }

  // ---------- A frame not yet whole ----------

  /** What is read of a header does not depend on what follows it. */
  lemma HeaderOfPrefix(p: seq<byte>, b: seq<byte>)
    requires p <= b
    ensures ReadHeader(p).Partial? || ReadHeader(p) == ReadHeader(b)
  {
    assert |p| >= 4 ==> p[2..4] == b[2..4];
    assert |p| >= 10 ==> p[2..10] == b[2..10];
  }

  /** Part of a frame within the limit is left where it is. */
  lemma PartLeft(c: Conn, w: OnWire, p: seq<byte>, max: nat)
    requires Encodable(w) && !TooBig(|w.frame.payload|, c.fragmented, max)
    requires p <= WireOf(w) && p != WireOf(w)
    ensures ReadAll(c, p, max) == (c, p)
  {
    HeaderOfWire(w.frame.op, w.form, w.frame.payload, w.mask, []);
    assert WireOf(w) + [] == WireOf(w);
    assert |WireOf(w)| == 1 + LengthSize(w.form) + 4 + |w.frame.payload|;
    HeaderOfPrefix(p, WireOf(w));
  }

  /** The server handles some whole frames and goes on with what follows. */
  lemma {:induction false} WholeRead(c: Conn, sends: seq<Send>, rest: seq<byte>, max: nat)
    requires c.reading && c.fragmented == None && max < SIZE_T
    requires forall i :: 0 <= i < |sends| ==> FitsServer(sends[i], max)
    requires forall i :: 0 <= i < |SendWires(sends)| ==> Encodable(SendWires(sends)[i])
    ensures ReadAll(c, Bytes(SendWires(sends)) + rest, max) == ReadAll(c.(out := c.out + SendCalls(sends)), rest, max)
  {
    SendsReceived(c, sends, max);
    StreamRead(c, SendWires(sends), rest, max);
  }

  lemma {:induction false} WholeThenPart(c: Conn, sends: seq<Send>, next: Send, p: seq<byte>, max: nat)
    requires c.reading && c.fragmented == None && max < SIZE_T
    requires (forall i :: 0 <= i < |sends| ==> FitsServer(sends[i], max)) && FitsServer(next, max)
    requires forall i :: 0 <= i < |SendWires(sends)| ==> Encodable(SendWires(sends)[i])
    requires p <= WireOf(SendWire(next)) && p != WireOf(SendWire(next))
    ensures ReadAll(c, Bytes(SendWires(sends)) + p, max) == (c.(out := c.out + SendCalls(sends)), p)
  {
    WholeRead(c, sends, p, max);
    PartOfSend(c.(out := c.out + SendCalls(sends)), next, p, max);
  }

  lemma PartOfSend(c: Conn, next: Send, p: seq<byte>, max: nat)
    requires c.fragmented == None && max < SIZE_T && FitsServer(next, max)
    requires p <= WireOf(SendWire(next)) && p != WireOf(SendWire(next))
    ensures ReadAll(c, p, max) == (c, p)
  {
    PartLeft(c, SendWire(next), p, max);
  }

  // ---------- The whole way ----------

  /** How many messages are whole on the wire: those completed, and the one in front if its bytes
      are all out although its completion has not been handled. */
  function WholeOnWire(s: WriteQueue.State): (k: nat)
    ensures |s.results| <= k <= |s.results| + 1
  {
    var done := |s.results|;
    if done < |s.sent| && s.wire == WriteQueue.Flat(s.sent[..done + 1]) then done + 1 else done
  }

  lemma PrefixSplits<T>(x: seq<T>, y: seq<T>, z: seq<T>)
    requires x <= y <= x + z
    ensures y == x + y[|x|..] && y[|x|..] <= z
  {
    assert y[|x|..] <= (x + z)[|x|..] && (x + z)[|x|..] == z;
  }

  /** In every run of the client's write queue without a write error the server's handler is given
      exactly the first messages sent, each once, whole and in order: those whose completion the
      client has seen, and at most one more. Anything else on the wire is part of the next. */
  lemma {:induction false} HandledAreFirstSent(events: seq<WriteQueue.Event>, sends: seq<Send>, c: Conn, max: nat)
    requires c.reading && c.fragmented == None && max < SIZE_T
    requires !WriteQueue.After(events).failed && Queued(WriteQueue.After(events).sent, sends, max)
    ensures var s := WriteQueue.After(events);
            var k := WholeOnWire(s);
            && |s.results| <= k <= |sends|
            && ReadAll(c, s.wire, max).0 == c.(out := c.out + SendCalls(sends[..k]))
            && (s.queue == [] ==> k == |sends| && ReadAll(c, s.wire, max).1 == [])
  {
    var s := WriteQueue.After(events);
    var done := |s.results|;
    WriteQueue.WholeFramesInOrder(events);
    if done == |s.sent| {
      assert s.sent[..done] == s.sent && sends[..done] == sends && s.sent[done..] == [];
      WholeHandled(s.sent, sends, done, c, max);
    } else {
      assert |s.sent[done..]| > 0;
      if s.wire == WriteQueue.Flat(s.sent[..done + 1]) {
        WholeHandled(s.sent, sends, done + 1, c, max);
      } else {
        PartHandled(s.sent, sends, done, s.wire, c, max);
      }
    }
  }

  /** And from every state of such a run there is a way, without further sends, to have the handler
      given everything sent so far. */
  lemma {:induction false} EverythingCanBeHandled(events: seq<WriteQueue.Event>, sends: seq<Send>, c: Conn, max: nat)
    returns (more: seq<WriteQueue.Event>)
    requires c.reading && c.fragmented == None && max < SIZE_T
    requires !WriteQueue.After(events).failed && !WriteQueue.After(events).stopped
    requires Queued(WriteQueue.After(events).sent, sends, max)
    ensures forall i :: 0 <= i < |more| ==> !more[i].Enqueue?
    ensures ReadAll(c, WriteQueue.After(events + more).wire, max) == (c.(out := c.out + SendCalls(sends)), [])
  {
    more := WriteQueue.EverythingCanBeWritten(events);
    HandledAreFirstSent(events + more, sends, c, max);
    assert sends[..|sends|] == sends;
  }

  lemma {:induction false} WholeHandled(sent: seq<WriteQueue.Item>, sends: seq<Send>, k: nat, c: Conn, max: nat)
    requires c.reading && c.fragmented == None && max < SIZE_T && Queued(sent, sends, max) && k <= |sends|
    ensures ReadAll(c, WriteQueue.Flat(sent[..k]), max) == (c.(out := c.out + SendCalls(sends[..k])), [])
  {
    FlatIsBytes(sent[..k], sends[..k], max);
    SendsRoundTrip(c, sends[..k], max);
  }

  lemma {:induction false} PartHandled(sent: seq<WriteQueue.Item>, sends: seq<Send>, n: nat, wire: seq<byte>,
                                       c: Conn, max: nat)
    requires c.reading && c.fragmented == None && max < SIZE_T && Queued(sent, sends, max) && n < |sends|
    requires WriteQueue.Flat(sent[..n]) <= wire <= WriteQueue.Flat(sent[..n + 1])
    requires wire != WriteQueue.Flat(sent[..n + 1])
    ensures ReadAll(c, wire, max).0 == c.(out := c.out + SendCalls(sends[..n]))
  {
    var frame := WireOf(SendWire(sends[n]));
    FlatIsBytes(sent[..n], sends[..n], max);
    WriteQueue.FlatOne(sent[..n], sent[n]);
    assert sent[..n + 1] == sent[..n] + [sent[n]];
    JoinedOne(frame);
    PrefixSplits(WriteQueue.Flat(sent[..n]), wire, frame);
    WholeThenPart(c, sends[..n], sends[n], wire[|WriteQueue.Flat(sent[..n])|..], max);
  }
}
