/** Wire identifiers and the resend store of webapi/src/transport/WsProtocol.cpp, as values. */
module ResendStore {

  const SIZE_MAX := 0xffff_ffff_ffff_ffff
  const ID_RANGE := 0x1_0000

  /** The 16-bit id of the n-th send, counting from 0: the 64-bit counter wraps, the modulus is one
      short of its range, and the result is truncated to a uint16_t. */
  function WireId(n: nat): (id: nat)
    ensures id < ID_RANGE
  {
    n % (SIZE_MAX + 1) % SIZE_MAX % ID_RANGE
  }

  /** The one counter value per wrap that the odd modulus sends to 0 too early. */
  predicate AtOverflow(n: nat) {
    n % (SIZE_MAX + 1) == SIZE_MAX
  }

  lemma {:induction false} WireIdIs(n: nat)
    ensures WireId(n) == if AtOverflow(n) then 0 else n % ID_RANGE
  {
    var c := n % (SIZE_MAX + 1);
    if c < SIZE_MAX {
      assert c % SIZE_MAX == c;
      Nested(n);
    }
  }

  lemma Nested(n: nat)
    ensures n % (SIZE_MAX + 1) % ID_RANGE == n % ID_RANGE
  {
    var q, c := n / (SIZE_MAX + 1), n % (SIZE_MAX + 1);
    assert n == (q * 0x1_0000_0000_0000) * ID_RANGE + c;
    RangesAdded(q * 0x1_0000_0000_0000, c);
  }

  lemma RangesAdded(k: nat, c: nat)
    ensures (k * ID_RANGE + c) % ID_RANGE == c % ID_RANGE
  {
    var r := c / ID_RANGE;
    assert k * ID_RANGE + c == (k + r) * ID_RANGE + c % ID_RANGE;
  }

  /** Below SIZE_MAX, ids coincide exactly for sends a multiple of 65536 apart. */
  lemma {:induction false} IdsCoincide(i: nat, j: nat)
    requires i < j < SIZE_MAX
    ensures WireId(i) == WireId(j) <==> (j - i) % ID_RANGE == 0
  {
    WireIdIs(i);
    WireIdIs(j);
    EqualRemainders(i, j);
  }

  lemma EqualRemainders(i: nat, j: nat)
    requires i < j
    ensures i % ID_RANGE == j % ID_RANGE <==> (j - i) % ID_RANGE == 0
  {
    var p, q, a, b := i / ID_RANGE, j / ID_RANGE, i % ID_RANGE, j % ID_RANGE;
    assert j - i == (q - p) * ID_RANGE + (b - a);
  }

  /** Over the whole counter range, two of any 65536 consecutive sends share an id exactly when the
      first is at the overflow and the second follows it, or the second is at the overflow and the
      first is the oldest of the 65536. */
  lemma {:induction false} IdsInWindow(i: nat, j: nat)
    requires i < j < i + ID_RANGE
    ensures WireId(i) == WireId(j) <==> (AtOverflow(i) && j == i + 1) || (AtOverflow(j) && i + ID_RANGE - 1 == j)
  {
    WireIdIs(i);
    WireIdIs(j);
    OverflowEnd(i);
    OverflowEnd(j);
    OverflowsApart(i, j);
    RemaindersNear(i, j);
  }

  /** The failing input: the sends numbered SIZE_MAX and the one after it both get id 0. */
  lemma OverflowRepeats()
    ensures WireId(SIZE_MAX) == 0 == WireId(SIZE_MAX + 1)
    ensures WireId(SIZE_MAX - ID_RANGE + 1) == WireId(SIZE_MAX)
  {
    WireIdIs(SIZE_MAX);
    WireIdIs(SIZE_MAX + 1);
    WireIdIs(SIZE_MAX - ID_RANGE + 1);
  }

  lemma RemaindersNear(i: nat, j: nat)
    requires i < j < i + ID_RANGE
    ensures i % ID_RANGE != j % ID_RANGE
    ensures i % ID_RANGE == ID_RANGE - 1 ==> (j % ID_RANGE == 0 <==> j == i + 1)
    ensures j % ID_RANGE == ID_RANGE - 1 ==> (i % ID_RANGE == 0 <==> i + ID_RANGE - 1 == j)
  {
    var p, q, a, b := i / ID_RANGE, j / ID_RANGE, i % ID_RANGE, j % ID_RANGE;
    assert i == p * ID_RANGE + a && j == q * ID_RANGE + b;
    assert q == p || q == p + 1;
  }

  lemma OverflowEnd(n: nat)
    ensures AtOverflow(n) ==> n % ID_RANGE == ID_RANGE - 1
  {
    Nested(n);
  }

  lemma OverflowsApart(i: nat, j: nat)
    requires i < j < i + ID_RANGE
    ensures !(AtOverflow(i) && AtOverflow(j))
  {
    var p, q := i / (SIZE_MAX + 1), j / (SIZE_MAX + 1);
    assert i == p * (SIZE_MAX + 1) + i % (SIZE_MAX + 1);
    assert j == q * (SIZE_MAX + 1) + j % (SIZE_MAX + 1);
  }

  datatype Entry<M> = Entry(payload: M, connection: nat, resends: nat, lastSent: int)

  datatype Limits = Limits(resendNumber: nat, resendTimeout: int)

  /** What a scan reads from outside per stored id: the clock at the check and after the resend,
      and whether the weak reference to the connection still locks. */
  datatype Readings = Readings(check: nat -> int, stamp: nat -> int, alive: nat -> bool)

  datatype Verdict = Waiting | Resent | Disconnected | Exhausted

  function Judge<M>(e: Entry<M>, l: Limits, check: int, alive: bool): Verdict {
    if e.resends < l.resendNumber then
      if e.lastSent + l.resendTimeout < check then
        if alive then Resent else Disconnected
      else Waiting
    else Exhausted
  }

  type Store<M> = map<nat, Entry<M>>

  /** One scan as a simultaneous update of the whole store. */
  function Scanned<M>(store: Store<M>, l: Limits, o: Readings): Store<M> {
    map id | id in store && Judge(store[id], l, o.check(id), o.alive(id)) in {Waiting, Resent} ::
      if Judge(store[id], l, o.check(id), o.alive(id)).Resent?
      then store[id].(resends := store[id].resends + 1, lastSent := o.stamp(id))
      else store[id]
  }

  /** What a scan does to an entry, in terms of its fields and the readings alone: one whose resends
      are used up leaves, one that is due leaves if its connection is gone and else is resent once
      more, and any other stays as it is. */
  lemma ScanOfEntry<M>(store: Store<M>, l: Limits, o: Readings, id: nat)
    requires id in store
    ensures var e := store[id]; var due := e.lastSent + l.resendTimeout < o.check(id);
            && (id !in Scanned(store, l, o) <==> e.resends >= l.resendNumber || (due && !o.alive(id)))
            && (id in Scanned(store, l, o) && due ==>
                  Scanned(store, l, o)[id] == Entry(e.payload, e.connection, e.resends + 1, o.stamp(id)))
            && (id in Scanned(store, l, o) && !due ==> Scanned(store, l, o)[id] == e)
  {
  }

  /** One entry's turn in a scan. */
  function Visited<M>(store: Store<M>, id: nat, l: Limits, check: int, stamp: int, alive: bool): Store<M>
    requires id in store
  {
    match Judge(store[id], l, check, alive)
    case Waiting => store
    case Resent => store[id := store[id].(resends := store[id].resends + 1, lastSent := stamp)]
    case Disconnected => store - {id}
    case Exhausted => store - {id}
  }

  function VisitAll<M>(store: Store<M>, ids: seq<nat>, l: Limits, o: Readings): Store<M> {
    if ids == [] then store
    else
      var id, rest := ids[|ids| - 1], VisitAll(store, ids[..|ids| - 1], l, o);
      if id in rest then Visited(rest, id, l, o.check(id), o.stamp(id), o.alive(id)) else rest
  }

  /** What the visits in a list without repetition leave of one id. */
  lemma {:induction false} VisitsOf<M>(store: Store<M>, ids: seq<nat>, l: Limits, o: Readings, id: nat)
    requires forall i, j :: 0 <= i < j < |ids| ==> ids[i] != ids[j]
    ensures var target := if id in ids then Scanned(store, l, o) else store;
            var result := VisitAll(store, ids, l, o);
            (id in result <==> id in target) && (id in target ==> result[id] == target[id])
  {
    if ids != [] {
      var last, past := ids[|ids| - 1], ids[..|ids| - 1];
      VisitsOf(store, past, l, o, id);
      assert ids == past + [last];
      assert last !in past;
    }
  }

  /** Entry by entry, in any order, comes to the same as all at once. */
  lemma VisitsAreScan<M>(store: Store<M>, ids: seq<nat>, l: Limits, o: Readings)
    requires forall i, j :: 0 <= i < j < |ids| ==> ids[i] != ids[j]
    requires forall id :: id in store ==> id in ids
    ensures VisitAll(store, ids, l, o) == Scanned(store, l, o)
  {
    forall id
      ensures id in VisitAll(store, ids, l, o) <==> id in Scanned(store, l, o)
      ensures id in Scanned(store, l, o) ==> VisitAll(store, ids, l, o)[id] == Scanned(store, l, o)[id]
    {
      VisitsOf(store, ids, l, o, id);
    }
  }

  // ---------- Draining ----------

  datatype StoreEvent = ScanRan(o: Readings) | AckCame(id: nat)

  function Quiet<M>(store: Store<M>, e: StoreEvent, l: Limits): Store<M> {
    match e
    case ScanRan(o) => Scanned(store, l, o)
    case AckCame(id) => store - {id}
  }

  function QuietRun<M>(store: Store<M>, events: seq<StoreEvent>, l: Limits): Store<M> {
    if events == [] then store else Quiet(QuietRun(store, events[..|events| - 1], l), events[|events| - 1], l)
  }

  /** An ack takes out its entry and no other. */
  lemma AckTakesOut<M>(store: Store<M>, events: seq<StoreEvent>, id: nat, l: Limits)
    ensures QuietRun(store, events + [AckCame(id)], l) == QuietRun(store, events, l) - {id}
  {
    assert (events + [AckCame(id)])[..|events|] == events;
  }

  /** The scans of a run that found the entry still stored and due or exhausted. */
  function Hits<M>(store: Store<M>, events: seq<StoreEvent>, l: Limits, id: nat): nat {
    if events == [] then 0
    else
      var past := events[..|events| - 1];
      var now := QuietRun(store, past, l);
      Hits(store, past, l, id) +
      match events[|events| - 1]
      case AckCame(_) => 0
      case ScanRan(o) =>
        if id in now && (now[id].resends >= l.resendNumber || now[id].lastSent + l.resendTimeout < o.check(id))
        then 1 else 0
  }

  /** With no new sends, an entry that is still stored has used up one resend per hit. */
  lemma {:induction false} HitsSpendResends<M>(store: Store<M>, events: seq<StoreEvent>, l: Limits, id: nat)
    ensures id in QuietRun(store, events, l) ==>
              id in store && QuietRun(store, events, l)[id].resends == store[id].resends + Hits(store, events, l, id)
    ensures id in store && store[id].resends <= l.resendNumber ==>
              store[id].resends + Hits(store, events, l, id) <= l.resendNumber + 1
    ensures id in QuietRun(store, events, l) && store[id].resends <= l.resendNumber ==>
              store[id].resends + Hits(store, events, l, id) <= l.resendNumber
    ensures id !in store ==> Hits(store, events, l, id) == 0
  {
    if events != [] {
      HitsSpendResends(store, events[..|events| - 1], l, id);
    }
  }

  /** So whatever acks and disconnections happen, no entry outlives resendNumber + 1 such scans. */
  lemma StoreDrains<M>(store: Store<M>, events: seq<StoreEvent>, l: Limits)
    requires forall id :: id in store ==> store[id].resends <= l.resendNumber
    ensures forall id :: id in QuietRun(store, events, l) ==> Hits(store, events, l, id) <= l.resendNumber
    ensures forall id :: Hits(store, events, l, id) <= l.resendNumber + 1
  {
    forall id
      ensures id in QuietRun(store, events, l) ==> Hits(store, events, l, id) <= l.resendNumber
      ensures Hits(store, events, l, id) <= l.resendNumber + 1
    {
      HitsSpendResends(store, events, l, id);
    }
  }
}

/** The protocol object: its counter and its store of shared, mutable message records. */
module WsProtocol {
  import opened Order
  import opened ResendStore

  datatype WsMessage<M> = Ack(id: nat) | Data(id: nat, payload: M) | Error(id: nat)

  class MessageData<M> {
    const id: nat
    const payload: M
    const connection: nat
    var resendCounter: nat
    var lastSentTimePoint: int

    constructor (id: nat, payload: M, connection: nat, now: int)
      ensures this.id == id && this.payload == payload && this.connection == connection
      ensures resendCounter == 0 && lastSentTimePoint == now
    {
      this.id, this.payload, this.connection := id, payload, connection;
      resendCounter, lastSentTimePoint := 0, now;
    }
  }

  class Protocol<M(!new)> {
    const limits: Limits
    var outCounter: nat
    ghost var sends: nat  // how many ids were ever taken
    var resendStore: map<nat, MessageData<M>>

    ghost predicate Valid()
      reads this
    {
      && outCounter == sends % (SIZE_MAX + 1)
      && forall id :: id in resendStore ==> resendStore[id].id == id
    }

    ghost function View(): (v: Store<M>)
      reads this, resendStore.Values
    {
      map id | id in resendStore ::
        EntryOf(resendStore[id])
    }

    constructor (resendNumber: nat, resendTimeout: int)
      ensures Valid() && View() == map[] && sends == 0 && limits == Limits(resendNumber, resendTimeout)
    {
      limits := Limits(resendNumber, resendTimeout);
      outCounter, sends, resendStore := 0, 0, map[];
    }

    method GetNextOutCounter() returns (counter: nat)
      requires Valid()
      modifies this`outCounter, this`sends
      ensures Valid() && sends == old(sends) + 1
      ensures counter % ID_RANGE == WireId(old(sends))
    {
      counter := outCounter % SIZE_MAX;
      outCounter := (outCounter + 1) % (SIZE_MAX + 1);
      sends := sends + 1;
    }

    /** First half of sendMessage: the frame put on the wire. */
    method Transmit(payload: M) returns (frame: WsMessage<M>)
      requires Valid()
      modifies this`outCounter, this`sends
      ensures Valid() && sends == old(sends) + 1
      ensures frame == Data(WireId(old(sends)), payload)
    {
      var counter := GetNextOutCounter();
      frame := Data(counter % ID_RANGE, payload);
    }

    /** Second half, under the lock: insert keeps an entry that already holds the id. */
    method AddToResendStore(frame: WsMessage<M>, connection: nat, now: int)
      requires Valid() && frame.Data?
      modifies this`resendStore
      ensures Valid()
      ensures View() == if frame.id in old(View()) then old(View())
                        else old(View())[frame.id := Entry(frame.payload, connection, 0, now)]
    {
      var messageData := new MessageData(frame.id, frame.payload, connection, now);
      if frame.id !in resendStore {
        resendStore := resendStore[frame.id := messageData];
      }
    }

    method RemoveFromResendStore(id: nat)
      requires Valid()
      modifies this`resendStore
      ensures Valid() && View() == old(View()) - {id}
    {
      resendStore := resendStore - {id};
    }

    /** An ack removes its entry; data is handed up and always acknowledged; errors are ignored. */
    method ParseMessage(frame: WsMessage<M>) returns (result: Option<M>, reply: Option<WsMessage<M>>)
      requires Valid()
      modifies this`resendStore
      ensures Valid()
      ensures View() == if frame.Ack? then old(View()) - {frame.id} else old(View())
      ensures result == if frame.Data? then Some(frame.payload) else None
      ensures reply == if frame.Data? then Some(Ack(frame.id)) else None
    {
      result, reply := None, None;
      if frame.Ack? {
        RemoveFromResendStore(frame.id);
      } else if frame.Data? {
        result := Some(frame.payload);
        reply := Some(Ack(frame.id));
      }
    }

    /** One entry's turn in the scan: only a due entry with a live connection changes. */
    static method Visit(messageData: MessageData<M>, l: Limits, check: int, stamp: int, alive: bool)
      returns (verdict: Verdict)
      modifies messageData
      ensures verdict == Judge(old(EntryOf(messageData)), l, check, alive)
      ensures var left := old(messageData.resendCounter) < l.resendNumber;
              var due := old(messageData.lastSentTimePoint) + l.resendTimeout < check;
              && (verdict == Exhausted <==> !left)
              && (verdict == Waiting <==> left && !due)
              && (verdict == Disconnected <==> left && due && !alive)
              && (verdict == Resent <==> left && due && alive)
      ensures verdict == Resent ==>
                messageData.resendCounter == old(messageData.resendCounter) + 1
                && messageData.lastSentTimePoint == stamp
      ensures verdict != Resent ==> EntryOf(messageData) == old(EntryOf(messageData))
    {
      if messageData.resendCounter < l.resendNumber {
        if messageData.lastSentTimePoint + l.resendTimeout < check {
          if alive {
            messageData.resendCounter := messageData.resendCounter + 1;
            messageData.lastSentTimePoint := stamp;
            verdict := Resent;
          } else {
            verdict := Disconnected;
          }
        } else {
          verdict := Waiting;
        }
      } else {
        verdict := Exhausted;
      }
    }

    /** The body of the resend thread's loop: resend what is due, collect what is finished, then
        erase what was collected. */
    method Scan(o: Readings) returns (resent: seq<WsMessage<M>>)
      requires Valid()
      modifies this`resendStore, resendStore.Values
      ensures Valid() && View() == Scanned(old(View()), limits, o)
      ensures ResentOnce(resent, old(View()), old(View()).Keys, limits, o)
    {
      ghost var before := View();
      var messagesToRemove;
      messagesToRemove, resent := TurnAll(o);
      EraseAll(messagesToRemove);
      CollectThenErase(before, limits, o);
    }

    /** The second loop, over what the first collected. */
    method EraseAll(messagesToRemove: seq<nat>)
      requires Valid()
      modifies this`resendStore
      ensures Valid() && View() == old(View()) - Elements(messagesToRemove)
    {
      var i := 0;
      while i < |messagesToRemove|
        invariant i <= |messagesToRemove|
        invariant Valid() && View() == old(View()) - Elements(messagesToRemove[..i])
      {
        assert Elements(messagesToRemove[..i + 1]) == Elements(messagesToRemove[..i]) + {messagesToRemove[i]};
        RemoveFromResendStore(messagesToRemove[i]);
        i := i + 1;
      }
      assert messagesToRemove[..i] == messagesToRemove;
    }

    /** The entries still to do are untouched and the others have had their turn. */
    ghost predicate Turned(before: Store<M>, todo: set<nat>, o: Readings)
      reads this, resendStore.Values
    {
      resendStore.Keys == before.Keys && forall id :: id in resendStore ==>
        EntryOf(resendStore[id]) == if id in todo then before[id] else AfterTurn(before, limits, o, id)
    }

    /** The first loop, over the map in an arbitrary order. */
    method TurnAll(o: Readings) returns (messagesToRemove: seq<nat>, resent: seq<WsMessage<M>>)
      requires Valid()
      modifies resendStore.Values
      ensures Valid() && View() == TurnedAll(old(View()), limits, o)
      ensures Elements(messagesToRemove) == Finished(old(View()), old(View()).Keys, limits, o)
      ensures ResentOnce(resent, old(View()), old(View()).Keys, limits, o)
    {
      messagesToRemove, resent := [], [];
      ghost var before := View();
      var todo := resendStore.Keys;
      while todo != {}
        invariant todo <= resendStore.Keys
        invariant Turned(before, todo, o)
        invariant TurnedBut(messagesToRemove, resent, before, todo, limits, o)
        decreases todo
      {
        var id :| id in todo;
        var verdict := TurnOne(id, before, todo, o);
        TurnStep(messagesToRemove, resent, before, todo, limits, o, id);
        todo := todo - {id};
        if verdict.Resent? {
          resent := resent + [Data(id, resendStore[id].payload)];
        } else if verdict.Disconnected? || verdict.Exhausted? {
          messagesToRemove := messagesToRemove + [id];
        }
      }
      assert before.Keys - todo == before.Keys;
    }

    method TurnOne(id: nat, ghost before: Store<M>, ghost todo: set<nat>, o: Readings) returns (verdict: Verdict)
      requires Valid() && Turned(before, todo, o) && id in todo && id in resendStore
      modifies resendStore[id]
      ensures Turned(before, todo - {id}, o)
      ensures verdict == Judge(before[id], limits, o.check(id), o.alive(id))
          && resendStore[id].payload == before[id].payload
    {
      verdict := Visit(resendStore[id], limits, o.check(id), o.stamp(id), o.alive(id));
    }
  }

  function Elements<T>(s: seq<T>): set<T> { set x | x in s }

  function TurnedAll<M>(before: Store<M>, l: Limits, o: Readings): Store<M> {
    map id | id in before :: AfterTurn(before, l, o, id)
  }

  lemma {:induction false} CollectThenErase<M>(before: Store<M>, l: Limits, o: Readings)
    ensures TurnedAll(before, l, o) - Finished(before, before.Keys, l, o) == Scanned(before, l, o)
  {
  }

  /** What the first loop has collected and sent while these ids are still to do. */
  ghost predicate TurnedBut<M>(ids: seq<nat>, resent: seq<WsMessage<M>>, before: Store<M>, todo: set<nat>,
                               l: Limits, o: Readings) {
    && Elements(ids) == Finished(before, before.Keys - todo, l, o)
    && ResentOnce(resent, before, before.Keys - todo, l, o)
  }

  lemma TurnStep<M>(ids: seq<nat>, resent: seq<WsMessage<M>>, before: Store<M>, todo: set<nat>,
                    l: Limits, o: Readings, id: nat)
    requires TurnedBut(ids, resent, before, todo, l, o) && id in todo && id in before
    ensures var verdict := Judge(before[id], l, o.check(id), o.alive(id));
            TurnedBut(if verdict in {Disconnected, Exhausted} then ids + [id] else ids,
                      if verdict.Resent? then resent + [Data(id, before[id].payload)] else resent,
                      before, todo - {id}, l, o)
  {
    var done := before.Keys - todo;
    assert before.Keys - (todo - {id}) == done + {id};
    ResentOnceStep(resent, before, done, l, o, id);
    FinishedStep(ids, before, done, l, o, id);
  }

  lemma FinishedStep<M>(ids: seq<nat>, before: Store<M>, done: set<nat>, l: Limits, o: Readings, id: nat)
    requires Elements(ids) == Finished(before, done, l, o) && id in before
    ensures Elements(if Judge(before[id], l, o.check(id), o.alive(id)) in {Disconnected, Exhausted}
                     then ids + [id] else ids)
         == Finished(before, done + {id}, l, o)
  {
    assert Elements(ids + [id]) == Elements(ids) + {id} by {
      assert forall x :: x in ids + [id] <==> x in ids || x == id;
    }
  }

  /** The ids whose turn ended in removal. */
  function Finished<M>(before: Store<M>, done: set<nat>, l: Limits, o: Readings): set<nat> {
    set id | id in done && id in before && Judge(before[id], l, o.check(id), o.alive(id)) in {Disconnected, Exhausted}
  }

  /** Each due entry among those done was put on the wire once, and nothing else was. */
  ghost predicate ResentOnce<M>(resent: seq<WsMessage<M>>, before: Store<M>, done: set<nat>, l: Limits, o: Readings) {
    && (forall i, j :: 0 <= i < j < |resent| ==> resent[i].id != resent[j].id)
    && (forall f :: f in resent ==> f.id in done && DueFrame(f, before, l, o))
    && (forall id :: id in done && id in before && Judge(before[id], l, o.check(id), o.alive(id)).Resent?
          ==> Data(id, before[id].payload) in resent)
  }

  lemma ResentOnceStep<M>(resent: seq<WsMessage<M>>, before: Store<M>, done: set<nat>, l: Limits, o: Readings, id: nat)
    requires ResentOnce(resent, before, done, l, o) && id in before && id !in done
    ensures ResentOnce(if Judge(before[id], l, o.check(id), o.alive(id)).Resent?
                       then resent + [Data(id, before[id].payload)] else resent,
                       before, done + {id}, l, o)
  {
    forall i | 0 <= i < |resent| ensures resent[i].id != id {
      assert resent[i] in resent;
    }
  }

  ghost function EntryOf<M>(d: MessageData<M>): Entry<M>
    reads d
  {
    Entry(d.payload, d.connection, d.resendCounter, d.lastSentTimePoint)
  }

  /** The store's entry after its turn, whether or not it is about to be erased. */
  function AfterTurn<M>(before: Store<M>, l: Limits, o: Readings, id: nat): Entry<M>
    requires id in before
  {
    if Judge(before[id], l, o.check(id), o.alive(id)).Resent?
    then before[id].(resends := before[id].resends + 1, lastSent := o.stamp(id))
    else before[id]
  }

  ghost predicate DueFrame<M>(f: WsMessage<M>, before: Store<M>, l: Limits, o: Readings) {
    && f.Data? && f.id in before && (f.payload == before[f.id].payload)
    && Judge(before[f.id], l, o.check(f.id), o.alive(f.id)).Resent?
  }
}
