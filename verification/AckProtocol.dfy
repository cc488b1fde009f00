/** Sender, lossy channel and receiver of the acknowledge/resend protocol. A message is named by
    its position n in the order of sends, and its transmissions by (n, k); the wire itself
    carries only the 16-bit id of n. */
module AckProtocol {
  import opened ResendStore

  datatype Copy = Copy(n: nat, k: nat)

  datatype State = State(
    times: seq<seq<int>>,     // the clock at each transmission of each message so far
    pending: set<nat>,        // transmitted, not yet offered to the store
    store: Store<nat>,        // the payload of an entry is its message's number
    data: set<Copy>,          // copies on their way to the peer
    acks: set<Copy>,          // acks on their way back, named by the copy they answer
    handled: set<Copy>)       // copies the peer has parsed and handed to its handler

  datatype Event =
    | Transmit(now: int)
    | Track(n: nat, connection: nat, now: int)
    | Deliver(copy: Copy)
    | LoseData(copy: Copy)
    | AckArrives(copy: Copy)
    | LoseAck(copy: Copy)
    | Visit(id: nat, check: int, sentAt: int, stamp: int, alive: bool)

  const INITIAL := State([], {}, map[], {}, {}, {})

  /** The clock may read anything: it is the system clock, which can be set back. */
  predicate Enabled(s: State, e: Event) {
    match e
    case Transmit(_) => true
    case Track(n, _, _) => n in s.pending
    case Deliver(c) => c in s.data
    case LoseData(c) => c in s.data
    case AckArrives(c) => c in s.acks
    case LoseAck(c) => c in s.acks
    case Visit(id, _, _, _, _) => id in s.store && s.store[id].payload < |s.times|
  }

  function Step(s: State, e: Event, l: Limits): State
    requires Enabled(s, e)
  {
    match e
    case Transmit(now) =>
      var n := |s.times|;
      s.(times := s.times + [[now]], pending := s.pending + {n}, data := s.data + {Copy(n, 0)})
    case Track(n, connection, now) =>
      s.(pending := s.pending - {n},
         store := if WireId(n) in s.store then s.store else s.store[WireId(n) := Entry(n, connection, 0, now)])
    case Deliver(c) => s.(data := s.data - {c}, handled := s.handled + {c}, acks := s.acks + {c})
    case LoseData(c) => s.(data := s.data - {c})
    case AckArrives(c) => s.(acks := s.acks - {c}, store := s.store - {WireId(c.n)})
    case LoseAck(c) => s.(acks := s.acks - {c})
    case Visit(id, check, sentAt, stamp, alive) =>
      var visited := Visited(s.store, id, l, check, stamp, alive);
      if Judge(s.store[id], l, check, alive).Resent? then
        var n := s.store[id].payload;
        s.(store := visited, times := s.times[n := s.times[n] + [sentAt]],
           data := s.data + {Copy(n, |s.times[n]|)})
      else s.(store := visited)
  }

  ghost predicate Possible(events: seq<Event>, l: Limits) {
    events == [] ||
    (Possible(events[..|events| - 1], l) && Enabled(After(events[..|events| - 1], l), events[|events| - 1]))
  }

  function After(events: seq<Event>, l: Limits): State {
    if events == [] then INITIAL
    else
      var s, e := After(events[..|events| - 1], l), events[|events| - 1];
      if Enabled(s, e) then Step(s, e, l) else s
  }

  lemma {:induction false} AfterStep(past: seq<Event>, e: Event, l: Limits)
    ensures Possible(past + [e], l) <==> Possible(past, l) && Enabled(After(past, l), e)
    ensures Possible(past + [e], l) ==> After(past + [e], l) == Step(After(past, l), e, l)
  {
    assert (past + [e])[..|past + [e]| - 1] == past;
  }

  // ---------- Counting ----------

  /** The facts about a state that neither id reuse nor any clock can break. */
  ghost predicate Counted(s: State, l: Limits) {
    PendingOnce(s) && StoreCounts(s, l) && TimesBounded(s, l) && CopiesSent(s)
  }

  ghost predicate PendingOnce(s: State) {
    forall n :: n in s.pending ==> n < |s.times| && |s.times[n]| == 1
  }

  ghost predicate StoreCounts(s: State, l: Limits) {
    forall id :: id in s.store ==> EntryCounts(s, id, l)
  }

  predicate EntryCounts(s: State, id: nat, l: Limits)
    requires id in s.store
  {
    var e := s.store[id];
    && e.payload < |s.times| && e.payload !in s.pending && WireId(e.payload) == id
    && |s.times[e.payload]| == 1 + e.resends && e.resends <= l.resendNumber
  }

  predicate TimesBounded(s: State, l: Limits) {
    forall n :: 0 <= n < |s.times| ==> 1 <= |s.times[n]| <= 1 + l.resendNumber
  }

  ghost predicate CopiesSent(s: State) {
    && (forall c :: c in s.data || c in s.handled ==> c.n < |s.times| && c.k < |s.times[c.n]|)
    && (forall c :: c in s.acks ==> c in s.handled)
    && s.data !! s.handled
  }

  lemma {:induction false} CountedStep(s: State, e: Event, l: Limits)
    requires Counted(s, l) && Enabled(s, e)
    ensures Counted(Step(s, e, l), l)
  {
    match e
    case Transmit(now) => CountedTransmit(s, now, l);
    case Track(n, connection, now) => CountedTrack(s, n, connection, now, l);
    case Visit(id, check, sentAt, stamp, alive) =>
      if Judge(s.store[id], l, check, alive).Resent? {
        CountedResend(s, e, l);
      }
    case _ =>
  }

  lemma CountedTransmit(s: State, now: int, l: Limits)
    requires Counted(s, l)
    ensures Counted(Step(s, Transmit(now), l), l)
  {
    var s' := Step(s, Transmit(now), l);
    assert forall n :: 0 <= n < |s.times| ==> s'.times[n] == s.times[n];
    assert s'.times[|s.times|] == [now];
  }

  lemma CountedTrack(s: State, n: nat, connection: nat, now: int, l: Limits)
    requires Counted(s, l) && Enabled(s, Track(n, connection, now))
    ensures Counted(Step(s, Track(n, connection, now), l), l)
  {
  }

  lemma CountedResend(s: State, e: Event, l: Limits)
    requires Counted(s, l) && e.Visit? && Enabled(s, e) && Judge(s.store[e.id], l, e.check, e.alive).Resent?
    ensures Counted(Step(s, e, l), l)
  {
    assert EntryCounts(s, e.id, l);
    ResendStoreCounts(s, e, l);
    ResendTimesBounded(s, e, l);
    ResendCopiesSent(s, e, l);
  }

  lemma ResendTimesBounded(s: State, e: Event, l: Limits)
    requires TimesBounded(s, l) && PendingOnce(s) && e.Visit? && Enabled(s, e) && EntryCounts(s, e.id, l)
    requires Judge(s.store[e.id], l, e.check, e.alive).Resent?
    ensures TimesBounded(Step(s, e, l), l) && PendingOnce(Step(s, e, l))
  {
    var s', n := Step(s, e, l), s.store[e.id].payload;
    assert forall m :: 0 <= m < |s.times| ==> s'.times[m] == if m == n then s.times[n] + [e.sentAt] else s.times[m];
  }

  lemma ResendCopiesSent(s: State, e: Event, l: Limits)
    requires CopiesSent(s) && e.Visit? && Enabled(s, e) && Judge(s.store[e.id], l, e.check, e.alive).Resent?
    ensures CopiesSent(Step(s, e, l))
  {
  }

  lemma ResendStoreCounts(s: State, e: Event, l: Limits)
    requires StoreCounts(s, l) && e.Visit? && Enabled(s, e) && Judge(s.store[e.id], l, e.check, e.alive).Resent?
    ensures StoreCounts(Step(s, e, l), l)
  {
    var s', n := Step(s, e, l), s.store[e.id].payload;
    assert EntryCounts(s, e.id, l);
    forall id | id in s'.store ensures EntryCounts(s', id, l) {
      assert EntryCounts(s, id, l);
      assert id != e.id ==> s'.store[id] == s.store[id] && s.store[id].payload != n;
    }
  }

  lemma {:induction false} AlwaysCounted(events: seq<Event>, l: Limits)
    requires Possible(events, l)
    ensures Counted(After(events, l), l)
  {
    if events != [] {
      AlwaysCounted(events[..|events| - 1], l);
      CountedStep(After(events[..|events| - 1], l), events[|events| - 1], l);
    }
  }

  /** Every message is put on the wire between once and 1 + resendNumber times, whatever the clock reads. */
  lemma {:induction false} TransmissionsBounded(events: seq<Event>, l: Limits, n: nat)
    requires Possible(events, l) && n < |After(events, l).times|
    ensures 1 <= |After(events, l).times[n]| <= 1 + l.resendNumber
  {
    AlwaysCounted(events, l);
  }

  // ---------- Timing ----------

  function Last(t: seq<int>): int { if t == [] then 0 else t[|t| - 1] }

  predicate Spaced(t: seq<int>, l: Limits) {
    forall k :: 0 < k < |t| ==> t[k] - t[k - 1] > l.resendTimeout
  }

  /** The clock does not go back between a transmission and the time noted for it, nor within a visit. */
  predicate SteadyReading(s: State, e: Event) {
    match e
    case Track(n, _, now) => n < |s.times| ==> Last(s.times[n]) <= now
    case Visit(_, check, sentAt, stamp, _) => check <= sentAt <= stamp
    case _ => true
  }

  ghost predicate Steady(events: seq<Event>, l: Limits) {
    events == [] ||
    (Steady(events[..|events| - 1], l) && SteadyReading(After(events[..|events| - 1], l), events[|events| - 1]))
  }

  ghost predicate Timed(s: State, l: Limits) {
    && (forall n :: 0 <= n < |s.times| ==> Spaced(s.times[n], l))
    && (forall id :: id in s.store ==> s.store[id].payload < |s.times|
                                       && Last(s.times[s.store[id].payload]) <= s.store[id].lastSent)
  }

  lemma SpacedAppend(t: seq<int>, now: int, l: Limits)
    requires Spaced(t, l) && t != [] && now - Last(t) > l.resendTimeout
    ensures Spaced(t + [now], l) && Last(t + [now]) == now
  {
  }

  lemma {:induction false} TimedStep(s: State, e: Event, l: Limits)
    requires Counted(s, l) && Timed(s, l) && Enabled(s, e) && SteadyReading(s, e)
    ensures Timed(Step(s, e, l), l)
  {
    if e.Visit? && Judge(s.store[e.id], l, e.check, e.alive).Resent? {
      TimedResend(s, e, l);
    }
  }

  lemma TimedResend(s: State, e: Event, l: Limits)
    requires StoreCounts(s, l) && Timed(s, l) && e.Visit? && Enabled(s, e) && SteadyReading(s, e)
    requires Judge(s.store[e.id], l, e.check, e.alive).Resent?
    ensures Timed(Step(s, e, l), l)
  {
    var s', n := Step(s, e, l), s.store[e.id].payload;
    assert EntryCounts(s, e.id, l);
    SpacedAppend(s.times[n], e.sentAt, l);
    assert forall m :: 0 <= m < |s.times| ==> s'.times[m] == if m == n then s.times[n] + [e.sentAt] else s.times[m];
    forall id | id in s'.store
      ensures s'.store[id].payload < |s'.times| && Last(s'.times[s'.store[id].payload]) <= s'.store[id].lastSent
    {
      assert EntryCounts(s, id, l);
    }
  }

  lemma {:induction false} AlwaysTimed(events: seq<Event>, l: Limits)
    requires Possible(events, l) && Steady(events, l)
    ensures Timed(After(events, l), l)
  {
    if events != [] {
      var past := events[..|events| - 1];
      AlwaysTimed(past, l);
      AlwaysCounted(past, l);
      TimedStep(After(past, l), events[|events| - 1], l);
    }
  }

  /** With steady readings successive transmissions of a message are more than the timeout apart. */
  lemma {:induction false} TransmissionsSpaced(events: seq<Event>, l: Limits, n: nat)
    requires Possible(events, l) && Steady(events, l) && n < |After(events, l).times|
    ensures Spaced(After(events, l).times[n], l)
  {
    AlwaysTimed(events, l);
  }

  /** The resend that a due visit makes leaves message n's transmissions far enough apart. */
  ghost predicate VisitSpaced(s: State, id: nat, check: int, sentAt: int, l: Limits) {
    var visit := Visit(id, check, sentAt, sentAt, true);
    Enabled(s, visit) && Judge(s.store[id], l, check, true).Resent? ==>
      Spaced(Step(s, visit, l).times[s.store[id].payload], l)
  }

  /** In any state of any run, every visit in which the clock does not go back between check and send
      keeps a message's transmissions far enough apart exactly if the time noted for the last one is
      not before it. */
  lemma {:induction false} VisitsSpacedIff(events: seq<Event>, l: Limits, id: nat)
    requires Possible(events, l) && id in After(events, l).store
    requires var s := After(events, l); s.store[id].payload < |s.times| && Spaced(s.times[s.store[id].payload], l)
    requires After(events, l).store[id].resends < l.resendNumber
    ensures var s := After(events, l);
            (forall check, sentAt :: check <= sentAt ==> VisitSpaced(s, id, check, sentAt, l))
            <==> Last(s.times[s.store[id].payload]) <= s.store[id].lastSent
  {
    var s := After(events, l);
    AlwaysCounted(events, l);
    assert EntryCounts(s, id, l);
    var t, e := s.times[s.store[id].payload], s.store[id];
    if Last(t) <= e.lastSent {
      forall check, sentAt | check <= sentAt ensures VisitSpaced(s, id, check, sentAt, l) {
        if Judge(e, l, check, true).Resent? {
          SpacedAppend(t, sentAt, l);
        }
      }
    } else {
      var due := e.lastSent + l.resendTimeout + 1;
      EarlyResend(s, id, due, l);
      assert !VisitSpaced(s, id, due, due, l);
    }
  }

  /** The failing half: the first due reading after a time noted too early. */
  lemma EarlyResend(s: State, id: nat, due: int, l: Limits)
    requires id in s.store && s.store[id].payload < |s.times| && s.store[id].resends < l.resendNumber
    requires s.times[s.store[id].payload] != [] && due == s.store[id].lastSent + l.resendTimeout + 1
    requires Last(s.times[s.store[id].payload]) > s.store[id].lastSent
    ensures !VisitSpaced(s, id, due, due, l)
  {
    var t := s.times[s.store[id].payload];
    var t' := Step(s, Visit(id, due, due, due, true), l).times[s.store[id].payload];
    assert t' == t + [due] && t'[|t|] - t'[|t| - 1] <= l.resendTimeout;
  }

  function Latest(events: seq<Event>, begun: int): int {
    if events == [] then begun
    else
      match events[|events| - 1]
      case Transmit(now) => now
      case Track(_, _, now) => now
      case Visit(_, _, _, stamp, _) => stamp
      case _ => Latest(events[..|events| - 1], begun)
  }

  predicate Ticks(latest: int, e: Event) {
    match e
    case Transmit(now) => latest <= now
    case Track(_, _, now) => latest <= now
    case Visit(_, check, sentAt, stamp, _) => latest <= check <= sentAt <= stamp
    case _ => true
  }

  predicate MonotoneClock(events: seq<Event>, begun: int) {
    events == [] ||
    (MonotoneClock(events[..|events| - 1], begun) && Ticks(Latest(events[..|events| - 1], begun), events[|events| - 1]))
  }

  /** A clock that never goes back gives steady readings. */
  lemma {:induction false} MonotoneIsSteady(events: seq<Event>, l: Limits, begun: int)
    requires Possible(events, l) && MonotoneClock(events, begun)
    ensures Steady(events, l)
    ensures forall n :: 0 <= n < |After(events, l).times| ==> Last(After(events, l).times[n]) <= Latest(events, begun)
  {
    if events != [] {
      var past := events[..|events| - 1];
      MonotoneIsSteady(past, l, begun);
      LatestKept(After(past, l), events[|events| - 1], l, Latest(past, begun));
    }
  }

  lemma LatestKept(s: State, e: Event, l: Limits, latest: int)
    requires Enabled(s, e) && Ticks(latest, e)
    requires forall n :: 0 <= n < |s.times| ==> Last(s.times[n]) <= latest
    ensures SteadyReading(s, e)
    ensures var now := match e case Transmit(now) => now case Track(_, _, now) => now
                               case Visit(_, _, _, stamp, _) => stamp case _ => latest;
            forall n :: 0 <= n < |Step(s, e, l).times| ==> Last(Step(s, e, l).times[n]) <= now
  {
  }

  /** A clock set back between transmitting and tracking lets the next transmission come too early. */
  function ClockSetBack(l: Limits): seq<Event> {
    var t := l.resendTimeout + 1;
    [Transmit(1), Track(0, 0, 0), Visit(0, t, t, t, true)]
  }

  lemma ClockBackBreaksSpacing(l: Limits)
    requires l.resendNumber > 0
    ensures var s := After(ClockSetBack(l), l);
            Possible(ClockSetBack(l), l) && |s.times| == 1 && !Spaced(s.times[0], l)
  {
    var e := ClockSetBack(l);
    AfterStep([], e[0], l);
    AfterStep([e[0]], e[1], l);
    assert WireId(0) == 0;
    AfterStep([e[0]] + [e[1]], e[2], l);
    assert [] + [e[0]] == [e[0]] && e == [e[0]] + [e[1]] + [e[2]];
    var times := After(e, l).times[0];
    assert times == [1, e[2].sentAt] && times[1] - times[0] == l.resendTimeout;
  }

  /** What the channel does to a copy: delivery hands it up and sends an ack for it, however often its
      message was handled before; loss takes it away, and so for acks. */
  lemma {:induction false} ChannelSteps(events: seq<Event>, c: Copy, l: Limits)
    requires Possible(events, l)
    ensures var s := After(events, l);
            && (c in s.data ==> After(events + [Deliver(c)], l)
                                == s.(data := s.data - {c}, handled := s.handled + {c}, acks := s.acks + {c}))
            && (c in s.data ==> After(events + [LoseData(c)], l) == s.(data := s.data - {c}))
            && (c in s.acks ==> After(events + [LoseAck(c)], l) == s.(acks := s.acks - {c}))
            && (c in s.acks ==> After(events + [AckArrives(c)], l)
                                == s.(acks := s.acks - {c}, store := s.store - {WireId(c.n)}))
  {
    AfterStep(events, Deliver(c), l);
    AfterStep(events, LoseData(c), l);
    AfterStep(events, LoseAck(c), l);
    AfterStep(events, AckArrives(c), l);
  }

  /** What one entry's turn in a scan does: out of resends or due without a connection, the entry goes;
      due with one, it is sent once more; otherwise nothing happens. */
  lemma {:induction false} VisitSteps(events: seq<Event>, visit: Event, l: Limits)
    requires Possible(events, l) && visit.Visit? && Enabled(After(events, l), visit)
    ensures var s, s' := After(events, l), After(events + [visit], l);
            var e, n := s.store[visit.id], s.store[visit.id].payload;
            var due := e.lastSent + l.resendTimeout < visit.check;
            if e.resends >= l.resendNumber || (due && !visit.alive) then s' == s.(store := s.store - {visit.id})
            else if due then
              s' == s.(store := s.store[visit.id := Entry(n, e.connection, e.resends + 1, visit.stamp)],
                       times := s.times[n := s.times[n] + [visit.sentAt]], data := s.data + {Copy(n, |s.times[n]|)})
            else s' == s
  {
    AfterStep(events, visit, l);
  }

  /** How often the peer's handler was given message n. */
  function Deliveries(events: seq<Event>, n: nat): nat {
    if events == [] then 0
    else
      Deliveries(events[..|events| - 1], n) +
      match events[|events| - 1]
      case Deliver(c) => if c.n == n then 1 else 0
      case _ => 0
  }

  function CopiesOf(copies: set<Copy>, n: nat): set<Copy> { set c | c in copies && c.n == n }

  lemma OneMoreCopy(copies: set<Copy>, copy: Copy, n: nat)
    requires copy !in copies
    ensures |CopiesOf(copies + {copy}, n)| == |CopiesOf(copies, n)| + if copy.n == n then 1 else 0
  {
    assert CopiesOf(copies + {copy}, n) == if copy.n == n then CopiesOf(copies, n) + {copy} else CopiesOf(copies, n);
  }

  lemma {:induction false} DeliveriesAreCopies(events: seq<Event>, l: Limits, n: nat)
    requires Possible(events, l)
    ensures Deliveries(events, n) == |CopiesOf(After(events, l).handled, n)|
  {
    if events != [] {
      var past, e := events[..|events| - 1], events[|events| - 1];
      DeliveriesAreCopies(past, l, n);
      AlwaysCounted(past, l);
      if e.Deliver? {
        OneMoreCopy(After(past, l).handled, e.copy, n);
      }
    }
  }

  lemma {:induction false} CopiesBelow(copies: set<Copy>, n: nat, k: nat)
    requires forall c :: c in copies ==> c.n == n && c.k < k
    ensures |copies| <= k
  {
    if k == 0 {
      assert copies == {};
    } else {
      CopiesBelow(copies - {Copy(n, k - 1)}, n, k - 1);
    }
  }

  /** And the peer's handler gets it at most as often, although nothing removes duplicates. */
  lemma DeliveriesBounded(events: seq<Event>, l: Limits, n: nat)
    requires Possible(events, l)
    ensures Deliveries(events, n) <= 1 + l.resendNumber
    ensures n < |After(events, l).times| ==> Deliveries(events, n) <= |After(events, l).times[n]|
    ensures n >= |After(events, l).times| ==> Deliveries(events, n) == 0
  {
    AlwaysCounted(events, l);
    DeliveriesAreCopies(events, l, n);
    var s := After(events, l);
    var copies := CopiesOf(s.handled, n);
    if n < |s.times| {
      CopiesBelow(copies, n, |s.times[n]|);
    } else {
      assert copies == {};
    }
  }

  // ---------- What an ack proves ----------

  /** Numbers of messages that something in the system still refers to. */
  ghost predicate Live(s: State, n: nat) {
    || n in s.pending
    || (WireId(n) in s.store && s.store[WireId(n)].payload == n)
    || (exists c :: c in s.data && c.n == n)
    || (exists c :: c in s.acks && c.n == n)
  }

  /** The proviso: the id about to be taken is not in use by anything live. */
  ghost predicate IdFree(s: State) {
    forall m :: Live(s, m) ==> WireId(m) != WireId(|s.times|)
  }

  ghost predicate NoReuse(events: seq<Event>, l: Limits) {
    events == [] ||
    (NoReuse(events[..|events| - 1], l)
     && (events[|events| - 1].Transmit? ==> IdFree(After(events[..|events| - 1], l))))
  }

  ghost predicate OneOwner(s: State) {
    forall m, n :: Live(s, m) && Live(s, n) && WireId(m) == WireId(n) ==> m == n
  }

  lemma OneOwnerStep(s: State, e: Event, l: Limits)
    requires Counted(s, l) && Enabled(s, e) && OneOwner(s)
    requires e.Transmit? ==> IdFree(s)
    ensures OneOwner(Step(s, e, l))
  {
    var s' := Step(s, e, l);
    forall m | Live(s', m) ensures Live(s, m) || (e.Transmit? && m == |s.times|) {
      StaysLive(s, e, l, m);
    }
  }

  lemma StaysLive(s: State, e: Event, l: Limits, m: nat)
    requires Counted(s, l) && Enabled(s, e) && Live(Step(s, e, l), m)
    ensures Live(s, m) || (e.Transmit? && m == |s.times|)
  {
  }

  lemma {:induction false} AlwaysOneOwner(events: seq<Event>, l: Limits)
    requires Possible(events, l) && NoReuse(events, l)
    ensures OneOwner(After(events, l))
  {
    if events != [] {
      var past := events[..|events| - 1];
      AlwaysOneOwner(past, l);
      AlwaysCounted(past, l);
      OneOwnerStep(After(past, l), events[|events| - 1], l);
    }
  }

  /** In every run without id reuse, an ack that removes an entry answers a copy of that very
      message that the peer has already parsed. */
  lemma AckMeansParsed(events: seq<Event>, l: Limits, copy: Copy)
    requires Possible(events, l) && NoReuse(events, l)
    requires Enabled(After(events, l), AckArrives(copy)) && WireId(copy.n) in After(events, l).store
    ensures var s := After(events, l);
            s.store[WireId(copy.n)].payload == copy.n && copy in s.handled
  {
    AlwaysCounted(events, l);
    AlwaysOneOwner(events, l);
    var s := After(events, l);
    assert Live(s, copy.n) && Live(s, s.store[WireId(copy.n)].payload);
  }

  // ---------- Exactly when acks are right ----------

  predicate NoSends(more: seq<Event>) { forall i :: 0 <= i < |more| ==> !more[i].Transmit? }

  /** Every ack on its way back would remove nothing but the entry of the message it answers. */
  ghost predicate RightAcks(s: State) {
    forall c :: c in s.acks && WireId(c.n) in s.store ==> s.store[WireId(c.n)].payload == c.n
  }

  /** In this state and in every continuation without new sends. */
  ghost predicate AcksStayRight(events: seq<Event>, l: Limits) {
    forall more: seq<Event> :: NoSends(more) && Possible(events + more, l) ==> RightAcks(After(events + more, l))
  }

  lemma {:induction false} NoReuseKept(events: seq<Event>, more: seq<Event>, l: Limits)
    requires NoReuse(events, l) && NoSends(more)
    ensures NoReuse(events + more, l)
    decreases |more|
  {
    if more == [] {
      assert events + more == events;
    } else {
      var past := more[..|more| - 1];
      NoReuseKept(events, past, l);
      assert (events + more)[..|events + more| - 1] == events + past;
    }
  }

  lemma {:induction false} NoReuseIsRight(events: seq<Event>, l: Limits)
    requires Possible(events, l) && NoReuse(events, l)
    ensures RightAcks(After(events, l))
  {
    var s := After(events, l);
    forall c | c in s.acks && WireId(c.n) in s.store ensures s.store[WireId(c.n)].payload == c.n {
      AlwaysCounted(events, l);
      AlwaysOneOwner(events, l);
      assert EntryCounts(s, WireId(c.n), l);
      assert Live(s, c.n) && Live(s, s.store[WireId(c.n)].payload);
    }
  }

  lemma {:induction false} NoReuseStaysRight(events: seq<Event>, l: Limits)
    requires NoReuse(events, l)
    ensures AcksStayRight(events, l)
  {
    forall more: seq<Event> | NoSends(more) && Possible(events + more, l) ensures RightAcks(After(events + more, l)) {
      NoReuseKept(events, more, l);
      NoReuseIsRight(events + more, l);
    }
  }

  lemma AfterTwo(events: seq<Event>, d: Event, e: Event, l: Limits)
    requires Possible(events, l) && Enabled(After(events, l), d) && Enabled(Step(After(events, l), d, l), e)
    ensures Possible(events + [d, e], l) && After(events + [d, e], l) == Step(Step(After(events, l), d, l), e, l)
  {
    AfterStep(events, d, l);
    AfterStep(events + [d], e, l);
    assert events + [d] + [e] == events + [d, e];
  }

  lemma LiveIsOld(s: State, m: nat, l: Limits)
    requires Counted(s, l) && Live(s, m)
    ensures m < |s.times|
  {
    assert WireId(m) in s.store ==> EntryCounts(s, WireId(m), l);
  }

  /** How the ack of one of two messages under the same id comes to remove the other's entry. */
  lemma {:induction false} ReuseGoesWrong(events: seq<Event>, m: nat, n: nat, l: Limits) returns (more: seq<Event>)
    requires Possible(events, l) && Live(After(events, l), m) && m < n && WireId(m) == WireId(n)
    requires n in After(events, l).pending && Copy(n, 0) in After(events, l).data
    requires forall id :: id in After(events, l).store ==> After(events, l).store[id].payload != n
    ensures NoSends(more) && Possible(events + more, l) && !RightAcks(After(events + more, l))
  {
    var s, id := After(events, l), WireId(n);
    if id in s.store {
      more := [Deliver(Copy(n, 0))];
      AfterStep(events, more[0], l);
      assert Copy(n, 0) in After(events + more, l).acks && id in After(events + more, l).store;
    } else if m in s.pending {
      more := [Track(m, 0, 0), Deliver(Copy(n, 0))];
      AfterTwo(events, more[0], more[1], l);
      assert Copy(n, 0) in After(events + more, l).acks && After(events + more, l).store[id].payload == m;
    } else if c :| c in s.data && c.n == m {
      more := [Track(n, 0, 0), Deliver(c)];
      AfterTwo(events, more[0], more[1], l);
      assert c in After(events + more, l).acks && After(events + more, l).store[id].payload == n;
    } else {
      var c :| c in s.acks && c.n == m;
      more := [Track(n, 0, 0)];
      AfterStep(events, more[0], l);
      assert c in After(events + more, l).acks && After(events + more, l).store[id].payload == n;
    }
  }

  /** After a run without reuse, one more send leaves all acks right in every continuation without
      further sends exactly if the id it takes is not that of a message still referred to. */
  lemma {:induction false} SendStaysRightIff(events: seq<Event>, now: int, l: Limits)
    requires Possible(events, l) && NoReuse(events, l)
    ensures AcksStayRight(events + [Transmit(now)], l) <==> IdFree(After(events, l))
  {
    var s, sent := After(events, l), events + [Transmit(now)];
    AfterStep(events, Transmit(now), l);
    if IdFree(s) {
      assert sent[..|sent| - 1] == events;
      NoReuseStaysRight(sent, l);
    } else {
      var m: nat :| Live(s, m) && WireId(m) == WireId(|s.times|);
      AlwaysCounted(events, l);
      LiveIsOld(s, m, l);
      TransmitKeepsLive(s, m, now, l);
      var more := ReuseGoesWrong(sent, m, |s.times|, l);
    }
  }

  lemma TransmitKeepsLive(s: State, m: nat, now: int, l: Limits)
    requires Counted(s, l) && Live(s, m)
    ensures var s' := Step(s, Transmit(now), l);
            && Live(s', m) && |s.times| in s'.pending && Copy(|s.times|, 0) in s'.data
            && forall id :: id in s'.store ==> s'.store[id].payload != |s.times|
  {
    var s' := Step(s, Transmit(now), l);
    forall id | id in s'.store ensures s'.store[id].payload != |s.times| {
      assert EntryCounts(s, id, l);
    }
    if c :| c in s.data && c.n == m {
      assert c in s'.data;
    }
  }

  /** In every state of the run, and in every continuation of it without new sends. */
  ghost predicate AllAcksRight(events: seq<Event>, l: Limits) {
    AcksStayRight(events, l) && (events == [] || AllAcksRight(events[..|events| - 1], l))
  }

  /** So over a whole run the acks are right all along exactly if no send reuses an id in use. */
  lemma {:induction false} AcksRightIffNoReuse(events: seq<Event>, l: Limits)
    requires Possible(events, l)
    ensures AllAcksRight(events, l) <==> NoReuse(events, l)
  {
    if events == [] {
      NoReuseStaysRight(events, l);
    } else {
      var past, e := events[..|events| - 1], events[|events| - 1];
      AcksRightIffNoReuse(past, l);
      assert events == past + [e];
      if NoReuse(past, l) && e.Transmit? {
        SendStaysRightIff(past, e.now, l);
      }
      if NoReuse(events, l) {
        NoReuseStaysRight(events, l);
      }
    }
  }

  /** No send is made while a message 65536 or more sends back is still referred to, or at overflow. */
  ghost predicate Prompt(events: seq<Event>, l: Limits) {
    events == [] ||
    (Prompt(events[..|events| - 1], l) && (events[|events| - 1].Transmit? ==> Recent(After(events[..|events| - 1], l))))
  }

  ghost predicate Recent(s: State) {
    |s.times| < SIZE_MAX && forall m: nat :: Live(s, m) ==> |s.times| < m + ID_RANGE
  }

  lemma RecentIsFree(s: State, l: Limits)
    requires Counted(s, l) && Recent(s)
    ensures IdFree(s)
  {
    forall m | Live(s, m) ensures WireId(m) != WireId(|s.times|) {
      LiveIsOld(s, m, l);
      NearIdsDiffer(m, |s.times|);
    }
  }

  /** In particular ids are not reused as long as nothing is referred to for 65536 sends. */
  lemma {:induction false} PromptNoReuse(events: seq<Event>, l: Limits)
    requires Possible(events, l) && Prompt(events, l)
    ensures NoReuse(events, l)
  {
    if events != [] {
      var past := events[..|events| - 1];
      PromptNoReuse(past, l);
      AlwaysCounted(past, l);
      if events[|events| - 1].Transmit? {
        RecentIsFree(After(past, l), l);
      }
    }
  }

  function Transmits(k: nat): seq<Event> {
    if k == 0 then [] else Transmits(k - 1) + [Transmit(0)]
  }

  ghost predicate AllTransmitted(s: State, k: nat) {
    && |s.times| == k && s.store == map[] && s.acks == {} && s.handled == {}
    && forall n: nat :: n < k ==> n in s.pending && Copy(n, 0) in s.data
  }

  lemma TransmitOneMore(s: State, k: nat, l: Limits)
    requires AllTransmitted(s, k)
    ensures AllTransmitted(Step(s, Transmit(0), l), k + 1)
  {
  }

  lemma {:induction false} ManyTransmitted(k: nat, l: Limits)
    ensures Possible(Transmits(k), l) && AllTransmitted(After(Transmits(k), l), k)
  {
    if k > 0 {
      ManyTransmitted(k - 1, l);
      TransmitOneMore(After(Transmits(k - 1), l), k - 1, l);
      AfterStep(Transmits(k - 1), Transmit(0), l);
    }
  }

  /** A run with reuse: message 65536 takes the id of message 0, and the ack of message 0 removes
      its entry although the peer has parsed nothing of it. */
  lemma {:induction false} ReuseMisleads(l: Limits)
    ensures var events := Transmits(ID_RANGE + 1) + [Track(ID_RANGE, 0, 0)] + [Deliver(Copy(0, 0))];
            var s := After(events, l);
            && Possible(events, l) && Enabled(s, AckArrives(Copy(0, 0)))
            && WireId(0) in s.store && s.store[WireId(0)].payload == ID_RANGE
            && WireId(0) !in Step(s, AckArrives(Copy(0, 0)), l).store
            && forall c :: c in s.handled ==> c.n != ID_RANGE
  {
    var sent := Transmits(ID_RANGE + 1);
    ManyTransmitted(ID_RANGE + 1, l);
    ReuseInState(After(sent, l), l);
    AfterStep(sent, Track(ID_RANGE, 0, 0), l);
    AfterStep(sent + [Track(ID_RANGE, 0, 0)], Deliver(Copy(0, 0)), l);
  }

  lemma ReuseInState(s: State, l: Limits)
    requires AllTransmitted(s, ID_RANGE + 1)
    ensures Enabled(s, Track(ID_RANGE, 0, 0))
    ensures var t := Step(s, Track(ID_RANGE, 0, 0), l);
            && Enabled(t, Deliver(Copy(0, 0)))
            && var u := Step(t, Deliver(Copy(0, 0)), l);
            && Enabled(u, AckArrives(Copy(0, 0))) && u.handled == {Copy(0, 0)}
            && WireId(0) in u.store && u.store[WireId(0)].payload == ID_RANGE
            && WireId(0) !in Step(u, AckArrives(Copy(0, 0)), l).store
  {
    IdsCoincide(0, ID_RANGE);
  }

  /** In every run tracking stores a message exactly if its id is free; otherwise it changes nothing,
      and the message is never resent. */
  lemma {:induction false} TrackStoresIff(events: seq<Event>, n: nat, connection: nat, now: int, l: Limits)
    requires Possible(events, l) && Enabled(After(events, l), Track(n, connection, now))
    ensures var s := After(events, l); var s' := After(events + [Track(n, connection, now)], l);
            && n !in s'.pending
            && (WireId(n) !in s.store ==> s'.store == s.store[WireId(n) := Entry(n, connection, 0, now)])
            && (WireId(n) in s.store ==>
                  s'.store == s.store && NeverSentAgain(events + [Track(n, connection, now)], n, l))
  {
    var s, tracked := After(events, l), events + [Track(n, connection, now)];
    AlwaysCounted(events, l);
    AfterStep(events, Track(n, connection, now), l);
    if WireId(n) in s.store {
      DroppedIsSilent(s, n, connection, now, l);
      forall more: seq<Event> | Possible(tracked + more, l)
        ensures |After(tracked + more, l).times| > n && |After(tracked, l).times| > n
        ensures After(tracked + more, l).times[n] == After(tracked, l).times[n]
      {
        StaysSilent(tracked, more, n, l);
      }
    }
  }

  lemma DroppedIsSilent(s: State, n: nat, connection: nat, now: int, l: Limits)
    requires Counted(s, l) && Enabled(s, Track(n, connection, now)) && WireId(n) in s.store
    ensures Silent(Step(s, Track(n, connection, now), l), n, l)
  {
    forall id | id in s.store ensures s.store[id].payload != n {
      assert EntryCounts(s, id, l);
    }
  }

  /** Every stored message is within 65535 sends of message n, before the counter overflows. */
  predicate StoredNear(s: State, n: nat) {
    forall id :: id in s.store ==> s.store[id].payload < SIZE_MAX && -ID_RANGE < s.store[id].payload - n < ID_RANGE
  }

  /** In every run tracking drops no message while every stored message is within 65535 sends of it
      and the counter has not overflowed. */
  lemma TrackKeeps(events: seq<Event>, n: nat, connection: nat, now: int, l: Limits)
    requires Possible(events, l) && Enabled(After(events, l), Track(n, connection, now)) && n < SIZE_MAX
    requires StoredNear(After(events, l), n)
    ensures var s := After(events, l);
            && WireId(n) !in s.store
            && Step(s, Track(n, connection, now), l).store == s.store[WireId(n) := Entry(n, connection, 0, now)]
  {
    AlwaysCounted(events, l);
    NotTracked(After(events, l), n, connection, now, l);
  }

  lemma {:induction false} NotTracked(s: State, n: nat, connection: nat, now: int, l: Limits)
    requires StoreCounts(s, l) && Enabled(s, Track(n, connection, now)) && n < SIZE_MAX && StoredNear(s, n)
    ensures WireId(n) !in s.store
    ensures Step(s, Track(n, connection, now), l).store == s.store[WireId(n) := Entry(n, connection, 0, now)]
  {
    if WireId(n) in s.store {
      assert EntryCounts(s, WireId(n), l);
      NearIdsDiffer(s.store[WireId(n)].payload, n);
    }
  }

  lemma NearIdsDiffer(m: nat, n: nat)
    requires m < SIZE_MAX && n < SIZE_MAX && m != n && -ID_RANGE < m - n < ID_RANGE
    ensures WireId(m) != WireId(n)
  {
    if m < n {
      IdsCoincide(m, n);
    } else {
      IdsCoincide(n, m);
    }
  }

  // ---------- What an ack ends ----------

  /** Nothing will send message n again: no resends at all, or nothing refers to it any more. */
  ghost predicate Silent(s: State, n: nat, l: Limits) {
    && n < |s.times|
    && (l.resendNumber == 0 || (n !in s.pending && forall id :: id in s.store ==> s.store[id].payload != n))
  }

  lemma SilentStep(s: State, e: Event, n: nat, l: Limits)
    requires Silent(s, n, l) && Enabled(s, e)
    ensures Silent(Step(s, e, l), n, l) && Step(s, e, l).times[n] == s.times[n]
  {
  }

  lemma {:induction false} StaysSilent(events: seq<Event>, more: seq<Event>, n: nat, l: Limits)
    requires Possible(events + more, l) && Silent(After(events, l), n, l)
    ensures Silent(After(events + more, l), n, l) && After(events + more, l).times[n] == After(events, l).times[n]
    decreases |more|
  {
    if more == [] {
      assert events + more == events;
    } else {
      var past := events + more[..|more| - 1];
      assert events + more == past + [more[|more| - 1]];
      AfterStep(past, more[|more| - 1], l);
      StaysSilent(events, more[..|more| - 1], n, l);
      SilentStep(After(past, l), more[|more| - 1], n, l);
    }
  }

  ghost predicate NeverSentAgain(events: seq<Event>, n: nat, l: Limits) {
    forall more: seq<Event> :: Possible(events + more, l) ==>
      |After(events + more, l).times| > n && |After(events, l).times| > n
      && After(events + more, l).times[n] == After(events, l).times[n]
  }

  /** An ack ends the transmissions of the message it answers exactly if that message has already
      been tracked (or is never resent anyway): the ack of one still to be tracked is lost. */
  lemma {:induction false} AckEndsIff(events: seq<Event>, copy: Copy, l: Limits)
    requires Possible(events, l) && Enabled(After(events, l), AckArrives(copy))
    ensures NeverSentAgain(events + [AckArrives(copy)], copy.n, l)
            <==> copy.n !in After(events, l).pending || l.resendNumber == 0
  {
    var acked := events + [AckArrives(copy)];
    AfterStep(events, AckArrives(copy), l);
    AlwaysCounted(events, l);
    if copy.n !in After(events, l).pending || l.resendNumber == 0 {
      AckSilences(After(events, l), copy, l);
      forall more: seq<Event> | Possible(acked + more, l)
        ensures |After(acked + more, l).times| > copy.n && |After(acked, l).times| > copy.n
        ensures After(acked + more, l).times[copy.n] == After(acked, l).times[copy.n]
      {
        StaysSilent(acked, more, copy.n, l);
      }
    } else {
      var more := EarlyAckResent(events, copy, l);
      assert Possible(acked + more, l);
    }
  }

  lemma AckSilences(s: State, copy: Copy, l: Limits)
    requires Counted(s, l) && Enabled(s, AckArrives(copy)) && (copy.n !in s.pending || l.resendNumber == 0)
    ensures Silent(Step(s, AckArrives(copy), l), copy.n, l)
  {
    forall id | id in s.store && s.store[id].payload == copy.n ensures id == WireId(copy.n) {
      assert EntryCounts(s, id, l);
    }
  }

  /** The other way: once tracked, the message whose ack came too early is resent when due. */
  lemma {:induction false} EarlyAckResent(events: seq<Event>, copy: Copy, l: Limits) returns (more: seq<Event>)
    requires Possible(events, l) && Enabled(After(events, l), AckArrives(copy)) && l.resendNumber > 0
    requires copy.n in After(events, l).pending
    ensures var acked := events + [AckArrives(copy)];
            && Possible(acked + more, l) && copy.n < |After(acked, l).times| && copy.n < |After(acked + more, l).times|
            && |After(acked + more, l).times[copy.n]| == |After(acked, l).times[copy.n]| + 1
  {
    var t, n := l.resendTimeout + 1, copy.n;
    var acked, track, visit := events + [AckArrives(copy)], Track(n, 0, 0), Visit(WireId(n), t, t, t, true);
    AlwaysCounted(events, l);
    AfterStep(events, AckArrives(copy), l);
    AfterStep(acked, track, l);
    AfterStep(acked + [track], visit, l);
    more := [track, visit];
    assert acked + more == acked + [track] + [visit];
  }

  /** Such a run: message 0 is acknowledged before it is
      tracked, and so is resent and handled a second time. */
  function EarlyAck(l: Limits): seq<Event> {
    var t := l.resendTimeout + 1;
    [Transmit(0), Deliver(Copy(0, 0)), AckArrives(Copy(0, 0)), Track(0, 0, 0),
     Visit(0, t, t, t, true), Deliver(Copy(0, 1))]
  }

  lemma Extend(past: seq<Event>, e: Event, l: Limits)
    requires Possible(past, l) && NoReuse(past, l) && Enabled(After(past, l), e)
      && (e.Transmit? ==> IdFree(After(past, l)))
    ensures Possible(past + [e], l) && NoReuse(past + [e], l) && After(past + [e], l) == Step(After(past, l), e, l)
    ensures Deliveries(past + [e], 0) == Deliveries(past, 0) + if e.Deliver? && e.copy.n == 0 then 1 else 0
  {
    assert (past + [e])[..|past + [e]| - 1] == past;
  }

  lemma EarlyAckResends(l: Limits)
    requires l.resendNumber > 0
    ensures Possible(EarlyAck(l), l) && NoReuse(EarlyAck(l), l) && Deliveries(EarlyAck(l), 0) == 2
  {
    var e := EarlyAck(l);
    Extend([], e[0], l);
    Extend([e[0]], e[1], l);
    Extend([e[0]] + [e[1]], e[2], l);
    Extend([e[0]] + [e[1]] + [e[2]], e[3], l);
    assert WireId(0) == 0;
    Extend([e[0]] + [e[1]] + [e[2]] + [e[3]], e[4], l);
    Extend([e[0]] + [e[1]] + [e[2]] + [e[3]] + [e[4]], e[5], l);
    assert e == [e[0]] + [e[1]] + [e[2]] + [e[3]] + [e[4]] + [e[5]];
    assert [] + [e[0]] == [e[0]];
  }
}
