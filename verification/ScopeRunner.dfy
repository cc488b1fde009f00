/** The scope lock of webapi/include/webapi/websockets/utility.hpp: an atomic count, raised and
    lowered by handlers, set to -1 by stop. Each step is one atomic access by one call; the weak
    compare-and-swap may fail even when the values agree. */
module ScopeRunner {

  /** Where a call stands. A fresh call number is used for every call of continue_lock or stop. */
  datatype Call =
    | Trying(expected: int)  // continue_lock before its next compare-and-swap
    | Locked                 // it returned a SharedLock that is still alive
    | Refused                // it returned nullptr
    | Released               // the SharedLock was destroyed
    | Stopping               // stop before its next compare-and-swap, expecting 0
    | Stopped                // stop returned

  datatype State = State(count: int, calls: map<nat, Call>)

  datatype Event =
    | EnterContinue(call: nat)                // load the count
    | TryContinue(call: nat, spurious: bool)  // compare_exchange_weak(expected, expected + 1)
    | Release(call: nat)                      // ~SharedLock: fetch_sub(1)
    | EnterStop(call: nat)
    | TryStop(call: nat, spurious: bool)      // compare_exchange_weak(0, -1)

  const INITIAL := State(0, map[])

  predicate Enabled(s: State, e: Event) {
    match e
    case EnterContinue(c) => c !in s.calls
    case TryContinue(c, _) => c in s.calls && s.calls[c].Trying?
    case Release(c) => c in s.calls && s.calls[c].Locked?
    case EnterStop(c) => c !in s.calls
    case TryStop(c, _) => c in s.calls && s.calls[c].Stopping?
  }

  /** The loop test of continue_lock: a negative value read ends it without a lock. */
  function Loaded(value: int): Call { if value >= 0 then Trying(value) else Refused }

  function Step(s: State, e: Event): State
    requires Enabled(s, e)
  {
    match e
    case EnterContinue(c) => s.(calls := s.calls[c := Loaded(s.count)])
    case TryContinue(c, spurious) =>
      if s.count == s.calls[c].expected && !spurious
      then State(s.count + 1, s.calls[c := Locked])
      else s.(calls := s.calls[c := Loaded(s.count)])
    case Release(c) => State(s.count - 1, s.calls[c := Released])
    case EnterStop(c) => s.(calls := s.calls[c := Stopping])
    case TryStop(c, spurious) =>
      if s.count == 0 && !spurious then State(-1, s.calls[c := Stopped])
      else if s.count < 0 then s.(calls := s.calls[c := Stopped])
      else s
  }

  /** A run from any state; events that cannot happen change nothing. */
  function After(s: State, events: seq<Event>): State {
    if events == [] then s
    else
      var past, e := After(s, events[..|events| - 1]), events[|events| - 1];
      if Enabled(past, e) then Step(past, e) else past
  }

  function Live(s: State): set<nat> { set c | c in s.calls && s.calls[c].Locked? }

  predicate HasStopped(s: State) { exists c :: c in s.calls && s.calls[c].Stopped? }

  /** The count is the number of live locks, or -1 with none live; a stop that has returned left -1. */
  predicate Counted(s: State) {
    && (s.count == |Live(s)| || (s.count == -1 && Live(s) == {}))
    && (forall c :: c in s.calls && s.calls[c].Trying? ==> s.calls[c].expected >= 0)
    && (HasStopped(s) ==> s.count == -1)
  }

  lemma CountedStep(s: State, e: Event)
    requires Counted(s) && Enabled(s, e)
    ensures Counted(Step(s, e))
  {
    match e
    case EnterContinue(c) => SameLive(s, Step(s, e), c);
    case TryContinue(c, spurious) =>
      if s.count == s.calls[c].expected && !spurious {
        CountedGrant(s, c);
      } else {
        SameLive(s, Step(s, e), c);
      }
    case Release(c) => CountedRelease(s, c);
    case EnterStop(c) => SameLive(s, Step(s, e), c);
    case TryStop(c, spurious) => CountedStop(s, c, spurious);
  }

  lemma NoNewStop(s: State, s': State, c: nat)
    requires c in s'.calls && s'.calls == s.calls[c := s'.calls[c]] && !s'.calls[c].Stopped?
    ensures HasStopped(s') ==> HasStopped(s)
  {
  }

  lemma CountedGrant(s: State, c: nat)
    requires Counted(s) && Enabled(s, TryContinue(c, false)) && s.count == s.calls[c].expected
    ensures Counted(State(s.count + 1, s.calls[c := Locked]))
  {
    var s' := State(s.count + 1, s.calls[c := Locked]);
    assert Live(s') == Live(s) + {c};
    NoNewStop(s, s', c);
  }

  lemma CountedRelease(s: State, c: nat)
    requires Counted(s) && Enabled(s, Release(c))
    ensures Counted(State(s.count - 1, s.calls[c := Released]))
  {
    var s' := State(s.count - 1, s.calls[c := Released]);
    assert c in Live(s) && Live(s') == Live(s) - {c};
    NoNewStop(s, s', c);
  }

  lemma CountedStop(s: State, c: nat, spurious: bool)
    requires Counted(s) && Enabled(s, TryStop(c, spurious))
    ensures Counted(Step(s, TryStop(c, spurious)))
  {
    var s' := Step(s, TryStop(c, spurious));
    assert Live(s') == Live(s);
    if s.count == 0 {
      assert |Live(s)| == 0;
    }
  }

  lemma SameLive(s: State, s': State, c: nat)
    requires s'.calls.Keys == s.calls.Keys + {c}
    requires forall k :: k in s.calls && k != c ==> s'.calls[k] == s.calls[k]
    requires !s'.calls[c].Locked? && !s'.calls[c].Stopped?
    requires c in s.calls ==> !s.calls[c].Locked?
    ensures Live(s') == Live(s) && (HasStopped(s') ==> HasStopped(s))
  {
  }

  lemma {:induction false} CountedAfter(s: State, events: seq<Event>)
    requires Counted(s)
    ensures Counted(After(s, events))
  {
    if events != [] {
      var past := After(s, events[..|events| - 1]);
      CountedAfter(s, events[..|events| - 1]);
      if Enabled(past, events[|events| - 1]) {
        CountedStep(past, events[|events| - 1]);
      }
    }
  }

  /** For any number of calls, any interleaving and any spurious failures. */
  lemma CountIsLiveLocks(events: seq<Event>)
    ensures var s := After(INITIAL, events);
            s.count == |Live(s)| || (s.count == -1 && Live(s) == {})
  {
    assert Live(INITIAL) == {};
    CountedAfter(INITIAL, events);
  }

  predicate Granted(s: State, c: nat) {
    c in s.calls && s.calls[c] in {Locked, Released}
  }

  /** Once any stop has returned no lock is live, and no run from there grants one or ends with a
      count other than -1. */
  lemma {:induction false} StopIsFinal(before: seq<Event>, later: seq<Event>)
    requires HasStopped(After(INITIAL, before))
    ensures var s, s' := After(INITIAL, before), After(After(INITIAL, before), later);
            && Live(s) == {} && Live(s') == {} && s'.count == -1 && HasStopped(s')
            && forall c :: Granted(s', c) ==> Granted(s, c)
    decreases |later|
  {
    var s := After(INITIAL, before);
    assert Live(INITIAL) == {};
    CountedAfter(INITIAL, before);
    NoneLive(s);
    CountedAfter(s, later);
    if later != [] {
      var past := After(s, later[..|later| - 1]);
      StopIsFinal(before, later[..|later| - 1]);
      CountedAfter(s, later[..|later| - 1]);
      var c :| c in past.calls && past.calls[c].Stopped?;
      assert c in After(s, later).calls && After(s, later).calls[c].Stopped?;
      NoneLive(After(s, later));
    }
  }

  lemma NoneLive(s: State)
    requires Counted(s) && HasStopped(s)
    ensures Live(s) == {} && s.count == -1
  {
  }

  /** stop can return only when nothing is live: with a live lock its attempt changes nothing. */
  lemma StopWaits(events: seq<Event>, c: nat, spurious: bool)
    requires Enabled(After(INITIAL, events), TryStop(c, spurious)) && Live(After(INITIAL, events)) != {}
    ensures Step(After(INITIAL, events), TryStop(c, spurious)) == After(INITIAL, events)
  {
    var s := After(INITIAL, events);
    assert Live(INITIAL) == {};
    CountedAfter(INITIAL, events);
    var k :| k in Live(s);
    CardinalityMonotone({k}, Live(s));
  }

  lemma {:induction false} CardinalityMonotone(x: set<nat>, y: set<nat>)
    requires x <= y
    ensures |x| <= |y|
  {
    assert y == x + (y - x);
  }

  // ---------- Locks are granted ----------

  /** Nobody was refused but by a closed runner. */
  predicate RefusedWhenClosed(s: State) {
    forall c :: c in s.calls && s.calls[c].Refused? ==> s.count == -1
  }

  lemma RefusedStep(s: State, e: Event)
    requires Counted(s) && RefusedWhenClosed(s) && Enabled(s, e)
    ensures RefusedWhenClosed(Step(s, e))
  {
    if e.Release? {
      assert e.call in Live(s);
    }
  }

  /** A call of continue_lock is refused only if stop has closed the runner. */
  lemma {:induction false} RefusedOnlyClosed(events: seq<Event>, c: nat)
    ensures var s := After(INITIAL, events); c in s.calls && s.calls[c].Refused? ==> s.count == -1
    ensures RefusedWhenClosed(After(INITIAL, events))
  {
    if events != [] {
      var past, e := events[..|events| - 1], events[|events| - 1];
      RefusedOnlyClosed(past, c);
      assert Live(INITIAL) == {};
      CountedAfter(INITIAL, past);
      if Enabled(After(INITIAL, past), e) {
        RefusedStep(After(INITIAL, past), e);
      }
    }
  }

  /** While the runner is open, an undisturbed call of continue_lock gets a lock at its first attempt
      that does not fail spuriously; when it is closed, the call is refused. */
  lemma {:induction false} OpenGrants(events: seq<Event>, c: nat)
    requires c !in After(INITIAL, events).calls
    ensures var s := After(INITIAL, events);
            var entered := After(INITIAL, events + [EnterContinue(c)]);
            var tried := After(INITIAL, events + [EnterContinue(c)] + [TryContinue(c, false)]);
            if s.count == -1 then entered.calls[c] == Refused && entered.count == -1
            else c in tried.calls && tried.calls[c] == Locked && tried.count == s.count + 1
  {
    assert Live(INITIAL) == {};
    CountedAfter(INITIAL, events);
    AfterStep(events, EnterContinue(c));
    if After(INITIAL, events).count != -1 {
      AfterStep(events + [EnterContinue(c)], TryContinue(c, false));
    }
  }

  /** With no live lock, an attempt of stop that does not fail spuriously returns and leaves the
      runner closed; with the runner closed, every attempt returns. */
  lemma {:induction false} StopReturns(events: seq<Event>, c: nat, spurious: bool)
    requires c in After(INITIAL, events).calls && After(INITIAL, events).calls[c].Stopping?
    requires Live(After(INITIAL, events)) == {} && (After(INITIAL, events).count == -1 || !spurious)
    ensures var s := After(INITIAL, events + [TryStop(c, spurious)]);
            c in s.calls && s.calls[c] == Stopped && s.count == -1
  {
    assert Live(INITIAL) == {};
    CountedAfter(INITIAL, events);
    AfterStep(events, TryStop(c, spurious));
  }

  lemma AfterStep(events: seq<Event>, e: Event)
    requires Enabled(After(INITIAL, events), e)
    ensures After(INITIAL, events + [e]) == Step(After(INITIAL, events), e)
  {
    assert (events + [e])[..|events + [e]| - 1] == events;
  }

  /** The lock object: the shared count, and the local variables of the calls in progress. Each
      method is one atomic access of one call, with the branch the caller takes on its outcome. */
  class Runner {
    var count: int
    var calls: map<nat, Call>
    ghost var events: seq<Event>  // every atomic access so far

    function View(): State
      reads this
    {
      State(count, calls)
    }

    ghost predicate Valid()
      reads this
    {
      View() == After(INITIAL, events)
    }

    constructor ()
      ensures Valid() && events == []
    {
      count, calls, events := 0, map[], [];
    }

    /** The weak exchange reports what it saw; it may also fail on equal values. */
    method CompareExchangeWeak(expected: int, desired: int, spurious: bool) returns (exchanged: bool, seen: int)
      modifies this`count
      ensures seen == old(count) && (exchanged <==> seen == expected && !spurious)
      ensures count == if exchanged then desired else old(count)
    {
      seen := count;
      exchanged := count == expected && !spurious;
      if exchanged {
        count := desired;
      }
    }

    /** continue_lock up to its first loop test. */
    method EnterContinueLock(call: nat)
      requires Valid() && call !in calls
      modifies this
      ensures Valid() && events == old(events) + [EnterContinue(call)]
      ensures calls == old(calls)[call := if count == -1 then Refused else Trying(count)] && count == old(count)
    {
      assert Live(INITIAL) == {};
      CountedAfter(INITIAL, events);
      AfterStep(events, EnterContinue(call));
      events := events + [EnterContinue(call)];
      var expected := count;
      calls := calls[call := Loaded(expected)];
    }

    /** One turn of its loop, and what follows the loop. */
    method TryContinueLock(call: nat, spurious: bool)
      requires Valid() && call in calls && calls[call].Trying?
      modifies this
      ensures Valid() && events == old(events) + [TryContinue(call, spurious)]
      ensures old(count) == -1 ==> calls[call] == Refused && count == -1
      ensures old(count) != -1 && (spurious || old(count) != old(calls)[call].expected) ==>
                calls[call] == Trying(old(count)) && count == old(count)
      ensures old(count) == old(calls)[call].expected && !spurious ==> calls[call] == Locked && count == old(count) + 1
    {
      assert Live(INITIAL) == {};
      CountedAfter(INITIAL, events);
      AfterStep(events, TryContinue(call, spurious));
      events := events + [TryContinue(call, spurious)];
      var expected := calls[call].expected;
      var exchanged, seen := CompareExchangeWeak(expected, expected + 1, spurious);
      calls := calls[call := if exchanged then Locked else Loaded(seen)];
    }

    /** The destructor of a SharedLock. */
    method ReleaseLock(call: nat)
      requires Valid() && call in calls && calls[call].Locked?
      modifies this
      ensures Valid() && events == old(events) + [Release(call)]
    {
      AfterStep(events, Release(call));
      events := events + [Release(call)];
      count := count - 1;
      calls := calls[call := Released];
    }

    method BeginStop(call: nat)
      requires Valid() && call !in calls
      modifies this
      ensures Valid() && events == old(events) + [EnterStop(call)]
    {
      AfterStep(events, EnterStop(call));
      events := events + [EnterStop(call)];
      calls := calls[call := Stopping];
    }

    /** One turn of stop's loop: it returns only with no lock live, and leaves the count at -1. */
    method TryStopTurn(call: nat, spurious: bool) returns (returned: bool)
      requires Valid() && call in calls && calls[call].Stopping?
      modifies this
      ensures Valid() && events == old(events) + [TryStop(call, spurious)]
      ensures returned <==> calls[call].Stopped?
      ensures returned ==> Live(View()) == {} && count == -1
    {
      AfterStep(events, TryStop(call, spurious));
      events := events + [TryStop(call, spurious)];
      var exchanged, seen := CompareExchangeWeak(0, -1, spurious);
      returned := exchanged || seen < 0;
      if returned {
        calls := calls[call := Stopped];
        assert Valid() && View().calls[call].Stopped?;
        StopIsFinal(events, []);
      }
    }

    /** Whatever accesses were made, the count is the number of live locks, or -1 with none live. */
    lemma CountsLiveLocks()
      requires Valid()
      ensures count == |Live(View())| || (count == -1 && Live(View()) == {})
      ensures HasStopped(View()) ==> count == -1
    {
      CountIsLiveLocks(events);
      if HasStopped(View()) {
        StopIsFinal(events, []);
      }
    }
  }
}
