/** The weekly rating of tempstore/src/UserRatingProvider.cpp as a value: a window and a table. */
module RatingWeek {
  import opened Order
  import opened Ranking
  import opened TimeHelper

  const SECONDS_IN_WEEK := 604800

  /** A deal's timestamp: unsigned 64-bit seconds from the Epoch. */
  type Stamp = n: nat | n < UNSIGNED

  const UNSIGNED := 0x1_0000_0000_0000_0000
  const TIME_LIMIT := 0x8000_0000_0000_0000

  datatype Deal = Deal(userId: nat, timestamp: Stamp, amount: real)

  datatype Week = Week(start: TimePoint, end: TimePoint, rows: seq<Row<nat, real>>)

  datatype Event = DealAdded(deal: Deal) | RolledOver

  /** std::greater and std::plus, in exact arithmetic. */
  const HIGHEST_SUM: Rules<real> := Rules((x: real, y: real) => x > y, (x: real, y: real) => x + y)

  /** A time_t compared with an unsigned 64-bit timestamp is converted to unsigned first. */
  function Unsigned(t: int): nat { t % UNSIGNED }

  /** The two tests of addDeal, on the window's bounds in seconds. */
  predicate Passes(timestamp: Stamp, start: int, end: int) {
    !(timestamp < Unsigned(start)) && !(timestamp >= Unsigned(end))
  }

  predicate InWindow(d: Deal, start: TimePoint, end: TimePoint) {
    Passes(d.timestamp, ToTimeT(start), ToTimeT(end))
  }

  lemma UnsignedIs(t: int)
    requires -TIME_LIMIT <= t < TIME_LIMIT
    ensures Unsigned(t) == if t >= 0 then t else UNSIGNED + t
  {
  }

  /** The tests mean start <= timestamp < end for every timestamp exactly when the window does not
      start before the Epoch, or ends at it. */
  lemma PassesIff(start: int, end: int)
    requires -TIME_LIMIT <= start < end < TIME_LIMIT
    ensures (forall t: Stamp :: Passes(t, start, end) <==> start <= t < end) <==> 0 <= start || end == 0
  {
    UnsignedIs(start);
    UnsignedIs(end);
    if start < 0 < end {
      EpochRefused(start, end);
    } else if end < 0 {
      assert Passes(UNSIGNED + start, start, end);
    }
  }

  /** The failing input: a deal at the Epoch, inside a window around it, is refused. */
  lemma EpochRefused(start: int, end: int)
    requires -TIME_LIMIT <= start < 0 < end < TIME_LIMIT
    ensures !Passes(0, start, end)
  {
    UnsignedIs(start);
  }

  /** For a window of whole seconds from the Epoch on, the tests are the plain ones. */
  lemma InWindowIs(d: Deal, start: TimePoint, end: TimePoint)
    requires 0 <= start && start % NANOS == 0 && end % NANOS == 0 && start < end < TIME_LIMIT
    ensures InWindow(d, start, end) <==> start <= FromTimeT(d.timestamp) < end
  {
    var a, b := start / NANOS, end / NANOS;
    assert start == a * NANOS && end == b * NANOS;
    UnsignedIs(a);
    UnsignedIs(b);
  }

  function Opened(start: TimePoint, duration: nat): Week {
    Week(start, start + duration * NANOS, [])
  }

  function Step(w: Week, e: Event, duration: nat): Week {
    match e
    case DealAdded(d) =>
      if InWindow(d, w.start, w.end) then w.(rows := Upsert(w.rows, d.userId, d.amount, HIGHEST_SUM)) else w
    case RolledOver => Opened(w.end, duration)
  }

  function After(start: TimePoint, duration: nat, events: seq<Event>): Week {
    if events == [] then Opened(start, duration)
    else Step(After(start, duration, events[..|events| - 1]), events[|events| - 1], duration)
  }

  lemma AfterStep(start: TimePoint, duration: nat, events: seq<Event>, e: Event)
    ensures After(start, duration, events + [e]) == Step(After(start, duration, events), e, duration)
  {
    assert (events + [e])[..|events + [e]| - 1] == events;
  }

  // ---------- The events alone, with no table in them ----------

  function Rollovers(events: seq<Event>): nat {
    if events == [] then 0
    else Rollovers(events[..|events| - 1]) + if events[|events| - 1].RolledOver? then 1 else 0
  }

  /** Start of the window that is open after these events. */
  function StartAfter(start: TimePoint, duration: nat, events: seq<Event>): TimePoint {
    start + Rollovers(events) * (duration * NANOS)
  }

  /** The deals since the last rollover that fell into the window open when they arrived. */
  function Accepted(start: TimePoint, duration: nat, events: seq<Event>): seq<Deal> {
    if events == [] then []
    else
      var past := events[..|events| - 1];
      match events[|events| - 1]
      case RolledOver => []
      case DealAdded(d) =>
        var opens := StartAfter(start, duration, past);
        if InWindow(d, opens, opens + duration * NANOS) then Accepted(start, duration, past) + [d]
        else Accepted(start, duration, past)
  }

  /** The in-order sum of one user's deals. */
  function AmountOf(deals: seq<Deal>, user: nat): Option<real> {
    if deals == [] then None
    else
      var past, last := AmountOf(deals[..|deals| - 1], user), deals[|deals| - 1];
      if last.userId != user then past
      else if past.None? then Some(last.amount)
      else Some(past.value + last.amount)
  }

  /** The number of deals up to the last one that gave the user a row or changed the user's sum. */
  function ChangedAt(deals: seq<Deal>, user: nat): nat {
    if deals == [] then 0
    else
      var past, last := deals[..|deals| - 1], deals[|deals| - 1];
      if last.userId == user && (last.amount != 0.0 || AmountOf(past, user).None?) then |deals|
      else ChangedAt(past, user)
  }

  /** The highest sum first; among equal sums the one changed last first. */
  ghost predicate BestFirst(rows: seq<Row<nat, real>>, deals: seq<Deal>) {
    forall i, j :: 0 <= i < j < |rows| ==>
      && rows[i].key >= rows[j].key
      && (rows[i].key == rows[j].key ==> ChangedAt(deals, rows[i].id) > ChangedAt(deals, rows[j].id))
  }

  function TotalDeals(deals: seq<Deal>): real {
    if deals == [] then 0.0 else TotalDeals(deals[..|deals| - 1]) + deals[|deals| - 1].amount
  }

  function TotalRows(rows: seq<Row<nat, real>>): real {
    if rows == [] then 0.0 else rows[0].key + TotalRows(rows[1..])
  }

  function Inserts(deals: seq<Deal>): seq<Op<nat, real>> {
    if deals == [] then []
    else Inserts(deals[..|deals| - 1]) + [Insert(deals[|deals| - 1].userId, deals[|deals| - 1].amount)]
  }

  lemma HighestSumOrders()
    ensures StrictWeakOrder(HIGHEST_SUM.better)
  {
  }

  lemma StartStep(start: TimePoint, duration: nat, events: seq<Event>)
    requires events != []
    ensures StartAfter(start, duration, events)
         == StartAfter(start, duration, events[..|events| - 1])
            + if events[|events| - 1].RolledOver? then duration * NANOS else 0
  {
    OneMore(Rollovers(events[..|events| - 1]), duration * NANOS);
  }

  lemma OneMore(n: nat, length: int)
    ensures (n + 1) * length == n * length + length
  {
  }

  lemma {:induction false} WindowAfter(start: TimePoint, duration: nat, events: seq<Event>)
    ensures var w := After(start, duration, events);
            w.start == StartAfter(start, duration, events) && w.end == w.start + duration * NANOS
  {
    if events != [] {
      WindowAfter(start, duration, events[..|events| - 1]);
      StartStep(start, duration, events);
    }
  }

  lemma RunOneMore(deals: seq<Deal>, d: Deal)
    ensures Run(Inserts(deals + [d]), HIGHEST_SUM)
         == Upsert(Run(Inserts(deals), HIGHEST_SUM), d.userId, d.amount, HIGHEST_SUM)
  {
    assert (deals + [d])[..|deals|] == deals;
    RunInsert(Inserts(deals), d.userId, d.amount, HIGHEST_SUM);
  }

  /** The counted deals after one more event in this window. */
  function Kept(w: Week, deals: seq<Deal>, e: Event): seq<Deal> {
    match e
    case RolledOver => []
    case DealAdded(d) => if InWindow(d, w.start, w.end) then deals + [d] else deals
  }

  lemma AcceptedStep(start: TimePoint, duration: nat, events: seq<Event>)
    requires events != []
    ensures var past := events[..|events| - 1];
            Accepted(start, duration, events)
            == Kept(After(start, duration, past), Accepted(start, duration, past), events[|events| - 1])
  {
    WindowAfter(start, duration, events[..|events| - 1]);
  }

  lemma TableStep(w: Week, deals: seq<Deal>, e: Event, duration: nat)
    requires w.rows == Run(Inserts(deals), HIGHEST_SUM)
    ensures Step(w, e, duration).rows == Run(Inserts(Kept(w, deals, e)), HIGHEST_SUM)
  {
    if e.DealAdded? {
      RunOneMore(deals, e.deal);
    }
  }

  /** The table is what inserting exactly the accepted deals, in order, builds. */
  lemma {:induction false} TableAfter(start: TimePoint, duration: nat, events: seq<Event>)
    ensures After(start, duration, events).rows == Run(Inserts(Accepted(start, duration, events)), HIGHEST_SUM)
  {
    if events != [] {
      var past, e := events[..|events| - 1], events[|events| - 1];
      TableAfter(start, duration, past);
      AcceptedStep(start, duration, events);
      TableStep(After(start, duration, past), Accepted(start, duration, past), e, duration);
    }
  }

  lemma {:induction false} FoldsAgree(deals: seq<Deal>, user: nat)
    ensures KeyOf(Inserts(deals), user, HIGHEST_SUM) == AmountOf(deals, user)
  {
    if deals != [] {
      var past, last := deals[..|deals| - 1], deals[|deals| - 1];
      FoldsAgree(past, user);
      OneMoreInsert(Inserts(past), last.userId, last.amount, HIGHEST_SUM);
    }
  }

  lemma {:induction false} StampsAreChanges(deals: seq<Deal>, user: nat)
    ensures StampOf(Inserts(deals), user, HIGHEST_SUM) == ChangedAt(deals, user)
  {
    if deals != [] {
      var past, last := deals[..|deals| - 1], deals[|deals| - 1];
      StampsAreChanges(past, user);
      FoldsAgree(past, user);
      OneMoreInsert(Inserts(past), last.userId, last.amount, HIGHEST_SUM);
      InsertsCount(past);
    }
  }

  lemma {:induction false} InsertsCount(deals: seq<Deal>)
    ensures |Inserts(deals)| == |deals|
  {
    if deals != [] {
      InsertsCount(deals[..|deals| - 1]);
    }
  }

  lemma RankedIsBestFirst(rows: seq<Row<nat, real>>, deals: seq<Deal>)
    requires IsRanking(rows, Inserts(deals), HIGHEST_SUM)
    ensures BestFirst(rows, deals)
  {
    forall i, j | 0 <= i < j < |rows|
      ensures rows[i].key >= rows[j].key
      ensures rows[i].key == rows[j].key ==> ChangedAt(deals, rows[i].id) > ChangedAt(deals, rows[j].id)
    {
      assert Ahead(Inserts(deals), rows[i], rows[j], HIGHEST_SUM);
      StampsAreChanges(deals, rows[i].id);
      StampsAreChanges(deals, rows[j].id);
    }
  }

  /** Inserting deals gives a table that holds, user by user, the in-order sum of exactly that
      user's deals, ranked; users without a deal have no row. */
  lemma RunAmounts(deals: seq<Deal>)
    ensures var rows := Run(Inserts(deals), HIGHEST_SUM);
            && IsRanking(rows, Inserts(deals), HIGHEST_SUM) && BestFirst(rows, deals)
            && (forall i :: 0 <= i < |rows| ==> AmountOf(deals, rows[i].id) == Some(rows[i].key))
            && (forall user :: HasId(rows, user) <==> AmountOf(deals, user).Some?)
  {
    HighestSumOrders();
    RunIsRanking(Inserts(deals), HIGHEST_SUM);
    RankedIsBestFirst(Run(Inserts(deals), HIGHEST_SUM), deals);
    forall user ensures KeyOf(Inserts(deals), user, HIGHEST_SUM) == AmountOf(deals, user) {
      FoldsAgree(deals, user);
    }
  }

  /** In every run the table is that of the deals accepted since the last rollover. */
  lemma {:induction false} AmountsAreFolds(start: TimePoint, duration: nat, events: seq<Event>)
    ensures var w := After(start, duration, events); var deals := Accepted(start, duration, events);
            && BestFirst(w.rows, deals) && DistinctIds(w.rows)
            && (forall i :: 0 <= i < |w.rows| ==> AmountOf(deals, w.rows[i].id) == Some(w.rows[i].key))
            && (forall user :: HasId(w.rows, user) <==> AmountOf(deals, user).Some?)
  {
    TableAfter(start, duration, events);
    RunAmounts(Accepted(start, duration, events));
  }

  lemma {:induction false} AcceptedPassed(start: TimePoint, duration: nat, events: seq<Event>)
    ensures var w := After(start, duration, events);
            forall i :: 0 <= i < |Accepted(start, duration, events)|
                    ==> InWindow(Accepted(start, duration, events)[i], w.start, w.end)
  {
    if events != [] {
      AcceptedPassed(start, duration, events[..|events| - 1]);
      WindowAfter(start, duration, events[..|events| - 1]);
    }
  }

  lemma {:induction false} WholeSecondsAfter(start: TimePoint, duration: nat, events: seq<Event>)
    requires 0 <= start && start % NANOS == 0
    ensures var w := After(start, duration, events);
            0 <= w.start && w.start % NANOS == 0 && w.end == w.start + duration * NANOS && w.end % NANOS == 0
  {
    WindowAfter(start, duration, events);
    PeriodsAreWhole(start / NANOS, Rollovers(events), duration);
  }

  lemma PeriodsAreWhole(s: nat, k: nat, duration: nat)
    ensures var begin := s * NANOS + k * (duration * NANOS);
            0 <= begin && begin % NANOS == 0 && (begin + duration * NANOS) % NANOS == 0
  {
    assert s * NANOS + k * (duration * NANOS) == (s + k * duration) * NANOS;
    WholeSecond(s + k * duration);
    assert (s + k * duration) * NANOS + duration * NANOS == (s + k * duration + duration) * NANOS;
    WholeSecond(s + k * duration + duration);
  }

  lemma WholeSecond(n: nat)
    ensures 0 <= n * NANOS && n * NANOS % NANOS == 0
  {
  }

  /** And every one of those deals is timestamped inside the window now open. */
  lemma {:induction false} AcceptedInWindow(start: TimePoint, duration: nat, events: seq<Event>)
    requires 0 <= start && start % NANOS == 0 && duration > 0 && After(start, duration, events).end < TIME_LIMIT
    ensures var w := After(start, duration, events);
            forall i :: 0 <= i < |Accepted(start, duration, events)|
                    ==> w.start <= FromTimeT(Accepted(start, duration, events)[i].timestamp) < w.end
  {
    var w, deals := After(start, duration, events), Accepted(start, duration, events);
    AcceptedPassed(start, duration, events);
    WholeSecondsAfter(start, duration, events);
    forall i | 0 <= i < |deals| ensures w.start <= FromTimeT(deals[i].timestamp) < w.end {
      InWindowIs(deals[i], w.start, w.end);
    }
  }

  /** Which deals count, without the tests of the code: a deal counts exactly if its timestamp is inside the
      window open when it arrives, whatever its user and amount, and until the next rollover. */
  lemma {:induction false} AcceptedOneMore(start: TimePoint, duration: nat, events: seq<Event>, d: Deal)
    requires 0 <= start && start % NANOS == 0 && duration > 0 && After(start, duration, events).end < TIME_LIMIT
    ensures var w, deals := After(start, duration, events), Accepted(start, duration, events);
            && Accepted(start, duration, events + [DealAdded(d)])
               == (if w.start <= FromTimeT(d.timestamp) < w.end then deals + [d] else deals)
            && Accepted(start, duration, events + [RolledOver]) == []
  {
    var w := After(start, duration, events);
    WholeSecondsAfter(start, duration, events);
    InWindowIs(d, w.start, w.end);
    AcceptedStep(start, duration, events + [DealAdded(d)]);
    assert (events + [DealAdded(d)])[..|events|] == events && (events + [RolledOver])[..|events|] == events;
  }

  // ---------- Conservation ----------

  lemma {:induction false} TotalSplits(x: seq<Row<nat, real>>, y: seq<Row<nat, real>>)
    ensures TotalRows(x + y) == TotalRows(x) + TotalRows(y)
  {
    if x == [] {
      assert x + y == y;
    } else {
      TotalSplits(x[1..], y);
      assert (x + y)[1..] == x[1..] + y;
    }
  }

  lemma TotalPlaced(rows: seq<Row<nat, real>>, row: Row<nat, real>)
    ensures TotalRows(Place(rows, row, HIGHEST_SUM.better)) == TotalRows(rows) + row.key
  {
    var c := Cut(rows, row.key, HIGHEST_SUM.better);
    assert rows == rows[..c] + rows[c..];
    TotalSplits(rows[..c], rows[c..]);
    TotalSplits(rows[..c] + [row], rows[c..]);
    TotalSplits(rows[..c], [row]);
  }

  lemma TotalRemoved(rows: seq<Row<nat, real>>, p: nat)
    requires p < |rows|
    ensures TotalRows(Remove(rows, p)) == TotalRows(rows) - rows[p].key
    ensures forall key :: TotalRows(rows[p := Row(rows[p].id, key)]) == TotalRows(rows) - rows[p].key + key
  {
    TotalSplits(rows[..p], rows[p + 1..]);
    assert rows == rows[..p] + rows[p..] && rows[p..][1..] == rows[p + 1..];
    TotalSplits(rows[..p], rows[p..]);
    forall key ensures TotalRows(rows[p := Row(rows[p].id, key)]) == TotalRows(rows) - rows[p].key + key {
      var after := rows[p := Row(rows[p].id, key)];
      assert after == rows[..p] + after[p..] && after[p..][1..] == rows[p + 1..];
      TotalSplits(rows[..p], after[p..]);
    }
  }

  lemma TotalUpserted(rows: seq<Row<nat, real>>, id: nat, amount: real)
    ensures TotalRows(Upsert(rows, id, amount, HIGHEST_SUM)) == TotalRows(rows) + amount
  {
    var p := IndexOf(rows, id);
    if p == |rows| {
      TotalPlaced(rows, Row(id, amount));
    } else {
      TotalRemoved(rows, p);
      TotalPlaced(Remove(rows, p), Row(id, rows[p].key + amount));
    }
  }

  lemma {:induction false} TotalOfRun(deals: seq<Deal>)
    ensures TotalRows(Run(Inserts(deals), HIGHEST_SUM)) == TotalDeals(deals)
  {
    if deals != [] {
      var past, d := deals[..|deals| - 1], deals[|deals| - 1];
      TotalOfRun(past);
      RunOneMore(past, d);
      assert deals == past + [d];
      TotalUpserted(Run(Inserts(past), HIGHEST_SUM), d.userId, d.amount);
    }
  }

  /** Money is neither made nor lost: the table always sums to the accepted deals. */
  lemma {:induction false} SumConserved(start: TimePoint, duration: nat, events: seq<Event>)
    ensures TotalRows(After(start, duration, events).rows) == TotalDeals(Accepted(start, duration, events))
  {
    TableAfter(start, duration, events);
    TotalOfRun(Accepted(start, duration, events));
  }

  // ---------- Catching up ----------

  /** Rolling over until the window ends after now. */
  function CaughtUp(w: Week, now: TimePoint, duration: nat): (r: Week)
    requires duration > 0 && w.end == w.start + duration * NANOS
    ensures now < r.end == r.start + duration * NANOS
    ensures w.start <= now ==> r.start <= now
    ensures now < w.end ==> r == w
    ensures w.end <= now ==> r.rows == [] && w.end <= r.start
    ensures duration == SECONDS_IN_WEEK && MidnightOf(w.start, Monday) ==> MidnightOf(r.start, Monday)
    decreases now - w.end
  {
    if now < w.end then w
    else
      NextWindowAligned(w.start, duration);
      CaughtUp(Step(w, RolledOver, duration), now, duration)
  }

  lemma NextWindowAligned(start: TimePoint, duration: nat)
    ensures duration == SECONDS_IN_WEEK && MidnightOf(start, Monday) ==> MidnightOf(start + duration * NANOS, Monday)
  {
    if duration == SECONDS_IN_WEEK && MidnightOf(start, Monday) {
      NextMidnight(start, Monday);
    }
  }

  /** Every window of every run is one week long and starts on a Monday midnight. */
  lemma {:induction false} EveryWindowIsAWeek(begun: TimePoint, events: seq<Event>)
    requires 0 <= begun
    ensures var w := After(GetPreviousWeekDay(begun, Monday), SECONDS_IN_WEEK, events);
            MidnightOf(w.start, Monday) && w.end == w.start + WEEK
  {
    if events == [] {
      PreviousWeekDay(begun, Monday);
    } else {
      EveryWindowIsAWeek(begun, events[..|events| - 1]);
      NextWindowAligned(After(GetPreviousWeekDay(begun, Monday), SECONDS_IN_WEEK,
                        events[..|events| - 1]).start, SECONDS_IN_WEEK);
    }
  }

  /** Whenever the watcher runs, it ends in the week that a fresh start would open, exactly if the
      clock has not gone back before the window's start. */
  lemma {:induction false} CaughtUpIsThisWeek(begun: TimePoint, events: seq<Event>, now: TimePoint)
    requires 0 <= begun && 0 <= now
    ensures var w := After(GetPreviousWeekDay(begun, Monday), SECONDS_IN_WEEK, events);
            w.end == w.start + SECONDS_IN_WEEK * NANOS
    ensures var w := After(GetPreviousWeekDay(begun, Monday), SECONDS_IN_WEEK, events);
            var r := CaughtUp(w, now, SECONDS_IN_WEEK);
            && (r.start == GetPreviousWeekDay(now, Monday) <==> w.start <= now)
            && (w.start <= now ==> r.start <= now < r.end)
  {
    EveryWindowIsAWeek(begun, events);
    PreviousWeekDay(now, Monday);
  }

  /** The failing inputs: started at the Monday midnight of day k, 5 January 1970 or any later one, and
      set back to before it, the provider keeps a window that has not begun. */
  lemma SetBackMissesWeek(k: nat, now: TimePoint)
    requires (k + 4) % 7 == 1 && 0 <= now < k * DAY
    ensures var w := After(GetPreviousWeekDay(k * DAY, Monday), SECONDS_IN_WEEK, []);
            && w.end == w.start + SECONDS_IN_WEEK * NANOS
            && CaughtUp(w, now, SECONDS_IN_WEEK).start != GetPreviousWeekDay(now, Monday)
  {
    PreviousOfMidnight(k, Monday);
    CaughtUpIsThisWeek(k * DAY, [], now);
  }

  function Latest(begun: TimePoint, clock: seq<TimePoint>): TimePoint {
    if clock == [] then begun else clock[|clock| - 1]
  }

  /** A run of the provider against a clock that does not go back: the watcher's timed wait ends no
      earlier than the window does. */
  predicate Punctual(begun: TimePoint, events: seq<Event>, clock: seq<TimePoint>) {
    |clock| == |events| &&
    (events == [] ||
     var past, now := events[..|events| - 1], clock[|clock| - 1];
     && Punctual(begun, past, clock[..|clock| - 1])
     && Latest(begun, clock[..|clock| - 1]) <= now
     && (events[|events| - 1].RolledOver? ==>
           After(GetPreviousWeekDay(begun, Monday), SECONDS_IN_WEEK, past).end <= now))
  }

  /** In such a run the window has always begun, so the watcher always reaches the current week. */
  lemma {:induction false} PunctualStartIsPast(begun: TimePoint, events: seq<Event>, clock: seq<TimePoint>)
    requires 0 <= begun && Punctual(begun, events, clock)
    ensures After(GetPreviousWeekDay(begun, Monday), SECONDS_IN_WEEK, events).start <= Latest(begun, clock)
    ensures begun <= Latest(begun, clock)
  {
    if events == [] {
      PreviousWeekDay(begun, Monday);
    } else {
      PunctualStartIsPast(begun, events[..|events| - 1], clock[..|clock| - 1]);
    }
  }

  lemma {:induction false} PunctualReachesThisWeek(begun: TimePoint, events: seq<Event>, clock: seq<TimePoint>,
                                                   now: TimePoint)
    requires 0 <= begun && Punctual(begun, events, clock) && Latest(begun, clock) <= now
    ensures var w := After(GetPreviousWeekDay(begun, Monday), SECONDS_IN_WEEK, events);
            && w.end == w.start + SECONDS_IN_WEEK * NANOS
            && CaughtUp(w, now, SECONDS_IN_WEEK).start == GetPreviousWeekDay(now, Monday)
  {
    PunctualStartIsPast(begun, events, clock);
    CaughtUpIsThisWeek(begun, events, now);
  }
}

/** The same provider with addDeal's check and insertion, and the rollover's clear and move, as
    steps of their own. */
module RatingInterleaved {
  import opened Order
  import opened Ranking
  import opened TimeHelper
  import opened RatingWeek

  datatype State = State(
    start: TimePoint,
    end: TimePoint,
    inFlight: seq<Deal>,          // passed the check, not yet inserted
    counted: seq<Deal>,           // inserted since the last clear
    rows: seq<Row<nat, real>>)

  datatype FineEvent = Check(deal: Deal) | Insertion(i: nat) | Clearing | Advance

  function Begin(start: TimePoint, duration: nat): State {
    State(start, start + duration * NANOS, [], [], [])
  }

  function Move(s: State, e: FineEvent, duration: nat): State {
    match e
    case Check(d) => if InWindow(d, s.start, s.end) then s.(inFlight := s.inFlight + [d]) else s
    case Insertion(i) =>
      if i < |s.inFlight| then
        var d := s.inFlight[i];
        s.(inFlight := s.inFlight[..i] + s.inFlight[i + 1..], counted := s.counted + [d],
           rows := Upsert(s.rows, d.userId, d.amount, HIGHEST_SUM))
      else s
    case Clearing => s.(counted := [], rows := [])
    case Advance => s.(start := s.end, end := s.end + duration * NANOS)
  }

  function Reached(start: TimePoint, duration: nat, events: seq<FineEvent>): State {
    if events == [] then Begin(start, duration)
    else Move(Reached(start, duration, events[..|events| - 1]), events[|events| - 1], duration)
  }

  /** A deal checked and at once inserted, and a clear at once followed by a move, are the two atomic
      steps of the provider. */
  lemma AtomicIsFine(s: State, d: Deal, duration: nat)
    requires s.inFlight == []
    ensures var w := Week(s.start, s.end, s.rows);
            var added := Move(Move(s, Check(d), duration), Insertion(0), duration);
            var rolled := Move(Move(s, Clearing, duration), Advance, duration);
            && added.inFlight == [] && Week(added.start, added.end, added.rows) == Step(w, DealAdded(d), duration)
            && added.counted == Kept(w, s.counted, DealAdded(d))
            && rolled.inFlight == [] && Week(rolled.start, rolled.end, rolled.rows) == Step(w, RolledOver, duration)
            && rolled.counted == []
  {
    assert [d][..0] + [d][1..] == [];
  }

  lemma {:induction false} RowsAreRun(start: TimePoint, duration: nat, events: seq<FineEvent>)
    ensures var s := Reached(start, duration, events); s.rows == Run(Inserts(s.counted), HIGHEST_SUM)
  {
    if events != [] {
      var s, e := Reached(start, duration, events[..|events| - 1]), events[|events| - 1];
      RowsAreRun(start, duration, events[..|events| - 1]);
      if e.Insertion? && e.i < |s.inFlight| {
        RunOneMore(s.counted, s.inFlight[e.i]);
      }
    }
  }

  /** However the steps interleave, the table is the ranking of the in-order sums of the deals
      inserted since the last clear, and sums to them. */
  lemma {:induction false} TableInEveryInterleaving(start: TimePoint, duration: nat, events: seq<FineEvent>)
    ensures var s := Reached(start, duration, events);
            && BestFirst(s.rows, s.counted) && DistinctIds(s.rows)
            && (forall i :: 0 <= i < |s.rows| ==> AmountOf(s.counted, s.rows[i].id) == Some(s.rows[i].key))
            && (forall user :: HasId(s.rows, user) <==> AmountOf(s.counted, user).Some?)
            && TotalRows(s.rows) == TotalDeals(s.counted)
  {
    var counted := Reached(start, duration, events).counted;
    RowsAreRun(start, duration, events);
    RunAmounts(counted);
    TotalOfRun(counted);
  }

  ghost predicate AllInWindow(s: State) {
    forall d :: d in s.counted || d in s.inFlight ==> InWindow(d, s.start, s.end)
  }

  /** In this state and every one before it. */
  ghost predicate AlwaysInWindow(start: TimePoint, duration: nat, events: seq<FineEvent>) {
    && AllInWindow(Reached(start, duration, events))
    && (events == [] || AlwaysInWindow(start, duration, events[..|events| - 1]))
  }

  /** No deal is between its check and its insertion, nor between insertion and clear, when the
      window moves. */
  ghost predicate CleanMoves(start: TimePoint, duration: nat, events: seq<FineEvent>) {
    events == [] ||
    var past := events[..|events| - 1];
    && CleanMoves(start, duration, past)
    && (events[|events| - 1].Advance? ==>
          Reached(start, duration, past).counted == [] && Reached(start, duration, past).inFlight == [])
  }

  /** The deals counted or about to be are inside the open window all along exactly if no move of the
      window catches one on its way. */
  lemma {:induction false} InWindowIffClean(start: TimePoint, duration: nat, events: seq<FineEvent>)
    ensures AlwaysInWindow(start, duration, events) <==> CleanMoves(start, duration, events)
  {
    if events != [] {
      var past := events[..|events| - 1];
      InWindowIffClean(start, duration, past);
      if AlwaysInWindow(start, duration, past) {
        StaysInWindowIff(Reached(start, duration, past), events[|events| - 1], duration);
      }
    }
  }

  lemma StaysInWindowIff(s: State, e: FineEvent, duration: nat)
    requires AllInWindow(s)
    ensures AllInWindow(Move(s, e, duration)) <==> (e.Advance? ==> s.counted == [] && s.inFlight == [])
  {
    match e
    case Check(d) =>
    case Insertion(i) =>
      if i < |s.inFlight| {
        assert s.inFlight[i] in s.inFlight;
      }
    case Clearing =>
    case Advance =>
      if s.counted != [] {
        assert s.counted[0] in s.counted;
      } else if s.inFlight != [] {
        assert s.inFlight[0] in s.inFlight;
      }
  }

  /** A deal of the old week that ends up in the new week's table. */
  lemma LateDealSlipsIn(start: TimePoint, duration: nat, d: Deal)
    requires InWindow(d, start, start + duration * NANOS)
    ensures var s := Reached(start, duration, [Check(d), Clearing, Advance, Insertion(0)]);
            s.start == start + duration * NANOS && s.counted == [d] && !InWindow(d, s.start, s.end)
  {
    var events := [Check(d), Clearing, Advance, Insertion(0)];
    assert events[..3] == [Check(d), Clearing, Advance];
    assert events[..3][..2] == [Check(d), Clearing] && events[..3][..2][..1] == [Check(d)];
    assert Reached(start, duration, [Check(d)]) == Begin(start, duration).(inFlight := [d]);
    assert Reached(start, duration, [Check(d), Clearing]).inFlight == [d];
  }
}

/** The provider object. addDeal and a rollover are each taken as one atomic step. */
module RatingProvider {
  import opened Order
  import opened Ranking
  import opened RankedTable
  import opened TimeHelper
  import opened RatingWeek

  class UserRatingProvider {
    const periodDuration: nat
    var startTime: TimePoint
    var endTime: TimePoint
    const table: Table<nat, real>
    ghost const begun: TimePoint   // start of the first window
    ghost var events: seq<Event>   // everything that happened since

    ghost predicate Valid()
      reads this, table, table.sortData
    {
      && table.Valid() && table.rules == HIGHEST_SUM
      && periodDuration > 0 && endTime == startTime + periodDuration * NANOS
      && View() == After(begun, periodDuration, events)
    }

    ghost function View(): Week
      reads this, table, table.sortData
    {
      Week(startTime, endTime, table.Rows())
    }

    constructor (startPeriodDay: WeekDay, periodDuration: nat, now: TimePoint)
      requires periodDuration > 0
      ensures Valid() && fresh(table) && this.periodDuration == periodDuration
      ensures begun == GetPreviousWeekDay(now, startPeriodDay) && events == []
    {
      HighestSumOrders();
      this.periodDuration := periodDuration;
      table := new Table<nat, real>(HIGHEST_SUM);
      begun, events := GetPreviousWeekDay(now, startPeriodDay), [];
      startTime := GetPreviousWeekDay(now, startPeriodDay);
      endTime := GetPreviousWeekDay(now, startPeriodDay) + periodDuration * NANOS;
    }

    method UpdatePeriod(start: TimePoint)
      modifies this`startTime, this`endTime
      ensures startTime == start && endTime == start + periodDuration * NANOS
    {
      startTime := start;
      endTime := start + periodDuration * NANOS;
    }

    method AddDeal(deal: Deal)
      requires Valid()
      modifies this`events, table, table.sortData
      ensures Valid() && events == old(events) + [DealAdded(deal)]
      ensures forall n :: n in table.sortData ==> n in old(table.sortData) || fresh(n)
    {
      ghost var week := View();
      AfterStep(begun, periodDuration, events, DealAdded(deal));
      events := events + [DealAdded(deal)];
      if deal.timestamp < Unsigned(ToTimeT(startTime)) {
        // Ignored: before the window.
      } else if deal.timestamp >= Unsigned(ToTimeT(endTime)) {
        // Ignored: after the window.
      } else {
        assert Step(week, DealAdded(deal), periodDuration)
            == week.(rows := Upsert(week.rows, deal.userId, deal.amount, HIGHEST_SUM));
        table.Insert(deal.userId, deal.amount);
        assert View() == week.(rows := table.Rows());
      }
    }

    method RollOver()
      requires Valid()
      modifies this`startTime, this`endTime, this`events, table
      ensures Valid() && events == old(events) + [RolledOver]
      ensures View() == Step(old(View()), RolledOver, periodDuration)
    {
      ghost var week := View();
      AfterStep(begun, periodDuration, events, RolledOver);
      events := events + [RolledOver];
      table.Clear();
      UpdatePeriod(endTime);
      assert View() == Opened(week.end, periodDuration);
    }

    /** The watcher's loop seen at time now: it wakes whenever the window has ended. */
    method Watch(now: TimePoint)
      requires Valid()
      modifies this`startTime, this`endTime, this`events, table
      ensures Valid() && View() == CaughtUp(old(View()), now, periodDuration)
      ensures now < endTime && (old(startTime) <= now ==> startTime <= now)
    {
      while now >= endTime
        invariant Valid()
        invariant CaughtUp(View(), now, periodDuration) == CaughtUp(old(View()), now, periodDuration)
        decreases now - endTime
      {
        RollOver();
      }
    }

    /** Whatever calls were made, the object's rows are the ranked in-order sums of exactly the deals
        accepted since its last rollover, and sum to them. */
    lemma RowsAreAcceptedDeals()
      requires Valid()
      ensures var deals := Accepted(begun, periodDuration, events);
              && BestFirst(table.Rows(), deals) && DistinctIds(table.Rows())
              && (forall row :: row in table.Rows() ==> AmountOf(deals, row.id) == Some(row.key))
              && (forall user :: HasId(table.Rows(), user) <==> AmountOf(deals, user).Some?)
              && TotalRows(table.Rows()) == TotalDeals(deals)
    {
      AmountsAreFolds(begun, periodDuration, events);
      SumConserved(begun, periodDuration, events);
    }
  }
}
