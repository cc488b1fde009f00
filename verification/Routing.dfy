/** Which stream a user's messages go to: the maps of grpcapi/src/GrpcTransportServer.cpp. */
module GrpcRouting {
  import opened Order

  /** A registered stream; the serial number tells apart two registrations of one address. */
  datatype Handle = Handle(stream: nat, serial: nat)

  datatype State = State(
    streamHandles: map<nat, Handle>,
    userToHandle: map<nat, Handle>,
    sessions: map<nat, set<nat>>,  // sessionUsers of every running Connect call
    made: nat)

  datatype Event = Open(stream: nat) | Read(stream: nat, user: nat) | Close(stream: nat)

  const INITIAL := State(map[], map[], map[], 0)

  predicate Enabled(s: State, e: Event) {
    match e
    case Open(stream) => stream !in s.sessions
    case Read(stream, _) => stream in s.sessions
    case Close(stream) => stream in s.sessions
  }

  function Step(s: State, e: Event): State
    requires Enabled(s, e)
  {
    match e
    case Open(stream) => s.(sessions := s.sessions[stream := {}])
    case Read(stream, user) =>
      var handle := if stream in s.streamHandles then s.streamHandles[stream] else Handle(stream, s.made);
      State(s.streamHandles[stream := handle], s.userToHandle[user := handle],
            s.sessions[stream := s.sessions[stream] + {user}], if stream in s.streamHandles then s.made else s.made + 1)
    case Close(stream) =>
      s.(userToHandle := s.userToHandle - s.sessions[stream], streamHandles := s.streamHandles - {stream},
         sessions := s.sessions - {stream})
  }

  function After(events: seq<Event>): State {
    if events == [] then INITIAL
    else
      var s, e := After(events[..|events| - 1]), events[|events| - 1];
      if Enabled(s, e) then Step(s, e) else s
  }

  /** Every route leads to a stream that is still registered and whose session named that user. */
  ghost predicate Sound(s: State) {
    && (forall stream :: stream in s.streamHandles ==> stream in s.sessions && s.streamHandles[stream].stream == stream)
    && (forall user :: user in s.userToHandle ==>
          var stream := s.userToHandle[user].stream;
          && stream in s.streamHandles && s.streamHandles[stream] == s.userToHandle[user]
          && user in s.sessions[stream])
  }

  lemma SoundStep(s: State, e: Event)
    requires Sound(s) && Enabled(s, e)
    ensures Sound(Step(s, e))
  {
  }

  lemma {:induction false} RoutesSound(events: seq<Event>)
    ensures Sound(After(events))
  {
    if events != [] {
      var s, e := After(events[..|events| - 1]), events[|events| - 1];
      RoutesSound(events[..|events| - 1]);
      if Enabled(s, e) {
        SoundStep(s, e);
      }
    }
  }

  /** So no route survives the clean-up of its own stream. */
  lemma NoneAfterClose(events: seq<Event>, stream: nat, user: nat)
    requires Enabled(After(events), Close(stream))
    ensures var s := Step(After(events), Close(stream));
            user in s.userToHandle ==> s.userToHandle[user].stream != stream
  {
    RoutesSound(events);
  }

  // ---------- The history alone ----------

  function IsOpen(events: seq<Event>, stream: nat): bool {
    if events == [] then false
    else
      match events[|events| - 1]
      case Open(t) => t == stream || IsOpen(events[..|events| - 1], stream)
      case Close(t) => t != stream && IsOpen(events[..|events| - 1], stream)
      case Read(_, _) => IsOpen(events[..|events| - 1], stream)
  }

  /** The user was named on the stream since it opened. */
  function Named(events: seq<Event>, stream: nat, user: nat): bool {
    if events == [] then false
    else
      var past := events[..|events| - 1];
      match events[|events| - 1]
      case Open(t) => Named(past, stream, user)
      case Close(t) => t != stream && Named(past, stream, user)
      case Read(t, u) => (t == stream && u == user && IsOpen(past, stream)) || Named(past, stream, user)
  }

  /** The stream that last named the user, unless afterwards any stream that had named the user,
      that one or an older one, was closed. */
  function RouteOf(events: seq<Event>, user: nat): Option<nat> {
    if events == [] then None
    else
      var past := events[..|events| - 1];
      match events[|events| - 1]
      case Open(_) => RouteOf(past, user)
      case Close(t) => if Named(past, t, user) then None else RouteOf(past, user)
      case Read(t, u) => if u == user && IsOpen(past, t) then Some(t) else RouteOf(past, user)
  }

  lemma {:induction false} SessionsAre(events: seq<Event>)
    ensures forall t :: t in After(events).sessions <==> IsOpen(events, t)
    ensures forall t, u :: t in After(events).sessions && u in After(events).sessions[t] <==> Named(events, t, u)
  {
    if events != [] {
      SessionsAre(events[..|events| - 1]);
    }
  }

  /** Exactly which routes exist: a live user's route is lost precisely when an older stream of the
      same user is cleaned up after the newer one took over. */
  lemma {:induction false} RoutesAre(events: seq<Event>, user: nat)
    ensures var routes := After(events).userToHandle;
            RouteOf(events, user) == if user in routes then Some(routes[user].stream) else None
  {
    if events != [] {
      var past := events[..|events| - 1];
      RoutesAre(past, user);
      RoutesSound(past);
      SessionsAre(past);
    }
  }

  /** Said by position in the run: a stream is open since its last opening; a user is named on it since a
      read while it was open; a route is that of the last read naming the user, if no stream that had
      named the user has closed since. */
  ghost predicate OpenSince(events: seq<Event>, t: nat, i: nat) {
    i < |events| && events[i] == Open(t) && forall j :: i < j < |events| ==> events[j] != Close(t)
  }

  ghost predicate NamedSince(events: seq<Event>, t: nat, u: nat, i: nat) {
    i < |events| && events[i] == Read(t, u) && IsOpen(events[..i], t)
    && forall j :: i < j < |events| ==> events[j] != Close(t)
  }

  ghost predicate RoutedSince(events: seq<Event>, u: nat, t: nat, i: nat) {
    && i < |events| && events[i] == Read(t, u) && IsOpen(events[..i], t)
    && (forall j :: i < j < |events| && events[j].Read? && events[j].user == u
          ==> !IsOpen(events[..j], events[j].stream))
    && (forall j :: i < j < |events| && events[j].Close? ==> !Named(events[..j], events[j].stream, u))
  }

  lemma {:induction false} OpenIff(events: seq<Event>, t: nat)
    ensures IsOpen(events, t) <==> exists i :: OpenSince(events, t, i)
  {
    if events != [] {
      var past, n := events[..|events| - 1], |events| - 1;
      OpenIff(past, t);
      if events[n] == Open(t) {
        assert OpenSince(events, t, n);
      }
      forall i | 0 <= i < n ensures OpenSince(events, t, i) <==> OpenSince(past, t, i) && events[n] != Close(t) {
        assert forall j :: 0 <= j < n ==> past[j] == events[j];
      }
      if i :| OpenSince(past, t, i) && events[n] != Close(t) {
        assert OpenSince(events, t, i);
      }
    }
  }

  lemma {:induction false} NamedIff(events: seq<Event>, t: nat, u: nat)
    ensures Named(events, t, u) <==> exists i :: NamedSince(events, t, u, i)
  {
    if events != [] {
      var past, n := events[..|events| - 1], |events| - 1;
      NamedIff(past, t, u);
      if events[n] == Read(t, u) && IsOpen(past, t) {
        assert NamedSince(events, t, u, n);
      }
      forall i | 0 <= i < n ensures NamedSince(events, t, u, i)
        <==> NamedSince(past, t, u, i) && events[n] != Close(t) {
        assert past[..i] == events[..i];
        assert forall j :: 0 <= j < n ==> past[j] == events[j];
      }
      if i :| NamedSince(past, t, u, i) && events[n] != Close(t) {
        assert NamedSince(events, t, u, i);
      }
    }
  }

  lemma {:induction false} RouteIff(events: seq<Event>, u: nat, t: nat)
    ensures RouteOf(events, u) == Some(t) <==> exists i :: RoutedSince(events, u, t, i)
  {
    if events != [] {
      var past, n, e := events[..|events| - 1], |events| - 1, events[|events| - 1];
      RouteIff(past, u, t);
      if e == Read(t, u) && IsOpen(past, t) {
        assert RoutedSince(events, u, t, n);
      }
      var kept := match e
        case Open(_) => true
        case Close(d) => !Named(past, d, u)
        case Read(d, v) => !(v == u && IsOpen(past, d));
      forall i | 0 <= i < n ensures RoutedSince(events, u, t, i) <==> RoutedSince(past, u, t, i) && kept {
        RoutedOneMore(events, u, t, i);
      }
      if i :| RoutedSince(past, u, t, i) && kept {
        assert RoutedSince(events, u, t, i);
      }
    }
  }

  lemma RoutedOneMore(events: seq<Event>, u: nat, t: nat, i: nat)
    requires i + 1 < |events|
    ensures var past, e := events[..|events| - 1], events[|events| - 1];
            var kept := match e
              case Open(_) => true
              case Close(d) => !Named(past, d, u)
              case Read(d, v) => !(v == u && IsOpen(past, d));
            RoutedSince(events, u, t, i) <==> RoutedSince(past, u, t, i) && kept
  {
    var past := events[..|events| - 1];
    assert forall j :: 0 <= j < |past| ==> past[j] == events[j] && past[..j] == events[..j];
  }

  /** Such a run: user 7 moves from stream 1 to stream 2, then stream 1 ends. */
  lemma NewerRouteLost()
    ensures var events := [Open(1), Read(1, 7), Open(2), Read(2, 7), Close(1)];
            IsOpen(events, 2) && Named(events, 2, 7) && 7 !in After(events).userToHandle
  {
    var events := [Open(1), Read(1, 7), Open(2), Read(2, 7), Close(1)];
    RoutesAre(events, 7);
    assert events[..4] == [Open(1), Read(1, 7), Open(2), Read(2, 7)]
        && events[..4][..3] == [Open(1), Read(1, 7), Open(2)];
    assert events[..4][..3][..2] == [Open(1), Read(1, 7)] && events[..4][..3][..2][..1] == [Open(1)];
    assert IsOpen([Open(1)], 1);
    assert Named([Open(1), Read(1, 7)], 1, 7);
    assert Named([Open(1), Read(1, 7), Open(2)], 1, 7) && IsOpen([Open(1), Read(1, 7), Open(2)], 2);
    assert Named(events[..4], 1, 7) && Named(events[..4], 2, 7) && IsOpen(events[..4], 2);
  }

  lemma AfterStep(events: seq<Event>, e: Event)
    requires Enabled(After(events), e)
    ensures After(events + [e]) == Step(After(events), e)
  {
    assert (events + [e])[..|events + [e]| - 1] == events;
  }

  class Server {
    var streamHandles: map<nat, Handle>
    var userToHandle: map<nat, Handle>
    var sessions: map<nat, set<nat>>
    var made: nat
    ghost var events: seq<Event>  // everything that happened so far

    function View(): State
      reads this
    {
      State(streamHandles, userToHandle, sessions, made)
    }

    ghost predicate Valid()
      reads this
    {
      View() == After(events)
    }

    constructor ()
      ensures Valid() && events == []
    {
      streamHandles, userToHandle, sessions, made, events := map[], map[], map[], 0, [];
    }

    method Connect(stream: nat)
      requires Valid() && stream !in sessions
      modifies this
      ensures Valid() && events == old(events) + [Open(stream)]
    {
      AfterStep(events, Open(stream));
      events := events + [Open(stream)];
      sessions := sessions[stream := {}];
    }

    /** One turn of Connect's read loop, up to the release of the lock. */
    method ReadEvent(stream: nat, userId: nat)
      requires Valid() && stream in sessions
      modifies this
      ensures Valid() && events == old(events) + [Read(stream, userId)]
    {
      AfterStep(events, Read(stream, userId));
      events := events + [Read(stream, userId)];
      if stream !in streamHandles {
        streamHandles := streamHandles[stream := Handle(stream, made)];
        made := made + 1;
      }
      userToHandle := userToHandle[userId := streamHandles[stream]];
      sessions := sessions[stream := sessions[stream] + {userId}];
      assert streamHandles == old(streamHandles)[stream := streamHandles[stream]];
    }

    /** The clean-up after the last read. */
    method CleanUp(stream: nat)
      requires Valid() && stream in sessions
      modifies this
      ensures Valid() && events == old(events) + [Close(stream)]
    {
      AfterStep(events, Close(stream));
      events := events + [Close(stream)];
      var left := sessions[stream];
      while left != {}
        invariant left <= old(sessions)[stream] && events == old(events) + [Close(stream)]
        invariant userToHandle == old(userToHandle) - (old(sessions)[stream] - left)
        invariant streamHandles == old(streamHandles) && sessions == old(sessions) && made == old(made)
        decreases left
      {
        var uid :| uid in left;
        userToHandle := userToHandle - {uid};
        left := left - {uid};
      }
      streamHandles := streamHandles - {stream};
      sessions := sessions - {stream};
    }

    /** sendToUser's look-up under the lock: a handle found is a registered stream's, of a session
        that named the user, and the one that the events alone say. */
    method LookUp(userId: nat) returns (handle: Option<Handle>)
      requires Valid()
      ensures RouteOf(events, userId) == if handle.Some? then Some(handle.value.stream) else None
      ensures handle.Some? ==>
                var stream := handle.value.stream;
                && stream in streamHandles && streamHandles[stream] == handle.value
                && IsOpen(events, stream) && Named(events, stream, userId)
    {
      RoutesAre(events, userId);
      RoutesSound(events);
      SessionsAre(events);
      handle := if userId in userToHandle then Some(userToHandle[userId]) else None;
    }
  }
}

/** Which connection a user's messages go to: the maps of webapi/src/transport/WsTransportServer.cpp. */
module WsRouting {
  import opened Order

  datatype State = State(userToConnection: map<nat, nat>, connectionToUser: map<nat, nat>)

  datatype Event = Connected(user: nat, conn: nat) | Disconnected(user: nat, conn: nat)
    | OtherMessage(conn: nat) | Closed(conn: nat)

  const INITIAL := State(map[], map[])

  function Step(s: State, e: Event): State {
    match e
    case Connected(u, c) => State(s.userToConnection[u := c], s.connectionToUser[c := u])
    case Disconnected(u, c) => State(s.userToConnection - {u}, s.connectionToUser - {c})
    case OtherMessage(_) => s
    case Closed(c) =>
      if c in s.connectionToUser
      then State(s.userToConnection - {s.connectionToUser[c]}, s.connectionToUser - {c}) else s
  }

  function After(events: seq<Event>): State {
    if events == [] then INITIAL else Step(After(events[..|events| - 1]), events[|events| - 1])
  }

  /** The last connect of u was on c, and no disconnect of u came after it. */
  ghost predicate LastConnect(events: seq<Event>, u: nat, c: nat) {
    exists i :: 0 <= i < |events| && events[i] == Connected(u, c) && Untouched(events, i, u)
  }

  predicate Untouched(events: seq<Event>, i: nat, u: nat) {
    forall j :: i < j < |events| ==> !((events[j].Connected? || events[j].Disconnected?) && events[j].user == u)
  }

  /** Every route is the connection of the user's last connect with no later disconnect. */
  lemma {:induction false} RoutesSound(events: seq<Event>, u: nat)
    ensures u in After(events).userToConnection ==> LastConnect(events, u, After(events).userToConnection[u])
  {
    if events != [] && u in After(events).userToConnection {
      var past, n := events[..|events| - 1], |events| - 1;
      RoutesSound(past, u);
      var c := After(events).userToConnection[u];
      if events[n] == Connected(u, c) {
        assert Untouched(events, n, u);
      } else {
        var i :| 0 <= i < |past| && past[i] == Connected(u, c) && Untouched(past, i, u);
        assert events[i] == Connected(u, c);
        assert forall j :: i < j < n ==> events[j] == past[j];
        assert Untouched(events, i, u);
      }
    }
  }

  /** The user a connection is booked under: its last connect, until a disconnect on it or its close. */
  function OwnerOf(events: seq<Event>, c: nat): Option<nat> {
    if events == [] then None
    else
      var past := OwnerOf(events[..|events| - 1], c);
      match events[|events| - 1]
      case Connected(u, d) => if c == d then Some(u) else past
      case Disconnected(_, d) => if c == d then None else past
      case OtherMessage(_) => past
      case Closed(d) => if c == d then None else past
  }

  /** The last connect's connection, unless the user disconnected or any connection booked under
      the user was closed since. */
  function RouteOf(events: seq<Event>, u: nat): Option<nat> {
    if events == [] then None
    else
      var past := RouteOf(events[..|events| - 1], u);
      match events[|events| - 1]
      case Connected(v, d) => if u == v then Some(d) else past
      case Disconnected(v, _) => if u == v then None else past
      case OtherMessage(_) => past
      case Closed(d) => if OwnerOf(events[..|events| - 1], d) == Some(u) then None else past
  }

  /** Said by position in the run: a connection is booked under the user of its last connect, if since
      then there was no disconnect on it and it was not closed; a user is routed to the connection of
      the last connect, if since then the user did not disconnect and no connection booked under the
      user was closed. */
  ghost predicate BookedSince(events: seq<Event>, c: nat, u: nat, i: nat) {
    i < |events| && events[i] == Connected(u, c) && forall j :: i < j < |events| ==> !Touches(events[j], c)
  }

  predicate Touches(e: Event, c: nat) { !e.OtherMessage? && e.conn == c }

  ghost predicate RoutedSince(events: seq<Event>, u: nat, c: nat, i: nat) {
    && i < |events| && events[i] == Connected(u, c) && Untouched(events, i, u)
    && forall j :: i < j < |events| && events[j].Closed? ==> OwnerOf(events[..j], events[j].conn) != Some(u)
  }

  lemma {:induction false} OwnerIff(events: seq<Event>, c: nat, u: nat)
    ensures OwnerOf(events, c) == Some(u) <==> exists i :: BookedSince(events, c, u, i)
  {
    if events != [] {
      var past, n := events[..|events| - 1], |events| - 1;
      OwnerIff(past, c, u);
      if events[n] == Connected(u, c) {
        assert BookedSince(events, c, u, n);
      }
      forall i | 0 <= i < n ensures BookedSince(events, c, u, i)
        <==> BookedSince(past, c, u, i) && !Touches(events[n], c) {
        assert forall j :: 0 <= j < n ==> past[j] == events[j];
      }
      if i :| BookedSince(past, c, u, i) && !Touches(events[n], c) {
        assert BookedSince(events, c, u, i);
      }
    }
  }

  lemma {:induction false} RouteIff(events: seq<Event>, u: nat, c: nat)
    ensures RouteOf(events, u) == Some(c) <==> exists i :: RoutedSince(events, u, c, i)
  {
    if events != [] {
      var past, n, e := events[..|events| - 1], |events| - 1, events[|events| - 1];
      RouteIff(past, u, c);
      if e == Connected(u, c) {
        assert RoutedSince(events, u, c, n);
      }
      var kept := RouteKept(past, e, u);
      forall i | 0 <= i < n ensures RoutedSince(events, u, c, i) <==> RoutedSince(past, u, c, i) && kept {
        RoutedOneMore(events, u, c, i);
      }
      if i :| RoutedSince(past, u, c, i) && kept {
        assert RoutedSince(events, u, c, i);
      }
    }
  }

  predicate RouteKept(past: seq<Event>, e: Event, u: nat) {
    match e
    case Connected(v, _) => v != u
    case Disconnected(v, _) => v != u
    case OtherMessage(_) => true
    case Closed(d) => OwnerOf(past, d) != Some(u)
  }

  lemma RoutedOneMore(events: seq<Event>, u: nat, c: nat, i: nat)
    requires i + 1 < |events|
    ensures var past, e := events[..|events| - 1], events[|events| - 1];
            RoutedSince(events, u, c, i) <==> RoutedSince(past, u, c, i) && RouteKept(past, e, u)
  {
    var past := events[..|events| - 1];
    assert forall j :: 0 <= j < |past| ==> past[j] == events[j] && past[..j] == events[..j];
  }

  /** Exactly which routes and bookings exist. */
  lemma {:induction false} RoutesAre(events: seq<Event>)
    ensures var s := After(events);
            && (forall u :: RouteOf(events, u) == if u in s.userToConnection then Some(s.userToConnection[u]) else None)
            && (forall c :: OwnerOf(events, c) == if c in s.connectionToUser then Some(s.connectionToUser[c]) else None)
  {
    if events != [] {
      RoutesAre(events[..|events| - 1]);
    }
  }

  lemma AfterStep(events: seq<Event>, e: Event)
    ensures After(events + [e]) == Step(After(events), e)
  {
    assert (events + [e])[..|events + [e]| - 1] == events;
  }

  /** Closing a connection takes away its user's route to another, newer one exactly when the closed
      one is the connection of a connect with neither a disconnect nor a close on it since. */
  lemma {:induction false} CloseTakesNewerRoute(events: seq<Event>, c: nat, u: nat)
    requires u in After(events).userToConnection && After(events).userToConnection[u] != c
    ensures u !in After(events + [Closed(c)]).userToConnection <==> OwnerOf(events, c) == Some(u)
  {
    RoutesAre(events);
    AfterStep(events, Closed(c));
  }

  /** Such a run: user 7 connects again on connection 2, then connection 1 closes. */
  lemma NewerRouteLost()
    ensures After([Connected(7, 1), Connected(7, 2)]).userToConnection == map[7 := 2]
    ensures After([Connected(7, 1), Connected(7, 2), Closed(1)]).userToConnection == map[]
  {
    var events := [Connected(7, 1), Connected(7, 2), Closed(1)];
    assert events[..2] == [Connected(7, 1), Connected(7, 2)] && events[..2][..1] == [Connected(7, 1)];
    assert After([Connected(7, 1)]) == State(map[7 := 1], map[1 := 7]);
    assert After([Connected(7, 1), Connected(7, 2)]) == State(map[7 := 2], map[1 := 7, 2 := 7]);
  }

  class Server {
    var userToConnection: map<nat, nat>
    var connectionToUser: map<nat, nat>
    ghost var events: seq<Event>  // everything that happened so far

    function View(): State
      reads this
    {
      State(userToConnection, connectionToUser)
    }

    ghost predicate Valid()
      reads this
    {
      View() == After(events)
    }

    constructor ()
      ensures Valid() && events == []
    {
      userToConnection, connectionToUser, events := map[], map[], [];
    }

    /** The part of on_message that keeps the maps. */
    method OnMessage(e: Event)
      requires Valid() && !e.Closed?
      modifies this
      ensures Valid() && events == old(events) + [e]
    {
      AfterStep(events, e);
      events := events + [e];
      match e
      case Connected(userId, connection) =>
        userToConnection := userToConnection[userId := connection];
        connectionToUser := connectionToUser[connection := userId];
      case Disconnected(userId, connection) =>
        userToConnection := userToConnection - {userId};
        connectionToUser := connectionToUser - {connection};
      case OtherMessage(_) =>
    }

    method OnClose(connection: nat)
      requires Valid()
      modifies this
      ensures Valid() && events == old(events) + [Closed(connection)]
    {
      AfterStep(events, Closed(connection));
      events := events + [Closed(connection)];
      if connection in connectionToUser {
        userToConnection := userToConnection - {connectionToUser[connection]};
        connectionToUser := connectionToUser - {connection};
      }
    }

    /** sendToUser's look-up: a connection found is that of the user's last connect with no
        disconnect since, and the one that the events alone say. */
    method LookUp(userId: nat) returns (connection: Option<nat>)
      requires Valid()
      ensures connection == RouteOf(events, userId)
      ensures connection.Some? ==> LastConnect(events, userId, connection.value)
    {
      RoutesAre(events);
      RoutesSound(events, userId);
      connection := if userId in userToConnection then Some(userToConnection[userId]) else None;
    }
  }
}
