/** The server's reading side: read_message and read_message_content of server_ws.hpp, with the
    reassembly of section 5.4 of RFC 6455. */
module Reassembly {
  import opened Order
  import opened WebSocketFraming

  /** A message being put together, or complete. */
  datatype Assembly = Assembly(op: byte, length: nat, buffer: seq<byte>)

  /** What the endpoint's handlers and the connection's own send are called with. */
  datatype Output =
    | OnMessage(op: byte, length: nat, payload: seq<byte>)
    | OnPing
    | OnPong
    | SendPong(op: byte)
    | OnClose(status: int, reason: seq<byte>)
    | OnTooBig
    | OnUnmasked
    | OnStall

  datatype Conn = Conn(fragmented: Option<Assembly>, out: seq<Output>, reading: bool)

  /** A received frame, unmasked. */
  datatype Frame = Frame(op: byte, payload: seq<byte>)

  // The tests and updates of the first byte: its top bit is FIN, its low four bits the opcode.
  predicate Fin(op: byte) { op >= 128 }
  function Opcode(op: byte): int { op % 16 }
  function WithFin(op: byte): byte { if op < 128 then op + 128 else op }
  function WithoutFin(op: byte): byte { op % 128 }

  /** FIN is bit 7 of the first byte, the opcode its bits 0 to 3; setting and clearing FIN touch
      nothing else. */
  lemma FirstByteBits(op: byte, i: nat)
    requires i < 8
    ensures Fin(op) <==> Bit(op, 7)
    ensures Bit(Opcode(op), i) <==> i < 4 && Bit(op, i)
    ensures Bit(WithFin(op), i) <==> i == 7 || Bit(op, i)
    ensures Bit(WithoutFin(op), i) <==> i != 7 && Bit(op, i)
  {
    FinIsTopBit(op);
    FinIsTopBit(WithFin(op));
    Low4(op);
    BitOfLow(op, 4, i);
    Low7(op);
    BitOfLow(op, 7, i);
    if i < 7 {
      WithFinBits(op, i);
    }
  }

  lemma FinIsTopBit(op: byte)
    ensures Bit(op, 7) <==> op >= 128
  {
    PowersOfTwo();
    TopBit(op, 7);
  }

  lemma WithFinBits(op: byte, i: nat)
    requires i < 7
    ensures Bit(WithFin(op), i) <==> Bit(op, i)
  {
    if op < 128 {
      assert (op + 128) % 128 == op % 128;
      SameBelowTop(op + 128, op, i);
    }
  }

  lemma SameBelowTop(m: nat, n: nat, i: nat)
    requires i < 7 && m % 128 == n % 128
    ensures Bit(m, i) <==> Bit(n, i)
  {
    Low7(m);
    Low7(n);
    SameLowBits(m, n, i);
  }

  lemma SameLowBits(m: nat, n: nat, i: nat)
    requires i < 7 && Low(m, 7) == Low(n, 7)
    ensures Bit(m, i) <==> Bit(n, i)
  {
    BitOfLow(m, 7, i);
    BitOfLow(n, 7, i);
  }

  lemma PowersOfTwo()
    ensures Pow2(4) == 16 && Pow2(7) == 128 && Pow2(8) == 256
  {
    assert Pow2(4) == 16;
  }

  lemma {:induction false} ZeroBits(i: nat)
    ensures !Bit(0, i)
  {
    if i > 0 {
      ZeroBits(i - 1);
    }
  }

  /** The low k bits of n, taken one by one. */
  function Low(n: nat, k: nat): nat {
    if k == 0 then 0 else 2 * Low(n / 2, k - 1) + n % 2
  }

  lemma {:induction false} BitOfLow(n: nat, k: nat, i: nat)
    ensures Bit(Low(n, k), i) <==> i < k && Bit(n, i)
    decreases k
  {
    if k == 0 {
      ZeroBits(i);
    } else {
      Halved(Low(n / 2, k - 1), n % 2);
      if i > 0 {
        BitOfLow(n / 2, k - 1, i - 1);
      }
    }
  }

  lemma Low1(n: nat)
    ensures Low(n, 1) == n % 2
  {
    assert Low(n / 2, 0) == 0;
  }

  lemma Low2(n: nat)
    ensures Low(n, 2) == n % 4
  {
    Low1(n / 2);
    RemainderOfHalf4(n);
  }

  lemma RemainderOfHalf4(n: nat)
    ensures n % 4 == 2 * (n / 2 % 2) + n % 2
  {
    var q, r := n / 4, n % 4;
    assert n / 2 == 2 * q + r / 2;
  }

  lemma Low3(n: nat)
    ensures Low(n, 3) == n % 8
  {
    Low2(n / 2);
    RemainderOfHalf8(n);
  }

  lemma RemainderOfHalf8(n: nat)
    ensures n % 8 == 2 * (n / 2 % 4) + n % 2
  {
    var q, r := n / 8, n % 8;
    assert n / 2 == 4 * q + r / 2;
  }

  lemma Low4(n: nat)
    ensures Low(n, 4) == n % 16
  {
    Low3(n / 2);
    RemainderOfHalf16(n);
  }

  lemma RemainderOfHalf16(n: nat)
    ensures n % 16 == 2 * (n / 2 % 8) + n % 2
  {
    var q, r := n / 16, n % 16;
    assert n / 2 == 8 * q + r / 2;
  }

  lemma Low5(n: nat)
    ensures Low(n, 5) == n % 32
  {
    Low4(n / 2);
    RemainderOfHalf32(n);
  }

  lemma RemainderOfHalf32(n: nat)
    ensures n % 32 == 2 * (n / 2 % 16) + n % 2
  {
    var q, r := n / 32, n % 32;
    assert n / 2 == 16 * q + r / 2;
  }

  lemma Low6(n: nat)
    ensures Low(n, 6) == n % 64
  {
    Low5(n / 2);
    RemainderOfHalf64(n);
  }

  lemma RemainderOfHalf64(n: nat)
    ensures n % 64 == 2 * (n / 2 % 32) + n % 2
  {
    var q, r := n / 64, n % 64;
    assert n / 2 == 32 * q + r / 2;
  }

  lemma Low7(n: nat)
    ensures Low(n, 7) == n % 128
  {
    Low6(n / 2);
    RemainderOfHalf128(n);
  }

  lemma RemainderOfHalf128(n: nat)
    ensures n % 128 == 2 * (n / 2 % 64) + n % 2
  {
    var q, r := n / 128, n % 128;
    assert n / 2 == 64 * q + r / 2;
  }

  lemma {:induction false} TopBit(n: nat, k: nat)
    requires n < Pow2(k + 1)
    ensures Bit(n, k) <==> n >= Pow2(k)
  {
    if k > 0 {
      TopBit(n / 2, k - 1);
    }
  }

  /** size_t arithmetic wraps. */
  function Size(n: nat): nat { n % SIZE_T }

  function Held(fragmented: Option<Assembly>): nat {
    if fragmented.Some? then fragmented.value.length else 0
  }

  predicate TooBig(length: nat, fragmented: Option<Assembly>, maxMessageSize: nat) {
    Size(length + Held(fragmented)) > maxMessageSize
  }

  /** The message a frame's payload is appended to: the one being assembled, or a new one. */
  function Target(fragmented: Option<Assembly>, op: byte, length: nat): Assembly {
    if !Fin(op) || Opcode(op) == 0 then
      match fragmented
      case None => Assembly(WithFin(op), length, [])
      case Some(a) => a.(length := Size(a.length + length))
    else Assembly(op, length, [])
  }

  /** The handler calls a frame leads to, given the message its payload went to. */
  function Reply(op: byte, message: Assembly, length: nat): seq<Output>
    requires length <= |message.buffer|
  {
    if Opcode(op) == 8 then
      if length >= 2 then [OnClose((message.buffer[0] as int) * 256 + message.buffer[1], message.buffer[2..])]
      else [OnClose(0, message.buffer)]
    else if Opcode(op) == 9 then [SendPong(op + 1), OnPing]
    else if Opcode(op) == 10 then [OnPong]
    else if !Fin(op) then []
    else [OnMessage(message.op, message.length, message.buffer)]
  }

  /** Everything done with one complete frame: a close ends the reading, a final data frame clears
      the assembly, control frames leave it alone. */
  function React(c: Conn, f: Frame): Conn {
    var length := |f.payload|;
    var target := Target(c.fragmented, f.op, length);
    var message := target.(buffer := target.buffer + f.payload);
    var kept := if !Fin(f.op) || Opcode(f.op) == 0 then Some(message) else c.fragmented;
    Conn(if Fin(f.op) && Opcode(f.op) !in {8, 9, 10} then None else kept,
         c.out + Reply(f.op, message, length),
         if Opcode(f.op) == 8 then false else c.reading)
  }

  /** One frame with the size check in front, if the connection still reads. */
  function Receive(c: Conn, f: Frame, maxMessageSize: nat): Conn {
    if !c.reading then c
    else if TooBig(|f.payload|, c.fragmented, maxMessageSize) then c.(out := c.out + [OnTooBig], reading := false)
    else React(c, f)
  }

  function ReceiveAll(c: Conn, frames: seq<Frame>, maxMessageSize: nat): Conn {
    if frames == [] then c
    else Receive(ReceiveAll(c, frames[..|frames| - 1], maxMessageSize), frames[|frames| - 1], maxMessageSize)
  }

  lemma {:induction false} ReceiveSplits(c: Conn, x: seq<Frame>, y: seq<Frame>, max: nat)
    ensures ReceiveAll(c, x + y, max) == ReceiveAll(ReceiveAll(c, x, max), y, max)
  {
    if y == [] {
      assert x + y == x;
    } else {
      ReceiveSplits(c, x, y[..|y| - 1], max);
      assert (x + y)[..|x + y| - 1] == x + y[..|y| - 1];
    }
  }

  lemma ReceiveFirst(c: Conn, f: Frame, rest: seq<Frame>, max: nat)
    ensures ReceiveAll(c, [f] + rest, max) == ReceiveAll(Receive(c, f, max), rest, max)
  {
    ReceiveSplits(c, [f], rest, max);
    assert [f][..0] == [];
  }

  // ---------- Single frames off the common path ----------

  /** A ping is answered by a pong with FIN set and then reported; a pong is reported. */
  lemma PingAnswered(c: Conn, payload: seq<byte>)
    ensures React(c, Frame(137, payload)) == c.(out := c.out + [SendPong(138), OnPing])
    ensures React(c, Frame(138, payload)) == c.(out := c.out + [OnPong])
  {
  }

  /** A close too short to hold a status is reported with status 0 and what there is as the reason. */
  lemma ShortClose(c: Conn, payload: seq<byte>)
    requires |payload| < 2
    ensures React(c, Frame(136, payload)) == c.(out := c.out + [OnClose(0, payload)], reading := false)
  {
    assert [] + payload == payload;
  }

  /** The opcode is looked at before FIN: a ping without FIN is answered like any other, but begins an
      assembly as well. */
  lemma UnfinishedPing(c: Conn, payload: seq<byte>)
    requires c.fragmented == None
    ensures React(c, Frame(9, payload))
         == c.(fragmented := Some(Assembly(137, |payload|, payload)), out := c.out + [SendPong(10), OnPing])
  {
    assert [] + payload == payload;
  }

  /** A close without FIN takes its status from the front of what is assembled. */
  lemma UnfinishedClose(c: Conn, a: Assembly, payload: seq<byte>)
    requires c.fragmented == Some(a) && |a.buffer| >= 2 && |payload| >= 2 && a.length + |payload| < SIZE_T
    ensures var all := a.buffer + payload;
            && React(c, Frame(8, payload)).out == c.out + [OnClose(256 * (a.buffer[0] as int) + a.buffer[1], all[2..])]
            && !React(c, Frame(8, payload)).reading
  {
  }

  /** A continuation with nothing begun is taken for a message of its own, with opcode 0. */
  lemma OrphanDelivered(c: Conn, payload: seq<byte>)
    requires c.fragmented == None
    ensures React(c, Frame(128, payload)) == c.(out := c.out + [OnMessage(128, |payload|, payload)])
    ensures React(c, Frame(0, payload)) == c.(fragmented := Some(Assembly(128, |payload|, payload)))
  {
    assert [] + payload == payload && c.out + [] == c.out;
  }

  /** A whole message inside a fragmented one is delivered, and what was assembled is dropped. */
  lemma AssemblyDropped(c: Conn, op: byte, payload: seq<byte>)
    requires DataOp(op)
    ensures React(c, Frame(op, payload)) == c.(fragmented := None, out := c.out + [OnMessage(op, |payload|, payload)])
  {
    assert [] + payload == payload;
  }

  /** A second start inside a fragmented message is taken for a continuation; its opcode is lost. */
  lemma SecondStartJoined(c: Conn, a: Assembly, op: byte, payload: seq<byte>)
    requires c.fragmented == Some(a) && DataOp(WithFin(op)) && !Fin(op) && a.length + |payload| < SIZE_T
    ensures React(c, Frame(op, payload))
         == c.(fragmented := Some(Assembly(a.op, a.length + |payload|, a.buffer + payload)))
  {
    assert c.out + [] == c.out;
  }

  // ---------- Fragments ----------

  /** A ping or pong as section 5.5 of RFC 6455 allows it: final and short. */
  predicate Control(f: Frame) {
    Fin(f.op) && Opcode(f.op) in {9, 10} && |f.payload| <= 125
  }

  /** A message's opcode byte: FIN set and a data opcode. */
  predicate DataOp(op: byte) {
    Fin(op) && Opcode(op) !in {0, 8, 9, 10}
  }

  function ControlOutput(f: Frame): seq<Output>
    requires Control(f)
  {
    if Opcode(f.op) == 9 then [SendPong(f.op + 1), OnPing] else [OnPong]
  }

  /** One element of a fragmented message on the wire: a piece of it, or a control frame in between. */
  datatype Part = Piece(payload: seq<byte>) | Between(control: Frame)

  /** Parts that make one message: allowed control frames anywhere before the last piece. */
  predicate OneMessage(parts: seq<Part>) {
    && parts != [] && parts[|parts| - 1].Piece?
    && forall i :: 0 <= i < |parts| && parts[i].Between? ==> Control(parts[i].control)
  }

  /** The first piece carries the opcode, later ones opcode 0, and only the last one FIN. */
  function PieceOp(op: byte, first: bool, last: bool): byte {
    if first then (if last then op else WithoutFin(op)) else if last then 128 else 0
  }

  function Split(parts: seq<Part>, op: byte, first: bool): seq<Frame> {
    if parts == [] then []
    else
      match parts[0]
      case Between(control) => [control] + Split(parts[1..], op, first)
      case Piece(payload) => [Frame(PieceOp(op, first, |parts| == 1), payload)] + Split(parts[1..], op, false)
  }

  function Joined(parts: seq<Part>): seq<byte> {
    if parts == [] then []
    else (match parts[0] case Piece(payload) => payload case Between(_) => []) + Joined(parts[1..])
  }

  function Controls(parts: seq<Part>): seq<Output> {
    if parts == [] then []
    else HeadControl(parts[0]) + Controls(parts[1..])
  }

  function HeadControl(p: Part): seq<Output> {
    if p.Between? && Control(p.control) then ControlOutput(p.control) else []
  }

  /** The size check is made on every frame, control frames included, on top of what is assembled. */
  predicate WithinLimit(parts: seq<Part>, held: nat, max: nat) {
    parts == [] ||
    match parts[0]
    case Between(control) => held + |control.payload| <= max && WithinLimit(parts[1..], held, max)
    case Piece(payload) => held + |payload| <= max && WithinLimit(parts[1..], held + |payload|, max)
  }

  lemma TailIsMessage(parts: seq<Part>)
    requires OneMessage(parts) && |parts| > 1
    ensures OneMessage(parts[1..]) && (parts[0].Between? ==> |parts[0].control.payload| <= 125)
  {
  }

  lemma JoinedAfter(parts: seq<Part>, head: seq<byte>)
    requires parts != [] && head == match parts[0] case Piece(payload) => payload case Between(_) => []
    ensures |Joined(parts)| == |head| + |Joined(parts[1..])|
  {
  }

  /** Room for one control frame on top of the message is always enough. */
  lemma {:induction false} RoomIsEnough(parts: seq<Part>, held: nat, max: nat)
    requires OneMessage(parts) && held + |Joined(parts)| + 125 <= max
    ensures WithinLimit(parts, held, max)
  {
    if |parts| == 1 {
      assert parts[1..] == [];
    } else {
      TailIsMessage(parts);
      match parts[0]
      case Between(control) =>
        JoinedAfter(parts, []);
        RoomIsEnough(parts[1..], held, max);
      case Piece(payload) =>
        JoinedAfter(parts, payload);
        RoomIsEnough(parts[1..], held + |payload|, max);
    }
  }

  /** Whatever the split and wherever the pings and pongs, the handlers see each control frame once
      in its place and the whole message once at the end, and the connection is clean again. */
  lemma {:induction false} SplitDelivers(c: Conn, parts: seq<Part>, op: byte, first: bool, done: seq<byte>, max: nat)
    requires c.reading && DataOp(op) && OneMessage(parts) && max < SIZE_T
    requires c.fragmented == if first then None else Some(Assembly(op, |done|, done))
    requires first ==> done == []
    requires WithinLimit(parts, |done|, max)
    ensures var payload := done + Joined(parts);
            ReceiveAll(c, Split(parts, op, first), max)
            == Conn(None, c.out + Controls(parts) + [OnMessage(op, |payload|, payload)], true)
    decreases |parts|
  {
    match parts[0]
    case Between(control) =>
      ControlReceived(c, control, max);
      SplitDelivers(c.(out := c.out + ControlOutput(control)), parts[1..], op, first, done, max);
      BetweenFirst(c, parts, op, first, done, max);
    case Piece(payload) =>
      PieceReceived(c, payload, op, first, |parts| == 1, done, max);
      if |parts| == 1 {
        OnePiece(parts);
      } else {
        SplitDelivers(Conn(Some(Assembly(op, |done + payload|, done + payload)), c.out, true), parts[1..],
                      op, false, done + payload, max);
      }
      PieceFirst(c, parts, op, first, done, max);
  }

  lemma {:induction false} BetweenFirst(c: Conn, parts: seq<Part>, op: byte, first: bool, done: seq<byte>, max: nat)
    requires parts != [] && parts[0].Between? && Control(parts[0].control)
    requires Receive(c, parts[0].control, max) == c.(out := c.out + ControlOutput(parts[0].control))
    ensures Joined(parts) == Joined(parts[1..])
    ensures c.out + Controls(parts) == c.out + ControlOutput(parts[0].control) + Controls(parts[1..])
    ensures ReceiveAll(c, Split(parts, op, first), max)
         == ReceiveAll(c.(out := c.out + ControlOutput(parts[0].control)), Split(parts[1..], op, first), max)
  {
    assert [] + Joined(parts[1..]) == Joined(parts[1..]);
    Regroup(c.out, ControlOutput(parts[0].control), Controls(parts[1..]));
    SplitBetween(parts, op, first);
    ReceiveFirst(c, parts[0].control, Split(parts[1..], op, first), max);
  }

  lemma SplitBetween(parts: seq<Part>, op: byte, first: bool)
    requires parts != [] && parts[0].Between?
    ensures Split(parts, op, first) == [parts[0].control] + Split(parts[1..], op, first)
  {
  }

  lemma PieceFirst(c: Conn, parts: seq<Part>, op: byte, first: bool, done: seq<byte>, max: nat)
    requires parts != [] && parts[0].Piece?
    ensures done + Joined(parts) == done + parts[0].payload + Joined(parts[1..])
    ensures Controls(parts) == Controls(parts[1..])
    ensures ReceiveAll(c, Split(parts, op, first), max)
         == ReceiveAll(Receive(c, Frame(PieceOp(op, first, |parts| == 1), parts[0].payload), max),
                       Split(parts[1..], op, false), max)
  {
    ReceiveFirst(c, Frame(PieceOp(op, first, |parts| == 1), parts[0].payload), Split(parts[1..], op, false), max);
    assert [] + Controls(parts[1..]) == Controls(parts[1..]);
  }

  lemma OnePiece(parts: seq<Part>)
    requires |parts| == 1 && parts[0].Piece?
    ensures parts[1..] == [] && Controls(parts) == [] && Joined(parts) == parts[0].payload
  {
  }

  lemma ControlReceived(c: Conn, f: Frame, max: nat)
    requires c.reading && Control(f) && max < SIZE_T && Held(c.fragmented) + |f.payload| <= max
    ensures Receive(c, f, max) == c.(out := c.out + ControlOutput(f))
  {
  }

  lemma PieceReceived(c: Conn, payload: seq<byte>, op: byte, first: bool, last: bool, done: seq<byte>, max: nat)
    requires c.reading && DataOp(op) && max < SIZE_T && |done| + |payload| <= max
    requires c.fragmented == if first then None else Some(Assembly(op, |done|, done))
    requires first ==> done == []
    ensures var all := done + payload;
            Receive(c, Frame(PieceOp(op, first, last), payload), max)
            == if last then Conn(None, c.out + [OnMessage(op, |all|, all)], true)
               else Conn(Some(Assembly(op, |all|, all)), c.out, true)
  {
    var f := Frame(PieceOp(op, first, last), payload);
    PieceTarget(c.fragmented, op, first, last, done, |payload|);
    DataReacted(c, f, Assembly(op, |done + payload|, done));
  }

  /** The opcode byte of a piece, and the message its payload goes to. */
  lemma {:induction false} PieceTarget(fragmented: Option<Assembly>, op: byte, first: bool, last: bool,
                                           done: seq<byte>, length: nat)
    requires DataOp(op) && |done| + length < SIZE_T
    requires fragmented == if first then None else Some(Assembly(op, |done|, done))
    requires first ==> done == []
    ensures Fin(PieceOp(op, first, last)) <==> last
    ensures Opcode(PieceOp(op, first, last)) !in {8, 9, 10}
    ensures Target(fragmented, PieceOp(op, first, last), length) == Assembly(op, |done| + length, done)
  {
    assert WithFin(WithoutFin(op)) == op;
  }

  lemma DataReacted(c: Conn, f: Frame, target: Assembly)
    requires Opcode(f.op) !in {8, 9, 10} && Target(c.fragmented, f.op, |f.payload|) == target
    ensures var message := target.(buffer := target.buffer + f.payload);
            React(c, f) == if Fin(f.op)
            then Conn(None, c.out + [OnMessage(target.op, target.length, message.buffer)], c.reading)
                           else Conn(Some(message), c.out, c.reading)
  {
    assert c.out + [] == c.out;
  }

  function Messages(out: seq<Output>): seq<Output> {
    if out == [] then []
    else Messages(out[..|out| - 1]) + if out[|out| - 1].OnMessage? then [out[|out| - 1]] else []
  }

  lemma {:induction false} MessagesSplit(x: seq<Output>, y: seq<Output>)
    ensures Messages(x + y) == Messages(x) + Messages(y)
  {
    if y == [] {
      assert x + y == x;
    } else {
      MessagesSplit(x, y[..|y| - 1]);
      assert (x + y)[..|x + y| - 1] == x + y[..|y| - 1];
    }
  }

  lemma {:induction false} ControlsAreNoMessages(parts: seq<Part>)
    ensures Messages(Controls(parts)) == []
  {
    if parts != [] {
      ControlsAreNoMessages(parts[1..]);
      var head := HeadControl(parts[0]);
      MessagesSplit(head, Controls(parts[1..]));
      assert |head| == 2 ==> head[..1] == [head[0]];
      assert Messages(head[..|head| / 2]) == [];
      assert Messages(head) == [];
    }
  }

  lemma MessagesEnd(out: seq<Output>, op: byte, payload: seq<byte>)
    ensures Messages(out + [OnMessage(op, |payload|, payload)]) == Messages(out) + [OnMessage(op, |payload|, payload)]
  {
    assert (out + [OnMessage(op, |payload|, payload)])[..|out|] == out;
  }

  /** In particular a split message reaches on_message exactly as the unsplit one does. */
  lemma SplitEqualsWhole(c: Conn, parts: seq<Part>, op: byte, max: nat)
    requires c.reading && c.fragmented == None && DataOp(op) && OneMessage(parts) && max < SIZE_T
    requires WithinLimit(parts, 0, max)
    ensures var whole := Frame(op, Joined(parts));
            Messages(ReceiveAll(c, Split(parts, op, true), max).out) == Messages(Receive(c, whole, max).out)
            == Messages(c.out) + [OnMessage(op, |whole.payload|, whole.payload)]
  {
    SplitMessages(c, parts, op, max);
    LimitCoversMessage(parts, 0, max);
    WholeMessages(c, Joined(parts), op, max);
  }

  lemma SplitMessages(c: Conn, parts: seq<Part>, op: byte, max: nat)
    requires c.reading && c.fragmented == None && DataOp(op) && OneMessage(parts) && max < SIZE_T
    requires WithinLimit(parts, 0, max)
    ensures Messages(ReceiveAll(c, Split(parts, op, true), max).out)
         == Messages(c.out) + [OnMessage(op, |Joined(parts)|, Joined(parts))]
  {
    SplitFromClean(c, parts, op, max);
    MessagesOfSplit(c.out, parts, op, Joined(parts));
  }

  lemma {:induction false} SplitFromClean(c: Conn, parts: seq<Part>, op: byte, max: nat)
    requires c.reading && c.fragmented == None && DataOp(op) && OneMessage(parts) && max < SIZE_T
    requires WithinLimit(parts, 0, max)
    ensures ReceiveAll(c, Split(parts, op, true), max)
         == c.(out := c.out + Controls(parts) + [OnMessage(op, |Joined(parts)|, Joined(parts))])
  {
    SplitDelivers(c, parts, op, true, [], max);
    assert [] + Joined(parts) == Joined(parts);
  }

  lemma MessagesOfSplit(out: seq<Output>, parts: seq<Part>, op: byte, payload: seq<byte>)
    ensures Messages(out + Controls(parts) + [OnMessage(op, |payload|, payload)])
         == Messages(out) + [OnMessage(op, |payload|, payload)]
  {
    MessagesEnd(out + Controls(parts), op, payload);
    MessagesSplit(out, Controls(parts));
    ControlsAreNoMessages(parts);
  }

  lemma WholeMessages(c: Conn, payload: seq<byte>, op: byte, max: nat)
    requires c.reading && c.fragmented == None && DataOp(op) && |payload| <= max < SIZE_T
    ensures Messages(Receive(c, Frame(op, payload), max).out) == Messages(c.out) + [OnMessage(op, |payload|, payload)]
  {
    PieceReceived(c, payload, op, true, true, [], max);
    assert [] + payload == payload;
    MessagesEnd(c.out, op, payload);
  }

  lemma {:induction false} LimitCoversMessage(parts: seq<Part>, held: nat, max: nat)
    requires OneMessage(parts) && WithinLimit(parts, held, max)
    ensures held + |Joined(parts)| <= max
  {
    if |parts| == 1 {
      assert parts[1..] == [];
    } else {
      LimitCoversMessage(parts[1..], held + match parts[0] case Piece(p) => |p| case Between(_) => 0, max);
    }
  }

  // ---------- Many messages ----------

  datatype Sent = Sent(op: byte, parts: seq<Part>)

  predicate Sendable(m: Sent, max: nat) {
    DataOp(m.op) && OneMessage(m.parts) && WithinLimit(m.parts, 0, max)
  }

  function FramesOf(messages: seq<Sent>): seq<Frame> {
    if messages == [] then []
    else FramesOf(messages[..|messages| - 1]) + Split(messages[|messages| - 1].parts, messages[|messages| - 1].op, true)
  }

  /** The handler calls one message leads to. */
  function Calls(m: Sent): seq<Output> {
    Controls(m.parts) + [OnMessage(m.op, |Joined(m.parts)|, Joined(m.parts))]
  }

  function CallsOf(messages: seq<Sent>): seq<Output> {
    if messages == [] then [] else CallsOf(messages[..|messages| - 1]) + Calls(messages[|messages| - 1])
  }

  lemma OneDelivered(c: Conn, m: Sent, max: nat)
    requires c.reading && c.fragmented == None && max < SIZE_T && Sendable(m, max)
    ensures ReceiveAll(c, Split(m.parts, m.op, true), max) == c.(out := c.out + Calls(m))
  {
    SplitFromClean(c, m.parts, m.op, max);
    Regroup(c.out, Controls(m.parts), [OnMessage(m.op, |Joined(m.parts)|, Joined(m.parts))]);
  }

  /** Any sequence of split messages, one after the other, is delivered message by message. */
  lemma {:induction false} AllDelivered(c: Conn, messages: seq<Sent>, max: nat)
    requires c.reading && c.fragmented == None && max < SIZE_T
    requires forall i :: 0 <= i < |messages| ==> Sendable(messages[i], max)
    ensures ReceiveAll(c, FramesOf(messages), max) == c.(out := c.out + CallsOf(messages))
  {
    if messages == [] {
      assert c.out + [] == c.out;
    } else {
      var past, m := messages[..|messages| - 1], messages[|messages| - 1];
      AllDelivered(c, past, max);
      ReceiveSplits(c, FramesOf(past), Split(m.parts, m.op, true), max);
      OneDelivered(c.(out := c.out + CallsOf(past)), m, max);
      Regroup(c.out, CallsOf(past), Calls(m));
    }
  }

  lemma Regroup<T>(x: seq<T>, y: seq<T>, z: seq<T>)
    ensures x + y + z == x + (y + z)
  {
  }
}

/** From bytes to handler calls. */
module WebSocketServer {
  import opened Order
  import opened WebSocketFraming
  import opened Reassembly

  /** One read_message: nothing yet, or a frame consumed, or the connection given up. A declared
      length so near 2^64 that adding the mask wraps is taken as a connection that reads no further. */
  function ReadStep(c: Conn, b: seq<byte>, max: nat): (r: (Conn, seq<byte>))
    ensures |r.1| <= |b|
    ensures r.0.reading && r.1 != b ==> |r.1| < |b|
  {
    if !c.reading then (c, b)
    else
      match ReadHeader(b)
      case Partial => (c, b)
      case Unmasked => (c.(out := c.out + [OnUnmasked], reading := false), b[2..])
      case Header(op, length, size) =>
        if TooBig(length, c.fragmented, max) then (c.(out := c.out + [OnTooBig], reading := false), b[size..])
        else if 4 + length >= SIZE_T then (c.(out := c.out + [OnStall], reading := false), b[size..])
        else if |b| < size + 4 + length then (c, b)
        else (React(c, Frame(op, Content(b, Header(op, length, size)))), b[size + 4 + length..])
  }

  /** read_message again and again while whole frames are there. */
  function ReadAll(c: Conn, b: seq<byte>, max: nat): (Conn, seq<byte>)
    decreases |b|
  {
    var (c', b') := ReadStep(c, b, max);
    if c'.reading && |b'| < |b| then ReadAll(c', b', max) else (c', b')
  }

  /** A frame as a client puts it on the wire: any mask, any fitting length form. */
  datatype OnWire = OnWire(frame: Frame, form: Form, mask: seq<byte>)

  predicate Encodable(w: OnWire) {
    Fits(w.form, |w.frame.payload|) && |w.mask| == 4 && 4 + |w.frame.payload| < SIZE_T
  }

  function WireOf(w: OnWire): (b: seq<byte>)
    requires Encodable(w)
    ensures b != []
  {
    Wire(w.frame.op, w.form, w.frame.payload, w.mask)
  }

  function Bytes(ws: seq<OnWire>): seq<byte>
    requires forall i :: 0 <= i < |ws| ==> Encodable(ws[i])
  {
    if ws == [] then [] else assert Encodable(ws[0]); WireOf(ws[0]) + Bytes(ws[1..])
  }

  function Frames(ws: seq<OnWire>): seq<Frame> {
    if ws == [] then [] else [ws[0].frame] + Frames(ws[1..])
  }

  lemma {:induction false} StaysStopped(c: Conn, frames: seq<Frame>, max: nat)
    requires !c.reading
    ensures ReceiveAll(c, frames, max) == c
  {
    if frames != [] {
      StaysStopped(c, frames[..|frames| - 1], max);
    }
  }

  lemma ReadOne(c: Conn, w: OnWire, rest: seq<byte>, max: nat)
    requires c.reading && Encodable(w) && !TooBig(|w.frame.payload|, c.fragmented, max)
    ensures ReadStep(c, WireOf(w) + rest, max) == (Receive(c, w.frame, max), rest)
  {
    HeaderOfWire(w.frame.op, w.form, w.frame.payload, w.mask, rest);
    ContentOfWire(w.frame.op, w.form, w.frame.payload, w.mask, rest);
  }

  /** The byte stream of any frames is read back as those frames, in order, with nothing left over
      and nothing taken from what follows, as long as none of them ends the connection. */
  lemma {:induction false} StreamRead(c: Conn, ws: seq<OnWire>, rest: seq<byte>, max: nat)
    requires forall i :: 0 <= i < |ws| ==> Encodable(ws[i])
    requires c.reading && ReceiveAll(c, Frames(ws), max).reading
    ensures ReadAll(c, Bytes(ws) + rest, max) == ReadAll(ReceiveAll(c, Frames(ws), max), rest, max)
    decreases |ws|
  {
    if ws == [] {
      assert Bytes(ws) + rest == rest;
    } else {
      FirstKeepsReading(c, ws[0].frame, Frames(ws[1..]), max);
      BytesFirst(ws, rest);
      StreamStep(c, ws[0], Bytes(ws[1..]) + rest, max);
      StreamRead(Receive(c, ws[0].frame, max), ws[1..], rest, max);
    }
  }

  lemma FirstKeepsReading(c: Conn, f: Frame, rest: seq<Frame>, max: nat)
    requires ReceiveAll(c, [f] + rest, max).reading
    ensures Receive(c, f, max).reading
    ensures ReceiveAll(c, [f] + rest, max) == ReceiveAll(Receive(c, f, max), rest, max)
  {
    ReceiveFirst(c, f, rest, max);
    if !Receive(c, f, max).reading {
      StaysStopped(Receive(c, f, max), rest, max);
    }
  }

  lemma BytesFirst(ws: seq<OnWire>, rest: seq<byte>)
    requires ws != [] && forall i :: 0 <= i < |ws| ==> Encodable(ws[i])
    ensures Encodable(ws[0]) && Bytes(ws) + rest == WireOf(ws[0]) + (Bytes(ws[1..]) + rest)
  {
    Regroup(WireOf(ws[0]), Bytes(ws[1..]), rest);
  }

  lemma StreamStep(c: Conn, w: OnWire, rest: seq<byte>, max: nat)
    requires c.reading && Encodable(w) && Receive(c, w.frame, max).reading
    ensures ReadAll(c, WireOf(w) + rest, max) == ReadAll(Receive(c, w.frame, max), rest, max)
  {
    ReadOne(c, w, rest, max);
  }

  // ---------- Where reading ends ----------

  const CLOSE: byte := 136

  /** The body send_close builds: the status, most significant byte first, then the reason. */
  method ClosePayload(status: nat, reason: seq<byte>) returns (body: seq<byte>)
    requires status < 0x1_0000
    ensures body == BigEndian(status, 2) + reason
  {
    body := [status / 256];
    body := body + [status % 256];
    body := body + reason;
    assert BigEndian(status, 2) == BigEndian(status / 256, 1) + [status % 256];
    assert BigEndian(status / 256, 1) == [status / 256];
  }

  /** A close frame reaches on_close with the status and reason its sender gave, and nothing after
      it is read. */
  lemma CloseRoundTrip(c: Conn, w: OnWire, status: nat, reason: seq<byte>, rest: seq<byte>, max: nat)
    requires c.reading && Encodable(w) && status < 0x1_0000
    requires w.frame == Frame(CLOSE, BigEndian(status, 2) + reason) && !TooBig(|w.frame.payload|, c.fragmented, max)
    ensures ReadAll(c, WireOf(w) + rest, max) == (c.(out := c.out + [OnClose(status, reason)], reading := false), rest)
  {
    ReadOne(c, w, rest, max);
    CloseReceived(c, w.frame, status, reason);
  }

  lemma CloseReceived(c: Conn, f: Frame, status: nat, reason: seq<byte>)
    requires status < 0x1_0000 && f == Frame(CLOSE, BigEndian(status, 2) + reason)
    ensures React(c, f) == c.(out := c.out + [OnClose(status, reason)], reading := false)
  {
    assert BigEndian(status, 2) == BigEndian(status / 256, 1) + [status % 256];
    assert f.payload[0] == status / 256 && f.payload[1] == status % 256 && f.payload[2..] == reason;
    assert [] + f.payload == f.payload;
  }

  /** A frame that with what is assembled exceeds the limit is refused on its header, as long as the
      two lengths add up below 2^64: nothing of it reaches a handler, and nothing after it is read. */
  lemma OversizeRefused(c: Conn, w: OnWire, rest: seq<byte>, max: nat)
    requires c.reading && Encodable(w)
    requires max < |w.frame.payload| + Held(c.fragmented) < SIZE_T
    ensures ReadAll(c, WireOf(w) + rest, max).0 == c.(out := c.out + [OnTooBig], reading := false)
  {
    HeaderOfWire(w.frame.op, w.form, w.frame.payload, w.mask, rest);
    WrappedSum(|w.frame.payload| + Held(c.fragmented));
    RefusedOnHeader(c, WireOf(w) + rest, max);
  }

  lemma RefusedOnHeader(c: Conn, b: seq<byte>, max: nat)
    requires c.reading && ReadHeader(b).Header? && TooBig(ReadHeader(b).length, c.fragmented, max)
    ensures ReadAll(c, b, max).0 == c.(out := c.out + [OnTooBig], reading := false)
  {
  }

  /** The assembled length stays within the limit, whatever is read. */
  lemma {:induction false} HeldWithinLimit(c: Conn, b: seq<byte>, max: nat)
    requires Held(c.fragmented) <= max < SIZE_T
    ensures Held(ReadAll(c, b, max).0.fragmented) <= max
    decreases |b|
  {
    var (c', b') := ReadStep(c, b, max);
    HeldAfterStep(c, b, max);
    if c'.reading && |b'| < |b| {
      HeldWithinLimit(c', b', max);
    }
  }

  lemma HeldAfterStep(c: Conn, b: seq<byte>, max: nat)
    requires Held(c.fragmented) <= max < SIZE_T
    ensures Held(ReadStep(c, b, max).0.fragmented) <= max
  {
    var h := ReadHeader(b);
    if c.reading && h.Header? && !TooBig(h.length, c.fragmented, max) && h.size + 4 + h.length <= |b| {
      HeldAfterReact(c, Frame(h.op, Content(b, h)), max);
    }
  }

  lemma HeldAfterReact(c: Conn, f: Frame, max: nat)
    requires Held(c.fragmented) <= max < SIZE_T && |f.payload| < SIZE_T && !TooBig(|f.payload|, c.fragmented, max)
    ensures Held(React(c, f).fragmented) <= max
  {
  }

  /** Exactly which declared lengths over the limit pass the check all the same: those whose sum
      with the assembled length wraps to something within it. */
  lemma EscapesIff(fragmented: Option<Assembly>, length: nat, max: nat)
    requires Held(fragmented) <= max < SIZE_T && length < SIZE_T
    ensures length + Held(fragmented) > max && !TooBig(length, fragmented, max)
            <==> SIZE_T <= length + Held(fragmented) <= SIZE_T + max
  {
    WrappedSum(length + Held(fragmented));
  }

  lemma WrappedSum(sum: nat)
    requires sum < 2 * SIZE_T
    ensures Size(sum) == if sum < SIZE_T then sum else sum - SIZE_T
  {
  }

  /** Such a header: with 10 bytes assembled and a limit of 1000, a declared length of 2^64 - 10 is
      not refused, and the connection waits for that many bytes. */
  lemma WrappedLengthAccepted(c: Conn)
    requires c.reading && Held(c.fragmented) == 10
    ensures var length := SIZE_T - 10;
            var b := [0, 255] + BigEndian(length, 8);
            && length + Held(c.fragmented) > 1000 && ReadHeader(b) == Header(0, length, 10)
            && ReadAll(c, b, 1000) == (c, b)
  {
    var length := SIZE_T - 10;
    var b := [0, 255] + BigEndian(length, 8);
    Powers();
    ValueOfBigEndian(length, 8);
    assert b[2..10] == BigEndian(length, 8);
    EscapesIff(c.fragmented, length, 1000);
  }

  /** A frame laid out as the server's own send does, unmasked, is refused whatever it holds. */
  lemma {:induction false} UnmaskedRefused(c: Conn, op: byte, form: Form, payload: seq<byte>, rest: seq<byte>, max: nat)
    requires c.reading && Fits(form, |payload|)
    ensures ReadAll(c, [op] + LengthField(form, |payload|, 0) + payload + rest, max).0
         == c.(out := c.out + [OnUnmasked], reading := false)
  {
    var b := [op] + LengthField(form, |payload|, 0) + payload + rest;
    assert b[1] == LengthField(form, |payload|, 0)[0];
  }

  /** One call of the client's send. */
  datatype Send = Send(op: byte, payload: seq<byte>, mask: seq<byte>)

  function SendWire(s: Send): OnWire { OnWire(Frame(s.op, s.payload), Shortest(|s.payload|), s.mask) }

  function SendWires(sends: seq<Send>): seq<OnWire> {
    if sends == [] then [] else [SendWire(sends[0])] + SendWires(sends[1..])
  }

  function SendCalls(sends: seq<Send>): seq<Output> {
    if sends == [] then [] else [OnMessage(sends[0].op, |sends[0].payload|, sends[0].payload)] + SendCalls(sends[1..])
  }

  lemma {:induction false} WiresEncodable(sends: seq<Send>)
    requires forall i :: 0 <= i < |sends| ==> |sends[i].mask| == 4 && 4 + |sends[i].payload| < SIZE_T
    ensures forall i :: 0 <= i < |SendWires(sends)| ==> Encodable(SendWires(sends)[i])
  {
    if sends != [] {
      WiresEncodable(sends[1..]);
    }
  }

  lemma SendReceived(c: Conn, s: Send, rest: seq<Frame>, max: nat)
    requires c.reading && c.fragmented == None && max < SIZE_T && DataOp(s.op) && |s.payload| <= max
    ensures ReceiveAll(c, [Frame(s.op, s.payload)] + rest, max)
         == ReceiveAll(c.(out := c.out + [OnMessage(s.op, |s.payload|, s.payload)]), rest, max)
  {
    ReceiveFirst(c, Frame(s.op, s.payload), rest, max);
    PieceReceived(c, s.payload, s.op, true, true, [], max);
    assert [] + s.payload == s.payload;
  }

  lemma {:induction false} SendsReceived(c: Conn, sends: seq<Send>, max: nat)
    requires c.reading && c.fragmented == None && max < SIZE_T
    requires forall i :: 0 <= i < |sends| ==> DataOp(sends[i].op) && |sends[i].payload| <= max
    ensures ReceiveAll(c, Frames(SendWires(sends)), max) == c.(out := c.out + SendCalls(sends))
    decreases |sends|
  {
    if sends == [] {
      assert c.out + [] == c.out;
    } else {
      var s, call := sends[0], [OnMessage(sends[0].op, |sends[0].payload|, sends[0].payload)];
      assert SendWires(sends)[1..] == SendWires(sends[1..]);
      SendReceived(c, s, Frames(SendWires(sends[1..])), max);
      SendsReceived(c.(out := c.out + call), sends[1..], max);
      Regroup(c.out, call, SendCalls(sends[1..]));
    }
  }

  /** Whatever a client sends, whatever the masks, the server's handler is given the same opcodes and
      payloads in the same order, and the stream is consumed to the last byte. */
  lemma SendsRoundTrip(c: Conn, sends: seq<Send>, max: nat)
    requires c.reading && c.fragmented == None && max < SIZE_T
    requires forall i :: 0 <= i < |sends| ==>
               DataOp(sends[i].op) && |sends[i].payload| <= max
               && |sends[i].mask| == 4 && 4 + |sends[i].payload| < SIZE_T
    ensures forall i :: 0 <= i < |SendWires(sends)| ==> Encodable(SendWires(sends)[i])
    ensures ReadAll(c, Bytes(SendWires(sends)), max) == (c.(out := c.out + SendCalls(sends)), [])
  {
    WiresEncodable(sends);
    SendsReceived(c, sends, max);
    StreamRead(c, SendWires(sends), [], max);
    assert Bytes(SendWires(sends)) + [] == Bytes(SendWires(sends));
  }

  /** The same for split messages, however their frames are masked and their lengths written. */
  lemma SplitsRoundTrip(c: Conn, messages: seq<Sent>, ws: seq<OnWire>, max: nat)
    requires c.reading && c.fragmented == None && max < SIZE_T
    requires forall i :: 0 <= i < |messages| ==> Sendable(messages[i], max)
    requires forall i :: 0 <= i < |ws| ==> Encodable(ws[i])
    requires Frames(ws) == FramesOf(messages)
    ensures ReadAll(c, Bytes(ws), max) == (c.(out := c.out + CallsOf(messages)), [])
  {
    AllDelivered(c, messages, max);
    StreamRead(c, ws, [], max);
    assert Bytes(ws) + [] == Bytes(ws);
  }

  class Message {
    var finRsvOpcode: byte
    var length: nat
    var buffer: seq<byte>

    constructor (finRsvOpcode: byte, length: nat)
      ensures this.finRsvOpcode == finRsvOpcode && this.length == length && buffer == []
    {
      this.finRsvOpcode, this.length, buffer := finRsvOpcode, length, [];
    }

    ghost function View(): Assembly
      reads this
    {
      Assembly(finRsvOpcode, length, buffer)
    }
  }

  class Connection {
    var readBuffer: seq<byte>
    var fragmentedMessage: Message?
    var out: seq<Output>
    var reading: bool

    constructor ()
      ensures View() == Conn(None, [], true) && readBuffer == []
    {
      readBuffer, fragmentedMessage, out, reading := [], null, [], true;
    }

    ghost function View(): Conn
      reads this, fragmentedMessage
    {
      Conn(if fragmentedMessage == null then None else Some(fragmentedMessage.View()), out, reading)
    }

    /** The big-endian loop over the length bytes. */
    static method ReadLength(lengthBytes: seq<byte>) returns (length: nat)
      ensures length == Value(lengthBytes)
    {
      length := 0;
      var c := 0;
      while c < |lengthBytes|
        invariant c <= |lengthBytes|
        invariant length == Value(lengthBytes[..c]) * Pow256(|lengthBytes| - c)
      {
        ghost var part, scale := Value(lengthBytes[..c]), Pow256(|lengthBytes| - 1 - c);
        assert lengthBytes[..c + 1][..c] == lengthBytes[..c];
        Distribute(part, lengthBytes[c], scale);
        length := length + lengthBytes[c] * Pow256(|lengthBytes| - 1 - c);
        c := c + 1;
      }
      assert lengthBytes[..c] == lengthBytes;
    }

    method ReadMessage(max: nat)
      modifies this, fragmentedMessage
      ensures (View(), readBuffer) == ReadStep(old(View()), old(readBuffer), max)
      ensures fragmentedMessage == old(fragmentedMessage) || fragmentedMessage == null || fresh(fragmentedMessage)
    {
      if !reading || |readBuffer| < 2 {
        return;
      }
      var finRsvOpcode, second := readBuffer[0], readBuffer[1];
      if second < 128 {
        readBuffer, out, reading := readBuffer[2..], out + [OnUnmasked], false;
        return;
      }
      var length: nat := second % 128;
      var size := 2;
      if length == 126 {
        if |readBuffer| < 4 {
          return;
        }
        length := ReadLength(readBuffer[2..4]);
        size := 4;
      } else if length == 127 {
        if |readBuffer| < 10 {
          return;
        }
        length := ReadLength(readBuffer[2..10]);
        size := 10;
      }
      ReadMessageContent(finRsvOpcode, length, size, max);
    }

    method ReadMessageContent(finRsvOpcode: byte, length: nat, size: nat, max: nat)
      requires reading && ReadHeader(readBuffer) == Header(finRsvOpcode, length, size)
      modifies this, fragmentedMessage
      ensures (View(), readBuffer) == ReadStep(old(View()), old(readBuffer), max)
      ensures fragmentedMessage == old(fragmentedMessage) || fragmentedMessage == null || fresh(fragmentedMessage)
    {
      var held := 0;
      if fragmentedMessage != null {
        held := fragmentedMessage.length;
      }
      if Size(length + held) > max {
        readBuffer, out, reading := readBuffer[size..], out + [OnTooBig], false;
        return;
      }
      if 4 + length >= SIZE_T {
        readBuffer, out, reading := readBuffer[size..], out + [OnStall], false;
        return;
      }
      if |readBuffer| < size + 4 + length {
        return;
      }
      var mask, content := readBuffer[size..size + 4], readBuffer[size + 4..size + 4 + length];
      readBuffer := readBuffer[size + 4 + length..];
      HandleFrame(finRsvOpcode, mask, content);
    }

    method HandleFrame(finRsvOpcode: byte, mask: seq<byte>, content: seq<byte>)
      requires reading && |mask| == 4
      modifies this`fragmentedMessage, this`out, this`reading, fragmentedMessage
      ensures View() == React(old(View()), Frame(finRsvOpcode, Masked(content, mask)))
      ensures fragmentedMessage == old(fragmentedMessage) || fragmentedMessage == null || fresh(fragmentedMessage)
    {
      var length := |content|;
      var message;
      if !Fin(finRsvOpcode) || Opcode(finRsvOpcode) == 0 {
        if fragmentedMessage == null {
          fragmentedMessage := new Message(finRsvOpcode, length);
          fragmentedMessage.finRsvOpcode := WithFin(fragmentedMessage.finRsvOpcode);
        } else {
          fragmentedMessage.length := Size(fragmentedMessage.length + length);
        }
        message := fragmentedMessage;
      } else {
        message := new Message(finRsvOpcode, length);
      }
      Unmask(message, mask, content);
      Dispatch(message, finRsvOpcode, length);
    }

    /** The cases on the opcode once the payload is in place. */
    method Dispatch(message: Message, finRsvOpcode: byte, length: nat)
      requires length <= |message.buffer|
      requires !Fin(finRsvOpcode) || Opcode(finRsvOpcode) == 0 ==> message == fragmentedMessage
      modifies this`fragmentedMessage, this`out, this`reading
      ensures reading == (if Opcode(finRsvOpcode) == 8 then false else old(reading))
      ensures out == old(out) + Reply(finRsvOpcode, message.View(), length)
      ensures fragmentedMessage ==
              if Fin(finRsvOpcode) && Opcode(finRsvOpcode) !in {8, 9, 10} then null else old(fragmentedMessage)
    {
      if Opcode(finRsvOpcode) == 8 {
        var status, reason := 0, message.buffer;
        if length >= 2 {
          status := (message.buffer[0] as int) * 256 + message.buffer[1];
          reason := message.buffer[2..];
        }
        out, reading := out + [OnClose(status, reason)], false;
      } else if Opcode(finRsvOpcode) == 9 {
        out := out + [SendPong(finRsvOpcode + 1), OnPing];
      } else if Opcode(finRsvOpcode) == 10 {
        out := out + [OnPong];
      } else if !Fin(finRsvOpcode) {
      } else {
        out := out + [OnMessage(message.finRsvOpcode, message.length, message.buffer)];
        fragmentedMessage := null;
      }
    }

    /** The unmasking loop, writing into the shared message. */
    static method Unmask(message: Message, mask: seq<byte>, content: seq<byte>)
      requires |mask| == 4
      modifies message`buffer
      ensures message.buffer == old(message.buffer) + Masked(content, mask)
      ensures forall c, i :: 0 <= c < |content| && 0 <= i < 8 ==>
                (Bit(message.buffer[|old(message.buffer)| + c], i) <==> Bit(content[c], i) != Bit(mask[c % 4], i))
    {
      var c := 0;
      while c < |content|
        invariant c <= |content|
        invariant message.buffer == old(message.buffer) + Masked(content, mask)[..c]
      {
        message.buffer := message.buffer + [Xor(content[c], mask[c % 4])];
        c := c + 1;
      }
      assert Masked(content, mask)[..c] == Masked(content, mask);
      forall c, i | 0 <= c < |content| && 0 <= i < 8
        ensures Bit(Masked(content, mask)[c], i) <==> Bit(content[c], i) != Bit(mask[c % 4], i)
      {
        MaskedBit(content, mask, c, i);
      }
    }
  }

  lemma Distribute(part: nat, digit: nat, scale: nat)
    ensures part * (256 * scale) + digit * scale == (part * 256 + digit) * scale
  {
  }
}
