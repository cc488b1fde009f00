/** Frames as bytes: the layout of section 5.2 of RFC 6455 and its masking (section 5.3). */
module WebSocketFraming {

  type byte = x: int | 0 <= x < 256

  const SIZE_T := 0x1_0000_0000_0000_0000

  /** The three length forms: in the second byte, in two more bytes, in eight more bytes. */
  datatype Form = Short | Medium | Long

  predicate Fits(form: Form, length: nat) {
    match form
    case Short => length < 126
    case Medium => length < 0x1_0000
    case Long => length < SIZE_T
  }

  function Shortest(length: nat): (form: Form)
    ensures length < SIZE_T ==> Fits(form, length)
  {
    if length < 126 then Short else if length <= 0xffff then Medium else Long
  }

  /** Exclusive or of the low k bits. */
  function XorBits(a: nat, b: nat, k: nat): (x: nat)
    ensures x < Pow2(k)
  {
    if k == 0 then 0 else 2 * XorBits(a / 2, b / 2, k - 1) + if a % 2 == b % 2 then 0 else 1
  }

  function Pow2(k: nat): (p: nat)
    ensures p > 0
  {
    if k == 0 then 1 else 2 * Pow2(k - 1)
  }

  function Xor(a: byte, b: byte): byte {
    EightBits();
    XorBits(a, b, 8)
  }

  lemma EightBits()
    ensures Pow2(8) == 256
  {
    assert Pow2(4) == 16;
  }

  lemma {:induction false} XorBitsTwice(a: nat, b: nat, k: nat)
    requires a < Pow2(k)
    ensures XorBits(XorBits(a, b, k), b, k) == a
  {
    if k > 0 {
      var x := XorBits(a, b, k);
      Halved(XorBits(a / 2, b / 2, k - 1), if a % 2 == b % 2 then 0 else 1);
      XorBitsTwice(a / 2, b / 2, k - 1);
      assert x / 2 == XorBits(a / 2, b / 2, k - 1);
    }
  }

  lemma Halved(h: nat, bit: nat)
    requires bit < 2
    ensures (2 * h + bit) / 2 == h && (2 * h + bit) % 2 == bit
  {
  }

  function Bit(n: nat, i: nat): bool { if i == 0 then n % 2 == 1 else Bit(n / 2, i - 1) }

  /** A bit of the result is set exactly when the two operands differ there. */
  lemma {:induction false} XorBit(a: nat, b: nat, k: nat, i: nat)
    requires i < k
    ensures Bit(XorBits(a, b, k), i) <==> Bit(a, i) != Bit(b, i)
  {
    Halved(XorBits(a / 2, b / 2, k - 1), if a % 2 == b % 2 then 0 else 1);
    if i > 0 {
      XorBit(a / 2, b / 2, k - 1, i - 1);
    }
  }

  lemma XorTwice(a: byte, b: byte)
    ensures Xor(Xor(a, b), b) == a
  {
    EightBits();
    XorBitsTwice(a, b, 8);
  }

  function Masked(payload: seq<byte>, mask: seq<byte>): (m: seq<byte>)
    requires |mask| == 4
    ensures |m| == |payload|
  {
    seq(|payload|, c requires 0 <= c < |payload| => Xor(payload[c], mask[c % 4]))
  }

  lemma UnmaskMasked(payload: seq<byte>, mask: seq<byte>)
    requires |mask| == 4
    ensures Masked(Masked(payload, mask), mask) == payload
  {
    forall c | 0 <= c < |payload| ensures Masked(Masked(payload, mask), mask)[c] == payload[c] {
      XorTwice(payload[c], mask[c % 4]);
    }
  }

  /** n shifted right by a number of whole bytes. */
  function Shr(n: nat, bytes: nat): nat {
    if bytes == 0 then n else Shr(n, bytes - 1) / 256
  }

  function Pow256(k: nat): (p: nat)
    ensures p > 0
  {
    if k == 0 then 1 else 256 * Pow256(k - 1)
  }

  /** The low k bytes of n, most significant first. */
  function BigEndian(n: nat, k: nat): (b: seq<byte>)
    ensures |b| == k
  {
    if k == 0 then [] else BigEndian(n / 256, k - 1) + [n % 256]
  }

  lemma {:induction false} ShrOfQuotient(n: nat, bytes: nat)
    ensures Shr(n / 256, bytes) == Shr(n, bytes + 1)
  {
    if bytes > 0 {
      ShrOfQuotient(n, bytes - 1);
    }
  }

  /** Byte i of k is n shifted right by the k - 1 - i bytes after it, cut to eight bits. */
  lemma {:induction false} BigEndianAt(n: nat, k: nat, i: nat)
    requires i < k
    ensures BigEndian(n, k)[i] == Shr(n, k - 1 - i) % 256
  {
    if i < k - 1 {
      BigEndianAt(n / 256, k - 1, i);
      ShrOfQuotient(n, k - 2 - i);
    }
  }

  function Value(b: seq<byte>): nat {
    if b == [] then 0 else Value(b[..|b| - 1]) * 256 + b[|b| - 1]
  }

  lemma {:induction false} ValueOfBigEndian(n: nat, k: nat)
    requires n < Pow256(k)
    ensures Value(BigEndian(n, k)) == n
  {
    if k > 0 {
      ValueOfBigEndian(n / 256, k - 1);
      assert BigEndian(n, k)[..k - 1] == BigEndian(n / 256, k - 1);
    }
  }

  lemma {:induction false} BigEndianOfValue(b: seq<byte>)
    ensures BigEndian(Value(b), |b|) == b && Value(b) < Pow256(|b|)
  {
    if b != [] {
      BigEndianOfValue(b[..|b| - 1]);
      assert b == b[..|b| - 1] + [b[|b| - 1]];
    }
  }

  lemma Powers()
    ensures Pow256(2) == 0x1_0000 && Pow256(8) == SIZE_T
  {
    assert Pow256(4) == 0x1_0000_0000;
  }

  /** The second byte and what extends it; flag is 128 on masked frames. */
  function LengthField(form: Form, length: nat, flag: int): (f: seq<byte>)
    requires Fits(form, length) && flag in {0, 128}
    ensures |f| == LengthSize(form)
  {
    match form
    case Short => [length + flag]
    case Medium => [126 + flag] + BigEndian(length, 2)
    case Long => [127 + flag] + BigEndian(length, 8)
  }

  function LengthSize(form: Form): nat {
    match form
    case Short => 1
    case Medium => 3
    case Long => 9
  }

  /** A masked frame with a chosen length form. */
  function Wire(op: byte, form: Form, payload: seq<byte>, mask: seq<byte>): seq<byte>
    requires Fits(form, |payload|) && |mask| == 4
  {
    [op] + LengthField(form, |payload|, 128) + mask + Masked(payload, mask)
  }

  /** The bytes before the mask: the first one, the length and its extension. */
  function HeaderSize(length: nat): nat {
    if length < 126 then 2 else if length < 0x1_0000 then 4 else 10
  }

  /** The start of a frame as section 5.2 of RFC 6455 lays it out, in the shortest form: the first
      byte, the mask bit with seven bits of length or the code 126 or 127, and for those the length
      in two or eight bytes, most significant first. */
  ghost predicate StartsFrame(message: seq<byte>, op: byte, length: nat, maskBit: int) {
    && |message| >= HeaderSize(length) && message[0] == op
    && message[1] == maskBit * 128 + (if length < 126 then length else if length < 0x1_0000 then 126 else 127)
    && (126 <= length < 0x1_0000 ==> message[2] == length / 256 && message[3] == length % 256)
    && (0x1_0000 <= length ==> forall j :: 2 <= j < 10 ==> message[j] == Shr(length, 9 - j) % 256)
  }

  lemma FieldStarts(length: nat, flag: int, op: byte, rest: seq<byte>)
    requires length < SIZE_T && flag in {0, 128}
    ensures StartsFrame([op] + LengthField(Shortest(length), length, flag) + rest, op, length, flag / 128)
  {
    var field := LengthField(Shortest(length), length, flag);
    var message := [op] + field + rest;
    assert forall i :: 0 <= i < |field| ==> message[1 + i] == field[i];
    if 126 <= length < 0x1_0000 {
      BigEndianAt(length, 2, 0);
      BigEndianAt(length, 2, 1);
      assert field[1..] == BigEndian(length, 2) && message[2] == field[1..][0] && message[3] == field[1..][1];
    } else if 0x1_0000 <= length {
      forall j | 2 <= j < 10 ensures message[j] == Shr(length, 9 - j) % 256 {
        BigEndianAt(length, 8, j - 2);
        assert message[j] == field[1..][j - 2];
      }
    }
  }

  /** Behind the header of h bytes come the four bytes of the mask and then the payload, each bit
      of it inverted exactly where the mask byte whose turn it is has a one (section 5.3). */
  ghost predicate CarriesMasked(message: seq<byte>, h: nat, payload: seq<byte>, mask: seq<byte>) {
    && |mask| == 4 && |message| == h + 4 + |payload|
    && (forall k :: 0 <= k < 4 ==> message[h + k] == mask[k])
    && (forall c, i :: 0 <= c < |payload| && 0 <= i < 8 ==>
          (Bit(message[h + 4 + c], i) <==> Bit(payload[c], i) != Bit(message[h + c % 4], i)))
  }

  lemma MaskedBit(payload: seq<byte>, mask: seq<byte>, c: nat, i: nat)
    requires |mask| == 4 && c < |payload| && i < 8
    ensures Bit(Masked(payload, mask)[c], i) <==> Bit(payload[c], i) != Bit(mask[c % 4], i)
  {
    XorBit(payload[c], mask[c % 4], 8, i);
  }

  /** A frame in the shortest form is what section 5.2 says, byte by byte and bit by bit. */
  lemma WireIsFrame(op: byte, payload: seq<byte>, mask: seq<byte>)
    requires |payload| < SIZE_T && |mask| == 4
    ensures var message := Wire(op, Shortest(|payload|), payload, mask);
            StartsFrame(message, op, |payload|, 1) && CarriesMasked(message, HeaderSize(|payload|), payload, mask)
  {
    var field, h := LengthField(Shortest(|payload|), |payload|, 128), HeaderSize(|payload|);
    var message := Wire(op, Shortest(|payload|), payload, mask);
    FieldStarts(|payload|, 128, op, mask + Masked(payload, mask));
    assert message == [op] + field + (mask + Masked(payload, mask));
    assert forall k :: 0 <= k < 4 ==> message[h + k] == mask[k];
    forall c, i | 0 <= c < |payload| && 0 <= i < 8
      ensures Bit(message[h + 4 + c], i) <==> Bit(payload[c], i) != Bit(message[h + c % 4], i)
    {
      MaskedBit(payload, mask, c, i);
      assert message[h + 4 + c] == Masked(payload, mask)[c] && message[h + c % 4] == mask[c % 4];
    }
  }

  // ---------- The sending side ----------

  /** The bytes Connection::send of client_ws.hpp queues for one message. */
  method ClientFrame(payload: seq<byte>, mask: seq<byte>, op: byte) returns (message: seq<byte>)
    requires |payload| < SIZE_T && |mask| == 4
    ensures message == Wire(op, Shortest(|payload|), payload, mask)
    ensures StartsFrame(message, op, |payload|, 1) && CarriesMasked(message, HeaderSize(|payload|), payload, mask)
  {
    WireIsFrame(op, payload, mask);
    message := [op];
    var field := WriteLength(|payload|, 128);
    message := message + field;
    var c := 0;
    while c < 4
      invariant c <= 4
      invariant message == [op] + field + mask[..c]
    {
      message := message + [mask[c]];
      c := c + 1;
    }
    assert mask[..4] == mask;
    c := 0;
    while c < |payload|
      invariant c <= |payload|
      invariant message == [op] + field + mask + Masked(payload, mask)[..c]
    {
      message := message + [Xor(payload[c], mask[c % 4])];
      c := c + 1;
    }
    assert Masked(payload, mask)[..c] == Masked(payload, mask);
  }

  /** The header Connection::send of server_ws.hpp queues; the payload follows unmasked. */
  method ServerHeader(length: nat, op: byte) returns (header: seq<byte>)
    requires length < SIZE_T
    ensures header == [op] + LengthField(Shortest(length), length, 0)
    ensures StartsFrame(header, op, length, 0) && |header| == HeaderSize(length)
  {
    FieldStarts(length, 0, op, []);
    assert [op] + LengthField(Shortest(length), length, 0) + [] == [op] + LengthField(Shortest(length), length, 0);
    var field := WriteLength(length, 0);
    header := [op] + field;
  }

  /** The branch on the length and the loop that writes its bytes, the same on both sides. */
  method WriteLength(length: nat, flag: int) returns (field: seq<byte>)
    requires length < SIZE_T && flag in {0, 128}
    ensures field == LengthField(Shortest(length), length, flag)
  {
    if length >= 126 {
      var numBytes;
      if length > 0xffff {
        numBytes := 8;
        field := [127 + flag];
      } else {
        numBytes := 2;
        field := [126 + flag];
      }
      ghost var first := field;
      var c := numBytes;
      while c > 0
        invariant 0 <= c <= numBytes
        invariant field == first + BigEndian(Shr(length, c), numBytes - c)
      {
        c := c - 1;
        field := field + [Shr(length, c) % 256];
      }
    } else {
      field := [length + flag];
    }
  }

  /** No other fitting form gives fewer bytes. */
  lemma {:induction false} ShortestIsShortest(length: nat, form: Form)
    requires length < SIZE_T && Fits(form, length)
    ensures |LengthField(Shortest(length), length, 0)| <= |LengthField(form, length, 0)|
    ensures form != Shortest(length) ==> |LengthField(Shortest(length), length, 0)| < |LengthField(form, length, 0)|
  {
  }

  // ---------- The receiving side ----------

  /** What the first bytes of a stream say: too few of them, an unmasked frame, or a length. */
  datatype Header = Partial | Unmasked | Header(op: byte, length: nat, size: nat)

  function ReadHeader(b: seq<byte>): (h: Header)
    ensures h.Header? ==> 2 <= h.size <= |b| && h.length < SIZE_T
  {
    if |b| < 2 then Partial
    else if b[1] < 128 then Unmasked
    else
      var length := b[1] % 128;
      if length == 126 then
        if |b| < 4 then Partial else ValueBound(b[2..4]); Powers(); Header(b[0], Value(b[2..4]), 4)
      else if length == 127 then
        if |b| < 10 then Partial else ValueBound(b[2..10]); Powers(); Header(b[0], Value(b[2..10]), 10)
      else Header(b[0], length, 2)
  }

  lemma ValueBound(b: seq<byte>)
    ensures Value(b) < Pow256(|b|)
  {
    BigEndianOfValue(b);
  }

  lemma HeaderOfWire(op: byte, form: Form, payload: seq<byte>, mask: seq<byte>, rest: seq<byte>)
    requires Fits(form, |payload|) && |mask| == 4
    ensures ReadHeader(Wire(op, form, payload, mask) + rest) == Header(op, |payload|, 1 + LengthSize(form))
  {
    var b, length := Wire(op, form, payload, mask) + rest, |payload|;
    var field := LengthField(form, length, 128);
    assert |field| == LengthSize(form) && b[0] == op;
    assert b[1..1 + |field|] == field;
    assert b[1] == field[0];
    match form
    case Short =>
    case Medium =>
      assert b[2..4] == field[1..3];
      ReadMedium(b, length);
    case Long =>
      assert b[2..10] == field[1..9];
      ReadLong(b, length);
  }

  lemma ReadMedium(b: seq<byte>, length: nat)
    requires |b| >= 4 && b[1] == 254 && b[2..4] == BigEndian(length, 2) && length < 0x1_0000
    ensures ReadHeader(b) == Header(b[0], length, 4)
  {
    Powers();
    ValueOfBigEndian(length, 2);
  }

  lemma ReadLong(b: seq<byte>, length: nat)
    requires |b| >= 10 && b[1] == 255 && b[2..10] == BigEndian(length, 8) && length < SIZE_T
    ensures ReadHeader(b) == Header(b[0], length, 10)
  {
    Powers();
    ValueOfBigEndian(length, 8);
  }

  /** The content behind a header: the mask, then the masked payload. */
  function Content(b: seq<byte>, h: Header): seq<byte>
    requires h.Header? && h.size + 4 + h.length <= |b|
  {
    Masked(b[h.size + 4..h.size + 4 + h.length], b[h.size..h.size + 4])
  }

  lemma ContentOfWire(op: byte, form: Form, payload: seq<byte>, mask: seq<byte>, rest: seq<byte>)
    requires Fits(form, |payload|) && |mask| == 4
    ensures var b := Wire(op, form, payload, mask) + rest; var h := ReadHeader(b);
            && h.Header? && h.size + 4 + h.length <= |b|
            && Content(b, h) == payload && b[h.size + 4 + h.length..] == rest
  {
    HeaderOfWire(op, form, payload, mask, rest);
    var b := Wire(op, form, payload, mask) + rest;
    var s := 1 + LengthSize(form);
    assert b[s..s + 4] == mask;
    assert b[s + 4..s + 4 + |payload|] == Masked(payload, mask);
    UnmaskMasked(payload, mask);
  }

  /** The length form a header was read in, judged by its size. */
  function FormOf(h: Header): Form
    requires h.Header?
  {
    if h.size == 2 then Short else if h.size == 4 then Medium else Long
  }

  lemma HeaderIsField(b: seq<byte>)
    requires ReadHeader(b).Header?
    ensures var h := ReadHeader(b);
            h.op == b[0] && Fits(FormOf(h), h.length) && LengthField(FormOf(h), h.length, 128) == b[1..h.size]
  {
    var h := ReadHeader(b);
    Powers();
    if h.size != 2 {
      BigEndianOfValue(b[2..h.size]);
      assert b[1..h.size] == [b[1]] + b[2..h.size];
    }
  }

  /** And conversely: whatever the server reads as a frame is laid out as one, in some length form
      that fits. The server does not insist on the shortest. */
  lemma ReadIsWire(b: seq<byte>)
    requires var h := ReadHeader(b); h.Header? && h.size + 4 + h.length <= |b|
    ensures var h := ReadHeader(b);
            exists form, mask :: Fits(form, h.length) && |mask| == 4
              && b == Wire(h.op, form, Content(b, h), mask) + b[h.size + 4 + h.length..]
  {
    var h := ReadHeader(b);
    var mask, masked := b[h.size..h.size + 4], b[h.size + 4..h.size + 4 + h.length];
    HeaderIsField(b);
    UnmaskMasked(masked, mask);
    Concatenated(b, h.size, h.size + 4, h.size + 4 + h.length);
    assert b == Wire(h.op, FormOf(h), Content(b, h), mask) + b[h.size + 4 + h.length..];
  }

  lemma Concatenated<T>(s: seq<T>, i: nat, j: nat, k: nat)
    requires 1 <= i <= j <= k <= |s|
    ensures s == [s[0]] + s[1..i] + s[i..j] + s[j..k] + s[k..]
  {
  }
}
