/** Sending packets, with retransmission, and the chunked `qXfer` replies built on them. */
module GdbSender {
  import opened Common
  import opened Hex
  import opened GdbPacket

  lemma {:induction false} EscapeAppend(a: seq<byte>, b: seq<byte>)
    ensures EscapeAll(a + b) == EscapeAll(a) + EscapeAll(b)
  {
    if b == [] {
      assert a + b == a;
    } else {
      var front, c := b[..|b| - 1], b[|b| - 1];
      SplitLast(a, b);
      EscapeAppend(a, front);
      EscapeSnoc(a + b, a + front, c);
      EscapeSnoc(b, front, c);
      Regroup(EscapeAll(a), EscapeAll(front), EscapeByte(c));
    }
  }

  lemma {:induction false} SplitLast(a: seq<byte>, b: seq<byte>)
    requires b != []
    ensures b == b[..|b| - 1] + [b[|b| - 1]] && a + b == a + b[..|b| - 1] + [b[|b| - 1]]
  {
  }

  lemma {:induction false} Regroup(x: seq<byte>, y: seq<byte>, z: seq<byte>)
    ensures x + y + z == x + (y + z)
  {
  }

  lemma {:induction false} EscapeSnoc(data: seq<byte>, front: seq<byte>, c: byte)
    requires data == front + [c]
    ensures EscapeAll(data) == EscapeAll(front) + EscapeByte(c)
  {
    assert data[..|data| - 1] == front;
  }

  /** `gdb_next_char`: what goes out, and what is added to the checksum of what went before. */
  method NextChar(value: byte, csum0: byte, ghost sent: seq<byte>) returns (wire: seq<byte>, csum: byte)
    requires csum0 == Sum(sent)
    ensures wire == EscapeByte(value) && csum == Sum(sent + wire)
  {
    if value == START || value == END || value == ESCAPE || value == RUNLENGTH {
      wire := [ESCAPE, Flip(value)];
      csum := Plus(csum0, Plus(ESCAPE, Flip(value)));
      SumOfPair(sent, ESCAPE, Flip(value));
    } else {
      wire := [value];
      csum := Plus(csum0, value);
      SumSnoc(sent, value);
    }
  }

  lemma {:induction false} SumOfPair(w: seq<byte>, x: byte, y: byte)
    ensures Sum(w + [x, y]) == Plus(Sum(w), Plus(x, y))
  {
    SumOneByOne(w, x, y);
    PlusAssoc(Sum(w), x, y);
  }

  lemma {:induction false} SumOneByOne(w: seq<byte>, x: byte, y: byte)
    ensures Sum(w + [x, y]) == Plus(Plus(Sum(w), x), y)
  {
    SumSnoc(w, x);
    SumSnoc(w + [x], y);
    assert w + [x, y] == w + [x] + [y];
  }

  lemma {:induction false} PlusAssoc(x: byte, y: byte, z: byte)
    ensures Plus(Plus(x, y), z) == Plus(x, Plus(y, z))
  {
    PlusIs(x, y);
    PlusIs(y, z);
    PlusIs(Plus(x, y), z);
    PlusIs(x, Plus(y, z));
  }

  lemma {:induction false} PlusIs(x: byte, y: byte)
    ensures Plus(x, y) == if x + y < 256 then x + y else x + y - 256
  {
  }

  /** `gdb_next_char` over a buffer, carrying the running checksum. */
  method PutChars(data: seq<byte>, csum0: byte, ghost sent: seq<byte>) returns (wire: seq<byte>, csum: byte)
    requires csum0 == Sum(sent)
    ensures wire == EscapeAll(data) && csum == Sum(sent + wire)
  {
    wire, csum := [], csum0;
    assert sent + [] == sent;
    for i := 0 to |data|
      invariant wire == EscapeAll(data[..i]) && csum == Sum(sent + wire)
    {
      var w;
      w, csum := NextChar(data[i], csum, sent + wire);
      assert data[..i + 1][..i] == data[..i];
      assert sent + wire + w == sent + (wire + w);
      wire := wire + w;
    }
    assert data[..|data|] == data;
  }

  function Copies(frame: seq<byte>, n: nat): seq<byte> {
    if n == 0 then [] else Copies(frame, n - 1) + frame
  }

  /** One pass of the retry loop: the checksum covers both halves. */
  method PutFrame(packet1: seq<byte>, packet2: seq<byte>) returns (wire: seq<byte>)
    ensures wire == Frame(packet1 + packet2)
  {
    var body1, csum1 := PutChars(packet1, 0, []);
    assert [] + body1 == body1;
    var body2, csum := PutChars(packet2, csum1, body1);
    EscapeAppend(packet1, packet2);
    Regroup([START], body1, body2);
    wire := [START] + body1 + body2 + [END] + [HexDigit(csum / 16), HexDigit(csum % 16)];
  }

  /** `gdb_putpacket2` (and, with an empty second half, `gdb_putpacket`): send, and send again
      up to three times until the peer acknowledges.  `replies(k)` is what comes back after the
      k-th transmission, -1 for a timeout. */
  method PutPacket2(packet1: seq<byte>, packet2: seq<byte>, noack: bool, replies: nat -> int)
    returns (wire: seq<byte>, sends: nat)
    ensures wire == Copies(Frame(packet1 + packet2), sends)
    ensures 1 <= sends <= 4 && (noack ==> sends == 1)
    ensures forall k | 0 <= k < sends - 1 :: replies(k) != ACK
    ensures !noack && sends < 4 ==> replies(sends - 1) == ACK
  {
    var tries := 0;
    wire := PutFrame(packet1, packet2);
    sends := 1;
    while !noack && replies(sends - 1) != ACK && tries < 3
      invariant 1 <= sends <= 4 && tries == sends - 1 && (noack ==> sends == 1)
      invariant wire == Copies(Frame(packet1 + packet2), sends)
      invariant forall k | 0 <= k < sends - 1 :: replies(k) != ACK
      decreases 3 - tries
    {
      tries := tries + 1;
      var frame := PutFrame(packet1, packet2);
      wire := wire + frame;
      sends := sends + 1;
    }
  }

  lemma {:induction false} CopiesFront(frame: seq<byte>, n: nat)
    requires n > 0
    ensures Copies(frame, n) == frame + Copies(frame, n - 1)
  {
    if n > 1 { CopiesFront(frame, n - 1); }
  }

  /** However often the sender had to repeat itself, what it put on the wire is received: the
      first frame gives the two halves joined, on any split. */
  lemma {:induction false} SentIsReceived(noack: bool, size: nat, packet1: seq<byte>, packet2: seq<byte>, sends: nat)
    requires |packet1| + |packet2| < size && sends > 0
    ensures var data := packet1 + packet2;
      Feed(Receiver(noack, size), Idle, Copies(Frame(data), sends))
        == Outcome(Done(data), if noack then [] else [Reply(ACK)], |Frame(data)|)
  {
    var data := packet1 + packet2;
    CopiesFront(Frame(data), sends);
    FramingRoundTrip(noack, size, data, Copies(Frame(data), sends - 1));
  }

  // ----- chunked qXfer replies -----------------------------------------------------------------

  const LETTER_M: byte := 0x6d
  const LETTER_L: byte := 0x6c
  const E01: seq<byte> := [0x45, 0x30, 0x31]

  datatype Range = BadRange | Range(addr: nat, len: nat)

  /** `handle_q_string_reply`: the packet sent for a request of `len` bytes at `addr`. */
  function QStringReply(reply: seq<byte>, param: Range): (packet: seq<byte>) {
    if param.BadRange? || param.addr > |reply| then E01
    else if param.addr == |reply| then [LETTER_L]
    else
      var left := |reply| - param.addr;
      var n := if left > param.len then param.len else left;
      [LETTER_M] + reply[param.addr..param.addr + n]
  }

  /** Which of the three packets it is, and of a chunk how long: as long as asked for, or up to the end. */
  lemma {:induction false} QStringReplyIs(reply: seq<byte>, param: Range)
    ensures var packet := QStringReply(reply, param);
      && (param.BadRange? || param.addr > |reply| ==>
            |packet| == 3 && packet[0] == 'E' as int && packet[1] == '0' as int && packet[2] == '1' as int)
      && (param.Range? && param.addr == |reply| ==> |packet| == 1 && packet[0] == 'l' as int)
      && (param.Range? && param.addr < |reply| ==>
            && |packet| == 1 + Min(param.len, |reply| - param.addr) && packet[0] == 'm' as int
            && forall k | 1 <= k < |packet| :: packet[k] == reply[param.addr + k - 1])
  {
  }

  /** A client that starts at 0, asks for any positive amount each time (as long as its buffer of
      `size` holds what that can bring) and advances by what it got. Every reply goes through the framing
      layer. It always ends, at 'l', with the whole reply. */
  method FetchAll(reply: seq<byte>, lens: nat -> nat, noack: bool, size: nat) returns (got: seq<byte>, requests: nat)
    requires forall i: nat :: 0 < lens(i) && (if lens(i) < |reply| then lens(i) else |reply|) + 1 < size
    ensures got == reply && requests <= |reply| + 1
  {
    got, requests := [], 0;
    while true
      invariant |got| <= |reply| && got == reply[..|got|] && requests <= |got|
      decreases |reply| - |got|
    {
      var packet := Exchange(QStringReply(reply, Range(|got|, lens(requests))), noack, size);
      requests := requests + 1;
      if packet[0] == LETTER_L {
        return;
      }
      got := got + packet[1..];
    }
  }

  /** One reply packet on its way: framed by the sender, unframed by the receiver. */
  method Exchange(packet: seq<byte>, noack: bool, size: nat) returns (received: seq<byte>)
    requires 0 < |packet| < size
    ensures received == packet
  {
    var wire := PutFrame(packet[..1], packet[1..]);
    assert packet[..1] + packet[1..] == packet;
    FeedFrameAlone(noack, size, packet);
    var o := Feed(Receiver(noack, size), Idle, wire);
    received := o.state.packet;
  }
}
