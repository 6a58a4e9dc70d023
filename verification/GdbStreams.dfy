/** What whole streams do to the receiver, told by their bytes alone, and what a frame looks like on the
    wire. */
module GdbStreams {
  import opened Common
  import opened Hex
  import opened GdbPacket
  import opened GdbReceiver

  // ----- the receiver, by the shape of the stream -------------------------------------------------------

  /** A frame whose check digits hold, or whatever they are once acknowledgements are off, returns its body
      and is acknowledged, unless acknowledgements are off. */
  lemma {:induction false} GoodFrame(noack: bool, size: nat, wire: seq<byte>, hi: byte, lo: byte)
    requires Quiet(size, wire) && !Escaping(wire) && (noack || PairValue(hi, lo) == Sum(wire))
    ensures Feed(Receiver(noack, size), Idle, [START] + wire + [END, hi, lo])
      == Outcome(Done(Payload(wire)), if noack then [] else [Reply(ACK)], |wire| + 4)
  {
    FeedFrame(noack, size, wire, hi, lo);
  }

  /** A frame whose check digits do not hold is dropped and asked for again. */
  lemma {:induction false} BadFrame(size: nat, wire: seq<byte>, hi: byte, lo: byte)
    requires Quiet(size, wire) && !Escaping(wire) && PairValue(hi, lo) != Sum(wire)
    ensures Feed(Receiver(false, size), Idle, [START] + wire + [END, hi, lo])
      == Outcome(Idle, [Reply(NACK)], |wire| + 4)
  {
    FeedFrame(false, size, wire, hi, lo);
  }

  /** The packet `g` with the check digits 00. */
  lemma {:induction false} BadFrameExample()
    ensures Feed(Receiver(false, 1024), Idle, [0x24, 0x67, 0x23, 0x30, 0x30]) == Outcome(Idle, [Reply(0x2d)], 5)
  {
    var wire := [0x67];
    var before: seq<byte> := [];
    QuietSnoc(1024, before, 0x67);
    BodySnoc(before, 0x67);
    assert before + [0x67] == wire;
    UnhexIs(0x30);
    PairOfDigits(0x30, 0x30);
    BadFrame(1024, wire, 0x30, 0x30);
    assert [START] + wire + [END, 0x30, 0x30] == [0x24, 0x67, 0x23, 0x30, 0x30];
  }

  /** A start marker in a body starts it over. */
  lemma {:induction false} FrameRestarts(noack: bool, size: nat, wire: seq<byte>)
    requires Quiet(size, wire) && !Escaping(wire)
    ensures Feed(Receiver(noack, size), Idle, [START] + wire + [START])
      == Outcome(Body([]), [], |wire| + 2)
  {
    var f := Receiver(noack, size);
    FeedOne(noack, size, Idle, START);
    FeedBody(noack, size, wire);
    FeedThen(f, Idle, [START], wire);
    FeedThen(f, Idle, [START] + wire, [START]);
    FeedOne(noack, size, Body(wire), START);
  }

  /** The end of transmission, and bytes that start nothing. */
  lemma {:induction false} IdleBytes(noack: bool, size: nat, c: byte)
    ensures Feed(Receiver(noack, size), Idle, [EOT]) == Outcome(Closed, [], 1)
    ensures c != START && c != SOM && c != EOT ==> Feed(Receiver(noack, size), Idle, [c]) == Outcome(Idle, [], 1)
  {
    FeedOne(noack, size, Idle, EOT);
    FeedOne(noack, size, Idle, c);
  }

  /** The bytes of a remote-control packet. */
  predicate Plain(cmd: seq<byte>) {
    forall k | 0 <= k < |cmd| :: cmd[k] != EOT && cmd[k] != SOM && cmd[k] != EOM && cmd[k] != START
  }

  lemma {:induction false} FeedRemote(noack: bool, size: nat, cmd: seq<byte>)
    requires Plain(cmd) && |cmd| <= size
    ensures Feed(Receiver(noack, size), Remote([]), cmd) == Outcome(Remote(cmd), [], |cmd|)
  {
    if cmd != [] {
      var front, c := cmd[..|cmd| - 1], cmd[|cmd| - 1];
      assert cmd == front + [c];
      FeedRemote(noack, size, front);
      FeedSnoc(Receiver(noack, size), Remote([]), front, Remote(front), c, Remote(cmd));
    }
  }

  /** How a remote-control packet ends: handed on whole, started over, given up for a frame, closed, or,
      with no room left, dropped. */
  lemma {:induction false} RemoteEnds(noack: bool, size: nat, cmd: seq<byte>, c: byte)
    requires Plain(cmd) && |cmd| <= size
    ensures var o := Feed(Receiver(noack, size), Idle, [SOM] + cmd + [c]);
      && o.used == |cmd| + 2
      && (c == EOM ==> o.state == Idle && o.effects == [Command(cmd)])
      && (c == SOM ==> o.state == Remote([]) && o.effects == [])
      && (c == START ==> o.state == Body([]) && o.effects == [])
      && (c == EOT ==> o.state == Closed && o.effects == [])
      && (Plain([c]) && |cmd| == size ==> o.state == Idle && o.effects == [])
  {
    RemoteThen(noack, size, cmd, c);
    assert [c][0] == c;
  }

  lemma {:induction false} RemoteThen(noack: bool, size: nat, cmd: seq<byte>, c: byte)
    requires Plain(cmd) && |cmd| <= size
    ensures var (s, e) := Step(noack, size, Remote(cmd), c);
      Feed(Receiver(noack, size), Idle, [SOM] + cmd + [c]) == Outcome(s, Visible(e), |cmd| + 2)
  {
    var f := Receiver(noack, size);
    FeedOne(noack, size, Idle, SOM);
    FeedRemote(noack, size, cmd);
    FeedThen(f, Idle, [SOM], cmd);
    FeedThen(f, Idle, [SOM] + cmd, [c]);
    FeedOne(noack, size, Remote(cmd), c);
  }

  // ----- the frame, by its bytes ----------------------------------------------------------------------------

  /** The plain sum of the bytes, last one first. */
  function Total(wire: seq<byte>): nat { if wire == [] then 0 else wire[0] + Total(wire[1..]) }

  lemma {:induction false} TotalSnoc(wire: seq<byte>, c: byte)
    ensures Total(wire + [c]) == Total(wire) + c
  {
    if wire != [] {
      TotalSnoc(wire[1..], c);
      assert (wire + [c])[1..] == wire[1..] + [c];
    } else {
      assert wire + [c] == [c];
    }
  }

  /** The checksum is the sum of the bytes, modulo 256. */
  lemma {:induction false} SumIsTotal(wire: seq<byte>)
    ensures Sum(wire) == Total(wire) % 256
  {
    if wire != [] {
      var front, c := wire[..|wire| - 1], wire[|wire| - 1];
      assert wire == front + [c];
      SumIsTotal(front);
      SumSnoc(front, c);
      TotalSnoc(front, c);
      ModSum(Total(front), c);
    }
  }

  lemma {:induction false} ModSum(t: nat, c: byte)
    ensures (t % 256 + c) % 256 == (t + c) % 256
  {
    var x := t % 256 + c;
    Mod256(t + c, t / 256 + x / 256, x % 256);
  }

  lemma {:induction false} Mod256(x: nat, q: nat, r: nat)
    requires x == 256 * q + r && r < 256
    ensures x % 256 == r
  {
  }

  /** Just bit 5 is flipped. */
  lemma {:induction false} FlipBit5(c: byte)
    ensures Flip(c) % 32 == c % 32 && Flip(c) / 64 == c / 64 && Flip(c) / 32 % 2 != c / 32 % 2
  {
    var h, m, l := c / 64, c / 32 % 2, c % 32;
    assert c == 64 * h + 32 * m + l;
  }

  /** The bytes that have to be escaped: `#`, `$`, `*` and `}`. */
  function Specials(data: seq<byte>): nat {
    if data == [] then 0
    else
      var c := data[|data| - 1];
      Specials(data[..|data| - 1]) + if c == 0x23 || c == 0x24 || c == 0x2a || c == 0x7d then 1 else 0
  }

  /** An escaped body has none of `$`, `#` and `*` in it, and one byte more for each that had to be
      escaped; bytes that did not are as they were. */
  lemma {:induction false} EscapedBody(data: seq<byte>)
    ensures forall k | 0 <= k < |EscapeAll(data)| :: EscapeAll(data)[k] !in {0x23, 0x24, 0x2a}
    ensures |EscapeAll(data)| == |data| + Specials(data)
    ensures Specials(data) == 0 ==> EscapeAll(data) == data
  {
    if data != [] {
      var front, c := data[..|data| - 1], data[|data| - 1];
      EscapedBody(front);
      EscapedByte(EscapeAll(front), c);
      assert data == front + [c];
    }
  }

  lemma {:induction false} EscapedByte(body: seq<byte>, c: byte)
    requires forall k | 0 <= k < |body| :: body[k] !in {0x23, 0x24, 0x2a}
    ensures forall k | 0 <= k < |body + EscapeByte(c)| :: (body + EscapeByte(c))[k] !in {0x23, 0x24, 0x2a}
    ensures c in {0x23, 0x24, 0x2a, 0x7d} ==> |EscapeByte(c)| == 2
    ensures c !in {0x23, 0x24, 0x2a, 0x7d} ==> EscapeByte(c) == [c]
  {
    FlipBit5(c);
  }

  /** A frame: the marker, the escaped body, the marker, and the sum as two upper-case digits. */
  lemma {:induction false} FrameLooks(data: seq<byte>)
    ensures var body, n, sum := EscapeAll(data), |EscapeAll(data)|, Total(EscapeAll(data)) % 256;
      && |Frame(data)| == n + 4 && Frame(data)[0] == 0x24 && Frame(data)[1..n + 1] == body && Frame(data)[n + 1] == 0x23
      && Frame(data)[n + 2] == (if sum / 16 < 10 then 0x30 + sum / 16 else 0x41 + sum / 16 - 10)
      && Frame(data)[n + 3] == (if sum % 16 < 10 then 0x30 + sum % 16 else 0x41 + sum % 16 - 10)
  {
    var body := EscapeAll(data);
    SumIsTotal(body);
    FrameIs(data, body, ByteHex(Sum(body))[0], ByteHex(Sum(body))[1]);
    HexIs(Sum(body) / 16);
    HexIs(Sum(body) % 16);
  }

  /** `OK` goes out as `$OK#9A`. */
  lemma {:induction false} FrameOfOk(data: seq<byte>)
    requires data == [0x4f, 0x4b]
    ensures Frame(data) == [0x24, 0x4f, 0x4b, 0x23, 0x39, 0x41]
  {
    TwoPlain(data);
    EscapedBody(data);
    FrameLooks(data);
    assert Frame(data)[1..3] == data;
  }

  lemma {:induction false} TwoPlain(data: seq<byte>)
    requires data == [0x4f, 0x4b]
    ensures Specials(data) == 0 && Total(data) == 0x9a
  {
    var front, rest := data[..1], data[1..];
    assert Specials(front[..0]) == 0 && Specials(front) == 0;
    assert Total(rest[1..]) == 0 && Total(rest) == 0x4b;
  }

  /** The protocol's characters. */
  lemma {:induction false} Characters()
    ensures START == '$' as int && END == '#' as int && ESCAPE == '}' as int && RUNLENGTH == '*' as int
    ensures ACK == '+' as int && NACK == '-' as int && SOM == '!' as int && EOM == '#' as int && EOT == 4
    ensures REMOTE_RESP == '&' as int && REMOTE_EOM == '#' as int
  {
  }
}
