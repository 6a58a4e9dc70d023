/** The auxiliary UART's transmit path: USB packets are gathered in one of two buffers while DMA sends
    the other. */
module UartTx {
  import opened Common

  /** The sizes a build chooses: of each buffer, whose fill count is 8 bits wide, and of a packet. */
  datatype Sizes = Sizes(buffer: nat, packet: nat)

  predicate Possible(z: Sizes) { 1 <= z.buffer <= 255 && 1 <= z.packet }

  datatype Dma = Off | On(buf: nat, count: nat, pos: nat)

  /** `wire` is what DMA has put on the line; `received` is all that came from USB. */
  datatype Uart = Uart(bufs: seq<seq<byte>>, index: nat, consumed: nat, complete: bool, nak: bool, dma: Dma,
                       wire: seq<byte>, received: seq<byte>)

  predicate Shaped(z: Sizes, u: Uart) {
    && |u.bufs| == 2 && |u.bufs[0]| == z.buffer && |u.bufs[1]| == z.buffer && u.index < 2 && u.consumed <= z.buffer
    && (u.dma.On? ==> u.dma.buf < 2 && u.dma.pos <= u.dma.count <= z.buffer)
  }

  function Fresh(z: Sizes): (u: Uart)
    ensures Shaped(z, u)
  {
    Uart([seq(z.buffer, _ => 0), seq(z.buffer, _ => 0)], 0, 0, true, false, Off, [], [])
  }

  /** `packet` laid into a buffer at `at`. */
  function Laid(buf: seq<byte>, at: nat, packet: seq<byte>): (r: seq<byte>)
    requires at + |packet| <= |buf|
    ensures |r| == |buf|
    ensures r[..at] == buf[..at] && r[..at + |packet|] == buf[..at] + packet
  {
    buf[..at] + packet + buf[at + |packet|..]
  }

  /** Give DMA the buffer being filled and start on the other. */
  function Switch(z: Sizes, u: Uart): (r: Uart)
    requires Shaped(z, u)
    ensures Shaped(z, r)
  {
    u.(dma := On(u.index, u.consumed, 0), consumed := 0, index := 1 - u.index)
  }

  /** The packet is laid behind what has been gathered. */
  function Gathered(z: Sizes, u: Uart, packet: seq<byte>): (r: Uart)
    requires Shaped(z, u) && u.consumed + |packet| <= z.buffer
    ensures Shaped(z, r)
  {
    u.(bufs := u.bufs[u.index := Laid(u.bufs[u.index], u.consumed, packet)], received := u.received + packet)
  }

  /** It is counted, and sent off if the line is idle. */
  function Counted(z: Sizes, u: Uart, len: nat): (r: Uart)
    requires Shaped(z, u) && u.consumed + len <= z.buffer
    ensures Shaped(z, r)
  {
    var more := u.(consumed := u.consumed + len);
    if len > 0 && u.complete then Switch(z, more.(complete := false)) else more
  }

  /** A packet from USB that fits what is left of the buffer. */
  function OnPacket(z: Sizes, u: Uart, packet: seq<byte>): (r: Uart)
    requires Shaped(z, u) && u.consumed + |packet| <= z.buffer
    ensures Shaped(z, r)
  {
    var sent := Counted(z, Gathered(z, u, packet), |packet|);
    if z.buffer - sent.consumed < z.packet then sent.(nak := true) else sent
  }

  /** DMA moves one byte. */
  function OnByte(z: Sizes, u: Uart): (r: Uart)
    requires Shaped(z, u) && u.dma.On? && u.dma.pos < u.dma.count
    ensures Shaped(z, r)
  {
    u.(dma := u.dma.(pos := u.dma.pos + 1), wire := u.wire + [u.bufs[u.dma.buf][u.dma.pos]])
  }

  /** The DMA interrupt, once it has moved all it was given. */
  function OnDone(z: Sizes, u: Uart): (r: Uart)
    requires Shaped(z, u)
    ensures Shaped(z, r)
  {
    if u.consumed > 0 then Switch(z, u.(dma := Off)).(nak := false) else u.(dma := Off, complete := true)
  }

  // ----- the invariant, where a packet fits an empty buffer ---------------------------------------------

  /** Bytes DMA still has to move. */
  function Sending(z: Sizes, u: Uart): seq<byte>
    requires Shaped(z, u)
  {
    if u.dma.On? then u.bufs[u.dma.buf][u.dma.pos..u.dma.count] else []
  }

  function Filling(z: Sizes, u: Uart): seq<byte>
    requires Shaped(z, u)
  {
    u.bufs[u.index][..u.consumed]
  }

  /** DMA never has the buffer being filled; an idle line means nothing is waiting; the endpoint
      refuses packets exactly when one might not fit; and no byte is lost, repeated or reordered. */
  predicate Inv(z: Sizes, u: Uart) {
    && Shaped(z, u)
    && u.complete == u.dma.Off? && (u.complete ==> u.consumed == 0)
    && u.nak == (u.consumed + z.packet > z.buffer)
    && (u.dma.On? ==> u.dma.buf == 1 - u.index && u.dma.count > 0)
    && u.wire + Sending(z, u) + Filling(z, u) == u.received
  }

  lemma {:induction false} FreshInv(z: Sizes)
    requires z.packet <= z.buffer
    ensures Inv(z, Fresh(z))
  {
  }

  lemma {:induction false} SwitchKeeps(z: Sizes, u: Uart)
    requires Shaped(z, u) && u.consumed > 0 && u.dma.Off? && !u.complete && u.wire + Filling(z, u) == u.received
    requires z.packet <= z.buffer
    ensures Inv(z, Switch(z, u).(nak := false))
  {
    var v := Switch(z, u).(nak := false);
    assert Sending(z, v) == Filling(z, u) && Filling(z, v) == [];
    assert u.wire + Filling(z, u) + [] == u.wire + Filling(z, u);
  }

  lemma {:induction false} OnPacketKeeps(z: Sizes, u: Uart, packet: seq<byte>)
    requires Inv(z, u) && !u.nak && |packet| <= z.packet <= z.buffer
    ensures u.consumed + |packet| <= z.buffer && Inv(z, OnPacket(z, u, packet))
  {
    var filled := u.(bufs := u.bufs[u.index := Laid(u.bufs[u.index], u.consumed, packet)],
                     consumed := u.consumed + |packet|, received := u.received + packet);
    assert Filling(z, filled) == Filling(z, u) + packet;
    assert Sending(z, filled) == Sending(z, u);
    assert u.wire + Sending(z, u) + (Filling(z, u) + packet) == u.received + packet;
    if packet != [] && u.complete {
      assert u.wire + [] + Filling(z, filled) == u.wire + Filling(z, filled);
      SwitchKeeps(z, filled.(complete := false));
      assert Switch(z, filled.(complete := false)).(nak := false) == Switch(z, filled.(complete := false));
    }
  }

  lemma {:induction false} OnByteKeeps(z: Sizes, u: Uart)
    requires Inv(z, u) && u.dma.On? && u.dma.pos < u.dma.count
    ensures Inv(z, OnByte(z, u))
  {
    var v := OnByte(z, u);
    assert Sending(z, u) == [u.bufs[u.dma.buf][u.dma.pos]] + Sending(z, v);
    assert v.wire + Sending(z, v) == u.wire + Sending(z, u);
  }

  lemma {:induction false} OnDoneKeeps(z: Sizes, u: Uart)
    requires Inv(z, u) && u.dma.On? && u.dma.pos == u.dma.count && z.packet <= z.buffer
    ensures Inv(z, OnDone(z, u)) && !OnDone(z, u).nak
  {
    assert Sending(z, u) == [];
    assert u.wire + [] + Filling(z, u) == u.wire + Filling(z, u);
    if u.consumed > 0 {
      var w := u.(dma := Off);
      assert Filling(z, w) == Filling(z, u);
      SwitchKeeps(z, w);
    } else {
      assert Filling(z, OnDone(z, u)) == [];
    }
  }

  // ----- runs, for any sizes -------------------------------------------------------------------------------

  datatype Step = Packet(data: seq<byte>) | Byte | Done

  /** What can happen: a packet unless refused, a DMA byte, a DMA interrupt. */
  predicate Enabled(z: Sizes, u: Uart, s: Step) {
    match s
    case Packet(data) => !u.nak && |data| <= z.packet
    case Byte => u.dma.On? && u.dma.pos < u.dma.count
    case Done => u.dma.On? && u.dma.pos == u.dma.count
  }

  /** The buffer has room for it; otherwise the USB stack would write past its end. */
  predicate Fits(z: Sizes, u: Uart, s: Step) { s.Packet? ==> u.consumed + |s.data| <= z.buffer }

  function Next(z: Sizes, u: Uart, s: Step): (r: Uart)
    requires Shaped(z, u) && Enabled(z, u, s) && Fits(z, u, s)
    ensures Shaped(z, r)
  {
    match s
    case Packet(data) => OnPacket(z, u, data)
    case Byte => OnByte(z, u)
    case Done => OnDone(z, u)
  }

  lemma {:induction false} NextKeeps(z: Sizes, u: Uart, s: Step)
    requires Inv(z, u) && Enabled(z, u, s) && z.packet <= z.buffer
    ensures Fits(z, u, s) && Inv(z, Next(z, u, s))
  {
    match s
    case Packet(data) => OnPacketKeeps(z, u, data);
    case Byte => OnByteKeeps(z, u);
    case Done => OnDoneKeeps(z, u);
  }

  /** `u` is reached from `from` by the steps. */
  predicate Reaches(z: Sizes, from: Uart, steps: seq<Step>, u: Uart)
    requires Shaped(z, from)
    decreases |steps|
  {
    if steps == [] then u == from
    else Enabled(z, from, steps[0]) && Fits(z, from, steps[0]) && Reaches(z, Next(z, from, steps[0]), steps[1..], u)
  }

  /** In every reachable state what is on the line is a prefix of what was received, and what is
      missing is in the two buffers, in order. */
  lemma {:induction false} Reachable(z: Sizes, from: Uart, steps: seq<Step>, u: Uart)
    requires z.packet <= z.buffer && Inv(z, from) && Reaches(z, from, steps, u)
    ensures Inv(z, u) && u.wire <= u.received
    decreases |steps|
  {
    if steps != [] {
      NextKeeps(z, from, steps[0]);
      Reachable(z, Next(z, from, steps[0]), steps[1..], u);
    } else {
      assert u.received == u.wire + (Sending(z, u) + Filling(z, u));
    }
  }

  /** The data of the packets among the steps, in order. */
  function FromUsb(steps: seq<Step>): seq<byte> {
    if steps == [] then []
    else (if steps[0].Packet? then steps[0].data else []) + FromUsb(steps[1..])
  }

  /** What was received is what the packets of the run brought: no packet that is taken is lost, cut or
      repeated. For any sizes. */
  lemma {:induction false} ReceivedIs(z: Sizes, from: Uart, steps: seq<Step>, u: Uart)
    requires Shaped(z, from) && Reaches(z, from, steps, u)
    ensures Shaped(z, u) && u.received == from.received + FromUsb(steps)
    decreases |steps|
  {
    if steps != [] {
      var next := Next(z, from, steps[0]);
      StepReceives(z, from, steps[0]);
      ReceivedIs(z, next, steps[1..], u);
      Regroup(from.received, if steps[0].Packet? then steps[0].data else [], FromUsb(steps[1..]));
    }
  }

  lemma {:induction false} StepReceives(z: Sizes, u: Uart, s: Step)
    requires Shaped(z, u) && Enabled(z, u, s) && Fits(z, u, s)
    ensures Next(z, u, s).received == u.received + if s.Packet? then s.data else []
  {
  }

  lemma {:induction false} Regroup(x: seq<byte>, y: seq<byte>, z: seq<byte>)
    ensures x + y + z == x + (y + z)
  {
  }

  // ----- nothing is stuck ------------------------------------------------------------------------------------

  /** Work left: every DMA byte and every interrupt makes it smaller. */
  function Work(z: Sizes, u: Uart): nat
    requires Shaped(z, u)
  {
    2 * u.consumed + |Sending(z, u)| + if u.dma.On? then 1 else 0
  }

  /** Steps of DMA alone. */
  predicate NoPackets(steps: seq<Step>) { forall s | s in steps :: !s.Packet? }

  /** From any state DMA alone, with no further packet, puts everything received on the line and leaves
      the endpoint taking packets: a refusal never outlasts the transfers in progress. */
  lemma {:induction false} Drains(z: Sizes, u: Uart) returns (steps: seq<Step>, v: Uart)
    requires Inv(z, u) && z.packet <= z.buffer
    ensures NoPackets(steps) && Reaches(z, u, steps, v)
    ensures Inv(z, v) && v.complete && !v.nak && v.received == u.received && v.wire == v.received
    decreases Work(z, u)
  {
    if u.dma.Off? {
      steps, v := [], u;
    } else {
      var s := if u.dma.pos < u.dma.count then Byte else Done;
      NextKeeps(z, u, s);
      var rest;
      rest, v := Drains(z, Next(z, u, s));
      steps := [s] + rest;
      assert steps[1..] == rest;
    }
  }

  /** After any run from the start the line carries just what USB sent so far, up to a point; and once DMA
      has drained the buffers, all of it. */
  lemma {:induction false} Delivers(z: Sizes, steps: seq<Step>, u: Uart) returns (rest: seq<Step>, v: Uart)
    requires z.packet <= z.buffer && Reaches(z, Fresh(z), steps, u)
    ensures Shaped(z, u) && u.wire <= FromUsb(steps)
    ensures NoPackets(rest) && Reaches(z, u, rest, v) && v.wire == FromUsb(steps) && !v.nak
  {
    FreshInv(z);
    Reachable(z, Fresh(z), steps, u);
    ReceivedIs(z, Fresh(z), steps, u);
    assert [] + FromUsb(steps) == FromUsb(steps);
    rest, v := Drains(z, u);
  }

  // ----- exactly when ------------------------------------------------------------------------------------------

  ghost predicate CanReach(z: Sizes, u: Uart) { exists steps :: Reaches(z, Fresh(z), steps, u) }

  /** Every packet the endpoint takes, in any run, fits the buffer. */
  ghost predicate NeverOverruns(z: Sizes) {
    forall u, s | CanReach(z, u) && Shaped(z, u) && Enabled(z, u, s) :: Fits(z, u, s)
  }

  /** DMA alone can bring the endpoint to take packets again. */
  ghost predicate Recovers(z: Sizes, u: Uart)
    requires Shaped(z, u)
  {
    exists steps, v :: NoPackets(steps) && Reaches(z, u, steps, v) && !v.nak
  }

  ghost predicate EveryRefusalEnds(z: Sizes) {
    forall u | CanReach(z, u) && Shaped(z, u) :: Recovers(z, u)
  }

  lemma {:induction false} NeverOverrunsIff(z: Sizes)
    requires Possible(z)
    ensures NeverOverruns(z) <==> z.packet <= z.buffer
  {
    if z.packet <= z.buffer {
      FreshInv(z);
      forall u, s | CanReach(z, u) && Shaped(z, u) && Enabled(z, u, s) ensures Fits(z, u, s) {
        var steps :| Reaches(z, Fresh(z), steps, u);
        Reachable(z, Fresh(z), steps, u);
        NextKeeps(z, u, s);
      }
    } else {
      assert Reaches(z, Fresh(z), [], Fresh(z));
      var s := Packet(seq(z.packet, _ => 0));
      assert Enabled(z, Fresh(z), s) && !Fits(z, Fresh(z), s);
    }
  }

  /** Refusing with nothing gathered: whatever happens then, it stays so. */
  lemma {:induction false} RefusesForever(z: Sizes, u: Uart, steps: seq<Step>, v: Uart)
    requires Shaped(z, u) && u.nak && u.consumed == 0 && Reaches(z, u, steps, v)
    ensures v.nak && v.received == u.received
    decreases |steps|
  {
    if steps != [] { RefusesForever(z, Next(z, u, steps[0]), steps[1..], v); }
  }

  /** After one byte of data, where a packet is larger than the buffer: given to DMA at once, with the
      endpoint refusing from then on. */
  lemma {:induction false} FirstByte(z: Sizes) returns (u: Uart)
    requires Possible(z) && z.packet > z.buffer
    ensures Shaped(z, u) && Reaches(z, Fresh(z), [Packet([1])], u) && u.nak && u.consumed == 0 && u.dma == On(0, 1, 0)
  {
    var s := Packet([1]);
    u := Next(z, Fresh(z), s);
    assert [s][1..] == [];
    assert Reaches(z, u, [], u);
  }

  lemma {:induction false} EveryRefusalEndsIff(z: Sizes)
    requires Possible(z)
    ensures EveryRefusalEnds(z) <==> z.packet <= z.buffer
  {
    if z.packet <= z.buffer {
      FreshInv(z);
      forall u | CanReach(z, u) && Shaped(z, u) ensures Recovers(z, u) {
        var steps :| Reaches(z, Fresh(z), steps, u);
        Reachable(z, Fresh(z), steps, u);
        var rest, v := Drains(z, u);
      }
    } else {
      var u := FirstByte(z);
      forall steps, v | NoPackets(steps) && Reaches(z, u, steps, v) ensures v.nak { RefusesForever(z, u, steps, v); }
      assert !Recovers(z, u);
    }
  }

  /** The high-speed build: one byte is sent and the line is idle, but the endpoint never takes another
      packet. */
  lemma {:induction false} HighSpeedStops() returns (u: Uart)
    ensures var z := Sizes(128, 512);
            && Shaped(z, u) && Reaches(z, Fresh(z), [Packet([1]), Byte, Done], u)
            && u.complete && u.dma.Off? && u.nak && u.wire == [1] && forall s :: !Enabled(z, u, s)
  {
    var z := Sizes(128, 512);
    var u1 := OnPacket(z, Fresh(z), [1]);
    var u2 := OnByte(z, u1);
    u := OnDone(z, u2);
    var steps := [Packet([1]), Byte, Done];
    assert steps[1..] == [Byte, Done] && [Byte, Done][1..] == [Done] && [Done][1..] == [];
    assert Reaches(z, u, [], u);
    assert Reaches(z, u2, [Done], u);
    assert Reaches(z, u1, [Byte, Done], u);
  }

  // ----- the code --------------------------------------------------------------------------------------------

  class AuxSerial {
    const z: Sizes
    const buf0: array<byte>
    const buf1: array<byte>
    var index: nat
    var consumed: nat
    var complete: bool
    /** The USB endpoint, the DMA channel and the line. */
    var nak: bool
    var dma: Dma
    var wire: seq<byte>
    ghost var received: seq<byte>

    constructor (z: Sizes)
      ensures this.z == z && Valid() && Value() == Fresh(z) && fresh(buf0) && fresh(buf1)
    {
      this.z := z;
      buf0, buf1 := new byte[z.buffer](_ => 0), new byte[z.buffer](_ => 0);
      index, consumed, complete, nak, dma, wire, received := 0, 0, true, false, Off, [], [];
      new;
      assert buf0[..] == Fresh(z).bufs[0] && buf1[..] == Fresh(z).bufs[1];
    }

    ghost predicate Valid()
      reads this, buf0, buf1
    {
      buf0 != buf1 && Shaped(z, Value())
    }

    ghost function Value(): Uart
      reads this, buf0, buf1
    {
      Uart([buf0[..], buf1[..]], index, consumed, complete, nak, dma, wire, received)
    }

    /** The USB stack copies a packet to where the callback points it. */
    method ReadPacket(target: array<byte>, at: nat, packet: seq<byte>)
      requires at + |packet| <= target.Length
      modifies target
      ensures target[..] == Laid(old(target[..]), at, packet)
    {
      for i := 0 to |packet|
        invariant forall j | 0 <= j < target.Length ::
                    target[j] == if at <= j < at + i then packet[j - at] else old(target[j])
      {
        target[at + i] := packet[i];
      }
    }

    method SwitchTransmitBuffers()
      requires Valid()
      modifies this`consumed, this`dma, this`index
      ensures Valid() && Value() == Switch(z, old(Value()))
    {
      dma := On(index, consumed, 0);
      consumed := 0;
      index := 1 - index;
    }

    method SendLen(len: nat)
      requires Valid() && consumed + len <= z.buffer
      modifies this`consumed, this`complete, this`dma, this`index
      ensures Valid() && Value() == Counted(z, old(Value()), len)
    {
      consumed := consumed + len;
      if len > 0 && complete {
        complete := false;
        SwitchTransmitBuffers();
      }
    }

    /** The packet lands behind what has been gathered. */
    method Gather(packet: seq<byte>)
      requires Valid() && consumed + |packet| <= z.buffer
      modifies buf0, buf1, this`received
      ensures Valid() && Value() == Gathered(z, old(Value()), packet)
    {
      if index == 0 { ReadPacket(buf0, consumed, packet); } else { ReadPacket(buf1, consumed, packet); }
      received := received + packet;
    }

    /** The receive callback. The endpoint does not call it while it is refusing packets. A packet larger
        than the room left runs past the buffer, and what follows is not said; `NeverOverrunsIff` is about
        that. */
    method ReceiveCallback(packet: seq<byte>) returns (fits: bool)
      requires Valid() && Enabled(z, Value(), Packet(packet))
      modifies this, buf0, buf1
      ensures fits <==> Fits(z, old(Value()), Packet(packet))
      ensures fits ==> Valid() && Value() == OnPacket(z, old(Value()), packet)
      ensures z.packet <= z.buffer && Inv(z, old(Value())) ==> fits && Inv(z, Value())
    {
      ghost var u := Value();
      if z.packet <= z.buffer && Inv(z, u) { OnPacketKeeps(z, u, packet); }
      fits := consumed + |packet| <= z.buffer;
      if !fits { return; }
      Gather(packet);
      SendLen(|packet|);
      if z.buffer - consumed < z.packet { nak := true; }
    }

    method DmaByte()
      requires Valid() && Enabled(z, Value(), Byte)
      modifies this
      ensures Valid() && Value() == OnByte(z, old(Value()))
      ensures Inv(z, old(Value())) ==> Inv(z, Value())
    {
      if Inv(z, Value()) { OnByteKeeps(z, Value()); }
      var b := if dma.buf == 0 then buf0[dma.pos] else buf1[dma.pos];
      wire := wire + [b];
      dma := dma.(pos := dma.pos + 1);
    }

    method DmaTransmitIsr()
      requires Valid() && Enabled(z, Value(), Done)
      modifies this
      ensures Valid() && Value() == OnDone(z, old(Value()))
      ensures z.packet <= z.buffer && Inv(z, old(Value())) ==> Inv(z, Value())
    {
      if z.packet <= z.buffer && Inv(z, Value()) { OnDoneKeeps(z, Value()); }
      dma := Off;
      if consumed > 0 {
        SwitchTransmitBuffers();
        nak := false;
      } else {
        complete := true;
      }
    }
  }
}
