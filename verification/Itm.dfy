/** The ITM decoder fed byte by byte (ARMv7-M Architecture Reference Manual, appendix D4). */
module Itm {
  import opened Common

  datatype Phase = Idle | Syncing | Timestamp | Stimulus

  /** A stimulus packet handed on. */
  datatype Packet = Packet(channel: nat, payload: seq<byte>)

  /** The decoder's statics, and the packets it has handed on. */
  datatype Pump = Pump(phase: Phase, target: nat, current: nat, src: nat, rx: seq<byte>, out: seq<Packet>)

  const RX_SIZE: nat := 5

  /** Every index used below is in range in every state that keeps this. */
  predicate Inv(s: Pump) {
    && |s.rx| == RX_SIZE && s.target <= 4
    && (s.phase.Timestamp? ==> 1 <= s.current <= 4)
    && (s.phase.Stimulus? ==> s.current < (if s.target == 0 then 1 else s.target))
  }

  const FRESH: Pump := Pump(Idle, 0, 0, 0, [0, 0, 0, 0, 0], [])

  function Low(c: byte): nat { c % 16 }

  /** Payload bytes from the size bits of a header. */
  function Size(c: byte): (n: nat)
    ensures n <= 4
  {
    if c % 4 == 3 then 4 else c % 4
  }

  function OnIdle(s: Pump, c: byte): Pump
    requires Inv(s)
  {
    if c == 0x70 then s
    else if c == 0 then s.(target := 4, current := 0, phase := Syncing)
    else if Low(c) == 0 then
      s.(current := 1, rx := s.rx[0 := c], phase := if c < 0x80 then Idle else Timestamp)
    else if Low(c) == 4 then s
    else if c / 4 % 2 == 0 then s.(target := Size(c), src := c / 8, current := 0, phase := Stimulus)
    else s
  }

  function OnStimulus(s: Pump, c: byte): Pump
    requires Inv(s) && s.phase.Stimulus?
  {
    var t := s.(rx := s.rx[s.current := c], current := s.current + 1);
    if t.current >= t.target then t.(phase := Idle, out := t.out + [Packet(t.src, t.rx[..t.target])]) else t
  }

  /** Also entered by falling through from the end of a timestamp: a zero then counts as another
      zero of a sync if the counters, which are the timestamp's and a stale one, allow it. */
  function OnSyncing(s: Pump, c: byte): Pump {
    if c == 0 && s.current < s.target then s.(current := s.current + 1) else s.(phase := Idle)
  }

  function OnTimestamp(s: Pump, c: byte): Pump
    requires Inv(s) && s.phase.Timestamp?
  {
    var t := s.(rx := s.rx[s.current := c], current := s.current + 1);
    if c < 0x80 then OnSyncing(t, c)
    else if t.current > 4 then t.(phase := Idle)
    else t
  }

  function Feed(s: Pump, c: byte): (r: Pump)
    requires Inv(s)
    ensures Inv(r)
  {
    match s.phase
    case Idle => OnIdle(s, c)
    case Stimulus => OnStimulus(s, c)
    case Timestamp => OnTimestamp(s, c)
    case Syncing => OnSyncing(s, c)
  }

  /** Any bytes at all may be fed. */
  function FeedAll(s: Pump, bytes: seq<byte>): (r: Pump)
    requires Inv(s)
    ensures Inv(r)
  {
    if bytes == [] then s else Feed(FeedAll(s, bytes[..|bytes| - 1]), bytes[|bytes| - 1])
  }

  lemma {:induction false} FeedThen(s: Pump, a: seq<byte>, b: seq<byte>)
    requires Inv(s)
    ensures FeedAll(s, a + b) == FeedAll(FeedAll(s, a), b)
    decreases |b|
  {
    if b == [] {
      assert a + b == a;
    } else {
      var c := b[..|b| - 1];
      assert (a + b)[..|a + b| - 1] == a + c;
      FeedThen(s, a, c);
    }
  }

  // ----- streams of packets ------------------------------------------------------------------------------

  datatype Item =
    | Stim(channel: nat, payload: seq<byte>)
    | Overflow
    | Sync
    | Stamp(bytes: seq<byte>)

  /** A timestamp: a first byte with a clear low nibble that is neither a sync nor an overflow, and up
      to four more; the top bit is set on all but the last. */
  predicate IsStamp(b: seq<byte>) {
    && 1 <= |b| <= 5 && Low(b[0]) == 0 && b[0] != 0 && b[0] != 0x70
    && (forall i | 0 <= i < |b| - 1 :: b[i] >= 0x80) && b[|b| - 1] < 0x80
  }

  predicate Legal(i: Item) {
    match i
    case Stim(channel, payload) => channel < 32 && (|payload| == 1 || |payload| == 2 || |payload| == 4)
    case Stamp(b) => IsStamp(b)
    case _ => true
  }

  function Header(channel: nat, n: nat): byte
    requires channel < 32 && (n == 1 || n == 2 || n == 4)
  {
    8 * channel + if n == 4 then 3 else n
  }

  function Wire(i: Item): (r: seq<byte>)
    requires Legal(i)
    ensures r != []
  {
    match i
    case Stim(channel, payload) => [Header(channel, |payload|)] + payload
    case Overflow => [0x70]
    case Sync => [0, 0, 0, 0, 0, 0x80]
    case Stamp(b) => b
  }

  function Handed(i: Item): seq<Packet> { if i.Stim? then [Packet(i.channel, i.payload)] else [] }

  /** The decoder is idle again after `bytes` having handed on `packets`. */
  predicate Decodes(s: Pump, bytes: seq<byte>, packets: seq<Packet>)
    requires Inv(s)
  {
    FeedAll(s, bytes).phase.Idle? && FeedAll(s, bytes).out == s.out + packets
  }

  lemma {:induction false} FeedOne(s: Pump, bytes: seq<byte>, c: byte)
    requires Inv(s)
    ensures FeedAll(s, bytes + [c]) == Feed(FeedAll(s, bytes), c)
  {
    assert (bytes + [c])[..|bytes|] == bytes;
  }

  lemma {:induction false} HeaderParts(channel: nat, n: nat)
    requires channel < 32 && (n == 1 || n == 2 || n == 4)
    ensures var c := Header(channel, n);
            c != 0x70 && c != 0 && Low(c) != 0 && Low(c) != 4 && c / 4 % 2 == 0 && Size(c) == n && c / 8 == channel
  {
  }

  /** Part way through a payload. */
  lemma {:induction false} PayloadPart(s: Pump, channel: nat, payload: seq<byte>, k: nat)
    requires Inv(s) && s.phase.Idle? && Legal(Stim(channel, payload)) && k < |payload|
    ensures var t := FeedAll(s, Wire(Stim(channel, payload))[..k + 1]);
            && t.phase.Stimulus? && t.target == |payload| && t.src == channel && t.current == k && t.out == s.out
            && t.rx[..k] == payload[..k]
  {
    var w := Wire(Stim(channel, payload));
    if k == 0 {
      assert w[..1] == [] + [w[0]];
      FeedOne(s, [], w[0]);
      HeaderParts(channel, |payload|);
    } else {
      PayloadPart(s, channel, payload, k - 1);
      WireSnoc(w, payload, k);
      FeedOne(s, w[..k], payload[k - 1]);
      FrontGrows(FeedAll(s, w[..k]).rx, payload, k - 1);
    }
  }

  lemma {:induction false} WireSnoc(w: seq<byte>, payload: seq<byte>, k: nat)
    requires w != [] && w[1..] == payload && 0 < k <= |payload|
    ensures w[..k + 1] == w[..k] + [payload[k - 1]]
  {
    assert w[k] == w[1..][k - 1];
  }

  lemma {:induction false} FrontGrows(rx: seq<byte>, payload: seq<byte>, k: nat)
    requires k < |rx| && k < |payload| && rx[..k] == payload[..k]
    ensures rx[k := payload[k]][..k + 1] == payload[..k + 1]
  {
  }

  lemma {:induction false} StimDecodes(s: Pump, channel: nat, payload: seq<byte>)
    requires Inv(s) && s.phase.Idle? && Legal(Stim(channel, payload))
    ensures Decodes(s, Wire(Stim(channel, payload)), [Packet(channel, payload)])
    ensures FeedAll(s, Wire(Stim(channel, payload))).target == |payload|
  {
    var w, n := Wire(Stim(channel, payload)), |payload|;
    PayloadPart(s, channel, payload, n - 1);
    assert w == w[..n] + [payload[n - 1]];
    FeedOne(s, w[..n], payload[n - 1]);
    var t := FeedAll(s, w[..n]);
    assert t.rx[n - 1 := payload[n - 1]][..n] == payload[..n - 1] + [payload[n - 1]] == payload;
  }

  lemma {:induction false} OverflowDecodes(s: Pump)
    requires Inv(s) && s.phase.Idle?
    ensures Decodes(s, [0x70], []) && FeedAll(s, [0x70]).target == s.target
  {
    var none: seq<byte> := [];
    assert none + [0x70] == [0x70];
    FeedOne(s, none, 0x70);
  }

  lemma {:induction false} SyncPart(s: Pump, zeros: seq<byte>)
    requires Inv(s) && s.phase.Idle? && 1 <= |zeros| <= 5 && forall i | 0 <= i < |zeros| :: zeros[i] == 0
    ensures var t := FeedAll(s, zeros); t.phase.Syncing? && t.target == 4 && t.current == |zeros| - 1 && t.out == s.out
  {
    var front := zeros[..|zeros| - 1];
    assert zeros == front + [0];
    FeedOne(s, front, 0);
    if front != [] { SyncPart(s, front); }
  }

  lemma {:induction false} SyncDecodes(s: Pump)
    requires Inv(s) && s.phase.Idle?
    ensures Decodes(s, [0, 0, 0, 0, 0, 0x80], []) && FeedAll(s, [0, 0, 0, 0, 0, 0x80]).target == 4
  {
    SyncPart(s, [0, 0, 0, 0, 0]);
    FeedOne(s, [0, 0, 0, 0, 0], 0x80);
    assert [0, 0, 0, 0, 0] + [0x80] == [0, 0, 0, 0, 0, 0x80];
  }

  lemma {:induction false} StampPart(s: Pump, b: seq<byte>, k: nat)
    requires Inv(s) && s.phase.Idle? && IsStamp(b) && 1 <= k < |b|
    ensures var t := FeedAll(s, b[..k]); t.phase.Timestamp? && t.current == k && t.target == s.target && t.out == s.out
  {
    assert b[..k] == b[..k - 1] + [b[k - 1]];
    FeedOne(s, b[..k - 1], b[k - 1]);
    if k > 1 { StampPart(s, b, k - 1); }
  }

  /** A timestamp hands on nothing. After it the decoder is idle, except that one ending in a zero and
      shorter than the count left over from an earlier packet leaves it waiting for more. */
  lemma {:induction false} StampDecodesIff(s: Pump, b: seq<byte>)
    requires Inv(s) && s.phase.Idle? && IsStamp(b)
    ensures Decodes(s, b, []) <==> b[|b| - 1] != 0 || |b| >= s.target
    ensures FeedAll(s, b).out == s.out && FeedAll(s, b).target == s.target
    ensures !Decodes(s, b, []) ==> FeedAll(s, b).phase.Timestamp?
  {
    var n := |b|;
    assert b == b[..n - 1] + [b[n - 1]];
    FeedOne(s, b[..n - 1], b[n - 1]);
    if n > 1 { StampPart(s, b, n - 1); }
  }

  // ----- bytes that are no item -----------------------------------------------------------------------------

  /** Reserved headers, and those with bit 2 set (hardware source packets among them), are passed over one
      byte at a time. */
  lemma {:induction false} HeaderIgnored(s: Pump, c: byte)
    requires Inv(s) && s.phase.Idle? && c % 16 != 0 && c / 4 % 2 == 1
    ensures FeedAll(s, [c]) == s
  {
    FeedOne(s, [], c);
    assert [] + [c] == [c];
  }

  /** A stimulus header whose size bits are clear swallows a byte and hands on an empty packet. */
  lemma {:induction false} EmptyStimulus(s: Pump, c: byte, d: byte)
    requires Inv(s) && s.phase.Idle? && c % 16 == 8
    ensures Decodes(s, [c, d], [Packet(c / 8, [])])
  {
    FeedOne(s, [], c);
    FeedOne(s, [c], d);
    assert [] + [c] == [c] && [c] + [d] == [c, d] && c % 4 == 0 && c / 4 % 2 == 0;
  }

  /** A sync is over with its first other byte, or the sixth zero. */
  lemma {:induction false} SyncEnds(s: Pump, zeros: seq<byte>, c: byte)
    requires Inv(s) && s.phase.Idle? && 1 <= |zeros| <= 5 && forall i | 0 <= i < |zeros| :: zeros[i] == 0
    requires c != 0 || |zeros| == 5
    ensures Decodes(s, zeros + [c], [])
  {
    SyncPart(s, zeros);
    FeedOne(s, zeros, c);
  }

  /** A timestamp that does not end with its fifth byte is given up. */
  lemma {:induction false} StampGivenUp(s: Pump, b: seq<byte>)
    requires Inv(s) && s.phase.Idle? && |b| == 5 && b[0] % 16 == 0 && forall i | 0 <= i < 5 :: b[i] >= 0x80
    ensures Decodes(s, b, [])
  {
    var last := b[..4] + [0x01];
    StampPart(s, last, 4);
    assert last[..4] == b[..4] && b == b[..4] + [b[4]];
    FeedOne(s, b[..4], b[4]);
  }

  // ----- whole streams -------------------------------------------------------------------------------------

  function WireAll(items: seq<Item>): seq<byte>
    requires AllLegal(items)
  {
    if items == [] then [] else WireAll(items[..|items| - 1]) + Wire(items[|items| - 1])
  }

  function HandedAll(items: seq<Item>): seq<Packet> {
    if items == [] then [] else HandedAll(items[..|items| - 1]) + Handed(items[|items| - 1])
  }

  /** Not a timestamp that ends in a zero. */
  predicate Plain(i: Item)
    requires Legal(i)
  {
    i.Stamp? ==> i.bytes[|i.bytes| - 1] != 0
  }

  predicate AllLegal(items: seq<Item>) { forall i | i in items :: Legal(i) }

  // ----- exactly when, for any stream ------------------------------------------------------------------------

  /** The count an item leaves behind, `t` being the one before it. */
  function Left(t: nat, i: Item): nat {
    match i
    case Stim(_, payload) => |payload|
    case Sync => 4
    case _ => t
  }

  function LeftAll(t: nat, items: seq<Item>): nat {
    if items == [] then t else Left(LeftAll(t, items[..|items| - 1]), items[|items| - 1])
  }

  /** A timestamp that ends in a zero is at least as long as the count left before it. */
  predicate Tame(t: nat, i: Item)
    requires Legal(i)
  {
    i.Stamp? && i.bytes[|i.bytes| - 1] == 0 ==> |i.bytes| >= t
  }

  predicate TameAll(t: nat, items: seq<Item>)
    requires AllLegal(items)
  {
    items == [] || (TameAll(t, items[..|items| - 1]) && Tame(LeftAll(t, items[..|items| - 1]), items[|items| - 1]))
  }

  /** After every item of the stream the decoder is idle and has handed on just the stimulus packets so far. */
  predicate DecodesThroughout(s: Pump, items: seq<Item>)
    requires Inv(s) && AllLegal(items)
  {
    (items == [] || DecodesThroughout(s, items[..|items| - 1])) && Decodes(s, WireAll(items), HandedAll(items))
  }

  /** One item from any idle state. */
  lemma {:induction false} ItemDecodesIff(s: Pump, i: Item)
    requires Inv(s) && s.phase.Idle? && Legal(i)
    ensures Decodes(s, Wire(i), Handed(i)) <==> Tame(s.target, i)
    ensures FeedAll(s, Wire(i)).target == Left(s.target, i)
  {
    match i
    case Stim(channel, payload) =>
      StimDecodes(s, channel, payload);
    case Overflow => OverflowDecodes(s);
    case Sync => SyncDecodes(s);
    case Stamp(b) => StampDecodesIff(s, b);
  }

  /** A stream decodes throughout if and only if none of its timestamps ends in a zero while being shorter
      than the count left by the packet before. */
  lemma {:induction false} StreamDecodesIff(s: Pump, items: seq<Item>)
    requires Inv(s) && s.phase.Idle? && AllLegal(items)
    ensures DecodesThroughout(s, items) <==> TameAll(s.target, items)
    ensures DecodesThroughout(s, items) ==> FeedAll(s, WireAll(items)).target == LeftAll(s.target, items)
  {
    if items != [] {
      var front, last := items[..|items| - 1], items[|items| - 1];
      StreamDecodesIff(s, front);
      if DecodesThroughout(s, front) { LastDecodesIff(s, front, last, items); }
    }
  }

  lemma {:induction false} LastDecodesIff(s: Pump, front: seq<Item>, last: Item, items: seq<Item>)
    requires Inv(s) && AllLegal(items) && items != [] && front == items[..|items| - 1] && last == items[|items| - 1]
    requires Decodes(s, WireAll(front), HandedAll(front))
    ensures Decodes(s, WireAll(items), HandedAll(items)) <==> Tame(FeedAll(s, WireAll(front)).target, last)
    ensures FeedAll(s, WireAll(items)).target == Left(FeedAll(s, WireAll(front)).target, last)
  {
    var t := FeedAll(s, WireAll(front));
    FeedThen(s, WireAll(front), Wire(last));
    ItemDecodesIff(t, last);
    var out := FeedAll(t, Wire(last)).out;
    assert s.out + HandedAll(front) + Handed(last) == s.out + (HandedAll(front) + Handed(last));
  }

  lemma {:induction false} PlainIsTame(t: nat, items: seq<Item>)
    requires AllLegal(items) && forall i | i in items :: Plain(i)
    ensures TameAll(t, items)
  {
    if items != [] {
      var front, last := items[..|items| - 1], items[|items| - 1];
      assert Plain(last) && forall i | i in front :: i in items;
      PlainIsTame(t, front);
    }
  }

  /** From any idle state, any sequence of packets none of whose timestamps ends in a zero hands on exactly
      its stimulus packets, in order, each with its channel and payload. */
  lemma {:induction false} StreamDecodes(s: Pump, items: seq<Item>)
    requires Inv(s) && s.phase.Idle? && AllLegal(items) && forall i | i in items :: Plain(i)
    ensures Decodes(s, WireAll(items), HandedAll(items))
  {
    PlainIsTame(s.target, items);
    StreamDecodesIff(s, items);
  }

  /** From the start: a sync, a timestamp of two bytes ending in zero, and a stimulus packet, which is
      lost. */
  lemma {:induction false} StampSwallows()
    ensures AllLegal([Sync, Stamp([0xc0, 0]), Stim(1, [0x41])])
    ensures FeedAll(FRESH, Wire(Sync) + Wire(Stamp([0xc0, 0])) + Wire(Stim(1, [0x41]))).out == []
  {
    var sync, stamp, stim := Wire(Sync), Wire(Stamp([0xc0, 0])), Wire(Stim(1, [0x41]));
    SyncDecodes(FRESH);
    FeedThen(FRESH, sync + stamp, stim);
    FeedThen(FRESH, sync, stamp);
    SwallowsAfterSync(FeedAll(FRESH, sync));
  }

  lemma {:induction false} SwallowsAfterSync(s: Pump)
    requires Inv(s) && s.phase.Idle? && s.target == 4
    ensures FeedAll(FeedAll(s, [0xc0, 0]), [9, 0x41]).out == s.out
  {
    var none: seq<byte> := [];
    StampDecodesIff(s, [0xc0, 0]);
    var t := FeedAll(s, [0xc0, 0]);
    assert none + [9] == [9] && [9] + [0x41] == [9, 0x41];
    FeedOne(t, none, 9);
    FeedOne(t, [9], 0x41);
    assert FeedAll(t, [9]).phase.Idle?;
  }

  // ----- the code --------------------------------------------------------------------------------------------

  class Decoder {
    var phase: Phase
    var targetCount: nat
    var currentCount: nat
    var srcAddr: nat
    const rxPacket: array<byte>
    var handed: seq<Packet>

    constructor ()
      ensures rxPacket.Length == RX_SIZE && fresh(rxPacket) && Value() == FRESH
    {
      phase, targetCount, currentCount, srcAddr, handed := Idle, 0, 0, 0, [];
      rxPacket := new byte[RX_SIZE](_ => 0);
      new;
      assert rxPacket[..] == FRESH.rx;
    }

    ghost function Value(): Pump
      reads this, rxPacket
    {
      Pump(phase, targetCount, currentCount, srcAddr, rxPacket[..], handed)
    }

    method ProtocolPump(c: byte)
      requires Inv(Value())
      modifies this, rxPacket
      ensures Inv(Value()) && Value() == Feed(old(Value()), c)
    {
      match phase
      case Idle => StartPacket(c);
      case Stimulus =>
        rxPacket[currentCount] := c;
        currentCount := currentCount + 1;
        if currentCount >= targetCount {
          phase := Idle;
          handed := handed + [Packet(srcAddr, rxPacket[..targetCount])];
        }
      case Timestamp =>
        rxPacket[currentCount] := c;
        currentCount := currentCount + 1;
        if c >= 0x80 {
          if currentCount > 4 { phase := Idle; }
        } else {
          CountZero(c);
        }
      case Syncing => CountZero(c);
    }

    method CountZero(c: byte)
      requires |Value().rx| == RX_SIZE
      modifies this
      ensures Value() == OnSyncing(old(Value()), c)
    {
      if c == 0 && currentCount < targetCount { currentCount := currentCount + 1; } else { phase := Idle; }
    }

    method StartPacket(c: byte)
      requires Inv(Value()) && phase.Idle?
      modifies this, rxPacket
      ensures Value() == OnIdle(old(Value()), c)
    {
      if c == 0x70 { return; }
      if c == 0 {
        targetCount, currentCount, phase := 4, 0, Syncing;
        return;
      }
      if c % 16 == 0 {
        currentCount := 1;
        rxPacket[0] := c;
        if c >= 0x80 { phase := Timestamp; }
        return;
      }
      if c % 16 == 4 { return; }
      if c / 4 % 2 == 0 {
        targetCount := c % 4;
        if targetCount == 3 { targetCount := 4; }
        srcAddr, currentCount, phase := c / 8, 0, Stimulus;
      }
    }

    /** The main loop's feed of one read. */
    method PumpAll(bytes: seq<byte>)
      requires Inv(Value())
      modifies this, rxPacket
      ensures Inv(Value()) && Value() == FeedAll(old(Value()), bytes)
    {
      for i := 0 to |bytes|
        invariant Inv(Value()) && Value() == FeedAll(old(Value()), bytes[..i])
      {
        assert bytes[..i + 1] == bytes[..i] + [bytes[i]];
        FeedOne(old(Value()), bytes[..i], bytes[i]);
        ProtocolPump(bytes[i]);
      }
      assert bytes[..|bytes|] == bytes;
    }
  }
}
