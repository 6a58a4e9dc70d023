/** The FTDI serial engine (FTDI AN_108) and the commands that shift a run of bits through it. */
module Mpsse {
  import opened Common
  import opened BitStreams

  // ----- the device ---------------------------------------------------------------------------------

  /** What the target answers at edge number `i`, and the byte the device returns for the `n` bits
      sampled from edge `e` on. */
  datatype World = World(tdo: nat -> bool, reply: (nat, nat) -> byte)

  /** Bits are shifted into a reply from the top, so the last one sampled ends up highest; what a
      reply of fewer than eight bits holds below them is not said. */
  ghost predicate Honest(w: World) {
    forall e: nat, n: nat, k: nat | 1 <= n <= 8 && k < n :: Sampled(w, e, n, k)
  }

  predicate Sampled(w: World, e: nat, n: nat, k: nat)
    requires n <= 8
  {
    Bit(w.reply(e, n), 8 - n + k) == w.tdo(e + k)
  }

  /** The pin levels now, every edge so far, every reply so far. */
  datatype Device = Device(pins: Pins, edges: seq<Pins>, replies: seq<byte>)

  function Replies(w: World, e: nat, n: nat): (r: seq<byte>)
    ensures |r| == n
  {
    if n == 0 then [] else Replies(w, e, n - 1) + [w.reply(e + 8 * (n - 1), 8)]
  }

  lemma {:induction false} RepliesAt(w: World, e: nat, n: nat, j: nat)
    requires j < n
    ensures Replies(w, e, n)[j] == w.reply(e + 8 * j, 8)
  {
    if j < n - 1 { RepliesAt(w, e, n - 1, j); }
  }

  // ----- commands -----------------------------------------------------------------------------------

  /** Shift whole bytes, or a few bits, out of `data` if there is any, and back if asked; or clock
      bits out on TMS. */
  datatype Command =
    | Whole(back: bool, data: Option<seq<byte>>, count: nat)
    | Bits(back: bool, bits: Option<byte>, count: nat)
    | Tms(back: bool, value: byte, count: nat)
    | Other(op: byte)

  /** The levels bit by bit: TMS stays, TDI follows the data. */
  function DataLine(tms: bool, data: seq<byte>): nat -> Pins {
    (i: nat) => Pins(tms, BitAt(data, i))
  }

  function HoldLine(pins: Pins): nat -> Pins { (i: nat) => pins }

  /** A TMS command: TMS follows the data and TDI is its top bit. */
  function TmsLine(data: byte): nat -> Pins { (i: nat) => Pins(Bit(data, i), Bit(data, 7)) }

  function Shifted(pins: Pins, data: Option<seq<byte>>, n: nat): seq<Pins> {
    if data.Some? then Tabulate(DataLine(pins.tms, data.value), 0, n) else Tabulate(HoldLine(pins), 0, n)
  }

  function Clocked(d: Device, line: seq<Pins>, replies: seq<byte>): Device {
    if line == [] then d else Device(line[|line| - 1], d.edges + line, d.replies + replies)
  }

  function Execute(w: World, d: Device, c: Command): Device {
    match c
    case Whole(back, data, n) => Clocked(d, Shifted(d.pins, data, 8 * n), if back then Replies(w, |d.edges|, n) else [])
    case Bits(back, bits, n) =>
      var data := if bits.Some? then Some([bits.value]) else None;
      Clocked(d, Shifted(d.pins, data, n), if back then [w.reply(|d.edges|, n)] else [])
    case Tms(back, value, n) => Clocked(d, Tabulate(TmsLine(value), 0, n), if back then [w.reply(|d.edges|, n)] else [])
    case Other(_) => d
  }

  // The flags are those of AN_108. The engine is used least significant bit first, writing on the
  // falling edge.

  const WRITE_NEG: nat := 0x01
  const BITMODE: nat := 0x02
  const LSB: nat := 0x08
  const DO_WRITE: nat := 0x10
  const DO_READ: nat := 0x20
  const WRITE_TMS: nat := 0x40
  const SEND_IMMEDIATE: nat := 0x87

  /** The opcode of a data transfer. */
  function Opcode(back: bool, writes: bool, bitwise: bool): byte {
    (if back then DO_READ else 0) + (if writes then DO_WRITE + WRITE_NEG else 0) + LSB
        + (if bitwise then BITMODE else 0)
  }

  /** The opcode of a TMS transfer. */
  function TmsOpcode(back: bool): byte {
    WRITE_TMS + (if back then DO_READ else 0) + LSB + BITMODE + WRITE_NEG
  }

  /** The length field of a bytewise command: 16 bits, one less than the count. */
  function LengthField(count: nat): seq<byte>
    requires count > 0
  {
    [(count - 1) % 256, (count - 1) / 256 % 256]
  }

  datatype Kind = KWhole(back: bool, writes: bool) | KBits(back: bool, writes: bool) | KTms(back: bool) | KOther

  /** How the device reads an opcode. */
  function Decode(op: byte): Kind {
    if op == 0x39 then KWhole(true, true)
    else if op == 0x28 then KWhole(true, false)
    else if op == 0x19 then KWhole(false, true)
    else if op == 0x3b then KBits(true, true)
    else if op == 0x2a then KBits(true, false)
    else if op == 0x1b then KBits(false, true)
    else if op == 0x6b then KTms(true)
    else if op == 0x4b then KTms(false)
    else KOther
  }

  function Length(s: seq<byte>): nat
    requires |s| >= 3
  {
    (s[1] as int) + 256 * (s[2] as int) + 1
  }

  /** Bytes in the command at the head of `s`, as far as they tell; more than `|s|` if it is not all there. */
  function Extent(s: seq<byte>): (n: nat)
    requires s != []
    ensures n > 0
  {
    match Decode(s[0])
    case KWhole(_, writes) => if |s| < 3 then 3 else if writes then 3 + Length(s) else 3
    case KBits(_, writes) => if writes then 3 else 2
    case KTms(_) => 3
    case KOther => 1
  }

  /** The command at the head of `s`. */
  function Parse(s: seq<byte>): Command
    requires s != [] && Extent(s) <= |s|
  {
    match Decode(s[0])
    case KWhole(back, writes) => Whole(back, if writes then Some(s[3..3 + Length(s)]) else None, Length(s))
    case KBits(back, writes) => Bits(back, if writes then Some(s[2]) else None, s[1] % 8 + 1)
    case KTms(back) => Tms(back, s[2], s[1] % 8 + 1)
    case KOther => Other(s[0])
  }

  /** The device after a stream of bytes; an incomplete command waits for the rest of it. */
  function Run(w: World, d: Device, s: seq<byte>): Device
    decreases |s|
  {
    if s == [] || Extent(s) > |s| then d else Run(w, Execute(w, d, Parse(s)), s[Extent(s)..])
  }

  /** A stream of complete commands. */
  predicate Aligned(s: seq<byte>)
    decreases |s|
  {
    s == [] || (Extent(s) <= |s| && Aligned(s[Extent(s)..]))
  }

  lemma {:induction false} ParseThen(a: seq<byte>, b: seq<byte>)
    requires a != [] && Extent(a) <= |a|
    ensures Extent(a + b) == Extent(a) && Parse(a + b) == Parse(a) && (a + b)[Extent(a)..] == a[Extent(a)..] + b
  {
    if Decode(a[0]).KWhole? && Decode(a[0]).writes {
      assert (a + b)[3..3 + Length(a)] == a[3..3 + Length(a)];
    }
  }

  lemma {:induction false} RunThen(w: World, d: Device, a: seq<byte>, b: seq<byte>)
    requires Aligned(a)
    ensures Run(w, d, a + b) == Run(w, Run(w, d, a), b)
    ensures Aligned(a + b) == Aligned(b)
    decreases |a|
  {
    if a == [] {
      assert a + b == b;
    } else {
      ParseThen(a, b);
      RunThen(w, Execute(w, d, Parse(a)), a[Extent(a)..], b);
    }
  }

  /** A stream that is one command. */
  lemma {:induction false} RunOne(w: World, d: Device, s: seq<byte>)
    requires s != [] && Extent(s) == |s|
    ensures Aligned(s) && Run(w, d, s) == Execute(w, d, Parse(s))
  {
    assert s[|s|..] == [];
  }

  /** Commands the host encodes. */
  predicate Encodable(c: Command) {
    match c
    case Whole(back, data, n) => (back || data.Some?) && n > 0 && (data.Some? ==> |data.value| == n)
    case Bits(back, bits, n) => (back || bits.Some?) && 1 <= n <= 8
    case Tms(_, _, n) => 1 <= n <= 8
    case Other(op) => op == SEND_IMMEDIATE
  }

  const LONGEST: nat := 65536

  /** Commands whose length the field can hold. */
  predicate Exact(c: Command) { Encodable(c) && (c.Whole? ==> c.count <= LONGEST) }

  function Encode(c: Command): seq<byte>
    requires Encodable(c)
  {
    match c
    case Whole(back, data, n) =>
      [Opcode(back, data.Some?, false)] + LengthField(n) + if data.Some? then data.value else []
    case Bits(back, bits, n) => [Opcode(back, bits.Some?, true), n - 1] + if bits.Some? then [bits.value] else []
    case Tms(back, value, n) => [TmsOpcode(back), n - 1, value]
    case Other(op) => [op]
  }

  lemma {:induction false} LowHalf(x: nat)
    ensures x % 256 + 256 * (x / 256 % 256) == x % 65536
  {
    var h, l := x / 256, x % 256;
    var g, t := h / 256, h % 256;
    Mod65536(x, g, 256 * t + l);
  }

  lemma {:induction false} Mod65536(x: nat, q: nat, r: nat)
    requires x == 65536 * q + r && r < 65536
    ensures x % 65536 == r
  {
  }

  lemma {:induction false} BodyAfterHead(s: seq<byte>, head: seq<byte>, body: seq<byte>)
    requires |head| == 3 && s == head + body
    ensures |s| == 3 + |body| && s[3..3 + |body|] == body && s[..3] == head
  {
  }

  lemma {:induction false} WholeRoundTrip(back: bool, data: Option<seq<byte>>, n: nat)
    requires (back || data.Some?) && 0 < n <= LONGEST && (data.Some? ==> |data.value| == n)
    ensures var s := Encode(Whole(back, data, n)); s != [] && Extent(s) == |s| && Parse(s) == Whole(back, data, n)
  {
    var s := Encode(Whole(back, data, n));
    var head := [Opcode(back, data.Some?, false)] + LengthField(n);
    BodyAfterHead(s, head, if data.Some? then data.value else []);
    assert s[0] == head[0] && s[1] == head[1] && s[2] == head[2];
    assert Decode(s[0]) == KWhole(back, data.Some?);
    LowHalf(n - 1);
    assert Length(s) == n;
  }

  /** The device reads back what was encoded. */
  lemma {:induction false} EncodeRoundTrip(c: Command)
    requires Exact(c)
    ensures var s := Encode(c); s != [] && Extent(s) == |s| && Parse(s) == c
  {
    match c {
      case Whole(back, data, n) => WholeRoundTrip(back, data, n);
      case Bits(back, bits, n) => assert Decode(Encode(c)[0]) == KBits(back, bits.Some?);
      case Tms(back, value, n) => assert Decode(Encode(c)[0]) == KTms(back);
      case Other(op) =>
    }
  }

  predicate AllEncodable(cs: seq<Command>) { forall c | c in cs :: Encodable(c) }

  predicate AllExact(cs: seq<Command>) { forall c | c in cs :: Exact(c) }

  function EncodeAll(cs: seq<Command>): seq<byte>
    requires AllEncodable(cs)
  {
    if cs == [] then [] else EncodeAll(cs[..|cs| - 1]) + Encode(cs[|cs| - 1])
  }

  function ExecuteAll(w: World, d: Device, cs: seq<Command>): Device {
    if cs == [] then d else Execute(w, ExecuteAll(w, d, cs[..|cs| - 1]), cs[|cs| - 1])
  }

  lemma {:induction false} EncodedRun(w: World, d: Device, cs: seq<Command>)
    requires AllExact(cs)
    ensures AllEncodable(cs) && Aligned(EncodeAll(cs)) && Run(w, d, EncodeAll(cs)) == ExecuteAll(w, d, cs)
  {
    if cs != [] {
      var front, c := cs[..|cs| - 1], cs[|cs| - 1];
      EncodedRun(w, d, front);
      EncodeRoundTrip(c);
      RunOne(w, ExecuteAll(w, d, front), Encode(c));
      RunThen(w, d, EncodeAll(front), Encode(c));
    }
  }
}
