/** `gdb_getpacket` and `gdb_putpacket` as they run -- a packet buffer filled in place, a running
    checksum, a nested loop for remote-control packets -- and what they guarantee on every
    byte stream. */
module GdbReceiver {
  import opened Common
  import opened Hex
  import opened GdbPacket

  // ----- soundness of the specification -------------------------------------------------------

  ghost predicate EndsWith(past: seq<byte>, tail: seq<byte>) {
    |tail| <= |past| && past[|past| - |tail|..] == tail
  }

  lemma {:induction false} EndsWithSnoc(past: seq<byte>, tail: seq<byte>, c: byte)
    requires EndsWith(past, tail)
    ensures EndsWith(past + [c], tail + [c])
  {
  }

  lemma {:induction false} LastByte(past: seq<byte>, c: byte)
    ensures EndsWith(past + [c], [c])
  {
  }

  /** A body captured since the last start marker. */
  ghost predicate Captured(size: nat, wire: seq<byte>) {
    Quiet(size, wire) && |Payload(wire)| < size
  }

  /** The stream ends in a complete frame whose body says `packet` and whose check digits hold
      (check digits are ignored once acknowledgements are off). */
  ghost predicate Genuine(noack: bool, size: nat, past: seq<byte>, packet: seq<byte>) {
    exists wire, hi, lo ::
      && EndsWith(past, [START] + wire + [END] + [hi] + [lo])
      && Captured(size, wire) && !Escaping(wire) && packet == Payload(wire)
      && (noack || PairValue(hi, lo) == Sum(wire))
  }

  /** What each receiver state says about the bytes received so far. */
  ghost predicate Tracks(noack: bool, size: nat, s: Rx, past: seq<byte>) {
    match s
    case Idle => true
    case Body(wire) => EndsWith(past, [START] + wire) && Captured(size, wire)
    case Upper(wire) => EndsWith(past, [START] + wire + [END]) && Captured(size, wire) && !Escaping(wire)
    case Lower(wire, hi) => EndsWith(past, [START] + wire + [END] + [hi]) && Captured(size, wire) && !Escaping(wire)
    case Remote(cmd) => |cmd| <= size
    case Done(packet) => Genuine(noack, size, past, packet)
    case Closed => EndsWith(past, [EOT])
  }

  lemma {:induction false} StartTracks(noack: bool, size: nat, past: seq<byte>)
    requires size > 0
    ensures Tracks(noack, size, Body([]), past + [START])
  {
    assert [START] + [] == [START];
  }

  lemma {:induction false} BodyTracks(noack: bool, size: nat, wire: seq<byte>, past: seq<byte>, c: byte)
    requires size > 0 && Tracks(noack, size, Body(wire), past)
    ensures Tracks(noack, size, Step(noack, size, Body(wire), c).0, past + [c])
  {
    EndsWithSnoc(past, [START] + wire, c);
    if !Escaping(wire) && c == START {
      StartTracks(noack, size, past);
    } else if Escaping(wire) || c != END {
      assert [START] + wire + [c] == [START] + (wire + [c]);
      QuietSnoc(size, wire, c);
      BodySnoc(wire, c);
    }
  }

  lemma {:induction false} UpperTracks(noack: bool, size: nat, wire: seq<byte>, past: seq<byte>, c: byte)
    requires Tracks(noack, size, Upper(wire), past)
    ensures Tracks(noack, size, Lower(wire, c), past + [c])
  {
    EndsWithSnoc(past, [START] + wire + [END], c);
  }

  lemma {:induction false} LowerTracks(noack: bool, size: nat, wire: seq<byte>, hi: byte, past: seq<byte>, c: byte)
    requires Tracks(noack, size, Lower(wire, hi), past)
    ensures Tracks(noack, size, Step(noack, size, Lower(wire, hi), c).0, past + [c])
  {
    EndsWithSnoc(past, [START] + wire + [END] + [hi], c);
    if noack || PairValue(hi, c) == Sum(wire) {
      assert Genuine(noack, size, past + [c], Payload(wire));
    }
  }

  lemma {:induction false} StepTracks(noack: bool, size: nat, s: Rx, past: seq<byte>, c: byte)
    requires size > 0 && !Final(s) && Tracks(noack, size, s, past)
    ensures Tracks(noack, size, Step(noack, size, s, c).0, past + [c])
  {
    match s
    case Body(wire) => BodyTracks(noack, size, wire, past, c);
    case Upper(wire) => UpperTracks(noack, size, wire, past, c);
    case Lower(wire, hi) => LowerTracks(noack, size, wire, hi, past, c);
    case Idle =>
      LastByte(past, c);
      if c == START { StartTracks(noack, size, past); }
    case Remote(_) =>
      LastByte(past, c);
      if c == START { StartTracks(noack, size, past); }
  }

  lemma {:induction false} StepTracksAt(noack: bool, size: nat, s: Rx, input: seq<byte>, i: nat)
    requires size > 0 && !Final(s) && i < |input| && Tracks(noack, size, s, input[..i])
    ensures Tracks(noack, size, Step(noack, size, s, input[i]).0, input[..i + 1])
  {
    StepTracks(noack, size, s, input[..i], input[i]);
    assert input[..i] + [input[i]] == input[..i + 1];
  }

  /** Feed the stream from position `i` on. */
  ghost function FeedFrom(f: Machine, s: Rx, input: seq<byte>, i: nat): Outcome
    requires i <= |input|
    decreases |input| - i
  {
    if Final(s) || i == |input| then Outcome(s, [], 0)
    else
      var (s1, e) := f(s, input[i]);
      Prepend(Visible(e), 1, FeedFrom(f, s1, input, i + 1))
  }

  lemma {:induction false} FeedFromIsFeed(f: Machine, s: Rx, input: seq<byte>, i: nat)
    requires i <= |input|
    ensures FeedFrom(f, s, input, i) == Feed(f, s, input[i..])
    decreases |input| - i
  {
    if !Final(s) && i < |input| {
      FeedFromIsFeed(f, f(s, input[i]).0, input, i + 1);
      assert input[i..][1..] == input[i + 1..];
    }
  }

  /** Account for one more byte in the outcome of the whole stream. */
  lemma {:induction false} FeedAdvance(noack: bool, size: nat, s: Rx, input: seq<byte>, i: nat, whole: Outcome,
                                       effects: seq<Effect>, n: nat)
    requires i < |input| && !Final(s)
    requires whole == Prepend(effects, n, FeedFrom(Receiver(noack, size), s, input, i))
    ensures var (s1, e) := Step(noack, size, s, input[i]);
      whole == Prepend(effects + Visible(e), n + 1, FeedFrom(Receiver(noack, size), s1, input, i + 1))
  {
    var (s1, e) := Step(noack, size, s, input[i]);
    PrependTwice(effects, Visible(e), n, 1, FeedFrom(Receiver(noack, size), s1, input, i + 1));
  }

  /** What every step keeps holds of the outcome. */
  lemma {:induction false} FeedKeeps(f: Machine, keeps: (Rx, seq<byte>) -> bool, s: Rx, input: seq<byte>, i: nat)
    requires forall s, j | !Final(s) && 0 <= j < |input| && keeps(s, input[..j]) ::
               keeps(f(s, input[j]).0, input[..j + 1])
    requires i <= |input| && keeps(s, input[..i])
    ensures var o := FeedFrom(f, s, input, i);
      i + o.used <= |input| && keeps(o.state, input[..i + o.used])
    decreases |input| - i
  {
    if !Final(s) && i < |input| {
      FeedKeeps(f, keeps, f(s, input[i]).0, input, i + 1);
    }
  }

  lemma {:induction false} FeedTracks(noack: bool, size: nat, input: seq<byte>)
    requires size > 0
    ensures var o := FeedFrom(Receiver(noack, size), Idle, input, 0);
      o.used <= |input| && Tracks(noack, size, o.state, input[..o.used])
  {
    var f := Receiver(noack, size);
    var keeps := (s: Rx, past: seq<byte>) => Tracks(noack, size, s, past);
    forall s, j | !Final(s) && 0 <= j < |input| && keeps(s, input[..j])
      ensures keeps(f(s, input[j]).0, input[..j + 1])
    {
      StepTracksAt(noack, size, s, input, j);
    }
    FeedKeeps(f, keeps, Idle, input, 0);
  }

  /** Soundness on arbitrary input: whatever the stream, a returned packet is the one-byte
      end-of-transmission packet or the unescaped body of a frame the stream really ends with,
      correctly summed and within the buffer. */
  lemma {:induction false} ReceiverSound(noack: bool, size: nat, input: seq<byte>)
    requires size > 0
    ensures var o := Feed(Receiver(noack, size), Idle, input);
      var past := input[..o.used];
      && (o.state.Done? ==> Genuine(noack, size, past, o.state.packet) && |o.state.packet| < size)
      && (o.state.Closed? ==> EndsWith(past, [EOT]))
  {
    var o := Feed(Receiver(noack, size), Idle, input);
    assert input[0..] == input;
    FeedFromIsFeed(Receiver(noack, size), Idle, input, 0);
    FeedTracks(noack, size, input);
    if o.state.Done? { GenuineIsShort(noack, size, input[..o.used], o.state.packet); }
  }

  lemma {:induction false} GenuineIsShort(noack: bool, size: nat, past: seq<byte>, packet: seq<byte>)
    requires Genuine(noack, size, past, packet)
    ensures |packet| < size
  {
  }

  /** An over-long packet is dropped, and so is everything after it up to the next start marker. */
  lemma {:induction false} OverlongDropped(noack: bool, size: nat, wire: seq<byte>, c: byte, junk: seq<byte>)
    requires Length(wire, c) >= size && (Escaping(wire) || (c != START && c != END))
    requires forall k | 0 <= k < |junk| :: junk[k] != START && junk[k] != SOM && junk[k] != EOT
    ensures Feed(Receiver(noack, size), Body(wire), [c] + junk) == Outcome(Idle, [], 1 + |junk|)
  {
    FeedOne(noack, size, Body(wire), c);
    FeedThen(Receiver(noack, size), Body(wire), [c], junk);
    IdleDrops(noack, size, junk);
  }

  lemma {:induction false} IdleDrops(noack: bool, size: nat, junk: seq<byte>)
    requires forall k | 0 <= k < |junk| :: junk[k] != START && junk[k] != SOM && junk[k] != EOT
    ensures Feed(Receiver(noack, size), Idle, junk) == Outcome(Idle, [], |junk|)
  {
    if junk != [] {
      IdleDrops(noack, size, junk[1..]);
    }
  }

  // ----- the receiver as it runs --------------------------------------------------------------

  datatype PacketState = PacketIdle | GdbCapture | GdbEscape | ChecksumUpper | ChecksumLower

  /** One call of `gdb_getpacket`: its locals, and the caller's buffer, which is one byte longer
      than the size passed. */
  class PacketReader {
    const size: nat
    const noack: bool
    const packet: array<byte>
    var state: PacketState
    var offset: nat
    var checksum: byte
    var rxChecksum: byte

    ghost predicate Good()
      reads this
    {
      size > 0 && packet.Length == size + 1
    }

    /** Buffer, offset and running checksum are what the raw body says. */
    ghost predicate Holds(wire: seq<byte>)
      requires Good()
      reads this, packet
    {
      offset < size && packet[..offset] == Payload(wire) && checksum == Sum(wire)
    }

    ghost predicate Rel(s: Rx)
      reads this, packet
    {
      && Good()
      && match state
         case PacketIdle => s == Idle
         case GdbCapture => s.Body? && !Escaping(s.wire) && Holds(s.wire)
         case GdbEscape => s.Body? && Escaping(s.wire) && Holds(s.wire)
         case ChecksumUpper => s.Upper? && Holds(s.wire)
         case ChecksumLower => s.Lower? && Holds(s.wire) && (!noack ==> rxChecksum == UnhexDigit(s.hi) * 16 % 256)
    }

    /** The caller gets what the specification says the packet is. */
    ghost predicate Returned(n: nat, s: Rx)
      requires Good()
      reads this, packet
    {
      match s
      case Done(p) => n == |p| < packet.Length && packet[..n] == p && packet[n] == 0
      case Closed => n == 1 && packet[0] == EOT && packet[1] == 0
      case _ => false
    }

    constructor (size: nat, noack: bool, packet: array<byte>)
      requires size > 0 && packet.Length == size + 1
      ensures Rel(Idle) && this.size == size && this.noack == noack && this.packet == packet
    {
      this.size, this.noack, this.packet := size, noack, packet;
      state, offset, checksum, rxChecksum := PacketIdle, 0, 0, 0;
    }

    /** Append to the buffer and drop the packet when that fills it. */
    method Store(b: byte, c: byte, ghost wire: seq<byte>)
      requires Good() && Holds(wire)
      requires Payload(wire + [c]) == Payload(wire) + [b]
      requires Sum(wire + [c]) == Plus(checksum, c)
      modifies packet, this`offset, this`checksum
      ensures offset == old(offset) + 1 && checksum == Plus(old(checksum), c)
      ensures offset < size ==> Holds(wire + [c])
      ensures offset == |Payload(wire + [c])|
    {
      checksum := Plus(checksum, c);
      packet[offset] := b;
      offset := offset + 1;
      assert packet[..offset] == packet[..offset - 1] + [b];
    }

    method OnCapture(c: byte, ghost s: Rx)
      requires Rel(s) && state == GdbCapture
      modifies this, packet
      ensures Rel(Step(noack, size, s, c).0)
    {
      if c == START {
        state, offset, checksum := GdbCapture, 0, 0;
      } else if c == END {
        state := ChecksumUpper;
      } else {
        BodySnoc(s.wire, c);
        if c == ESCAPE {
          checksum := Plus(checksum, c);
          state := GdbEscape;
        } else {
          Store(c, c, s.wire);
          if offset >= size { state := PacketIdle; }
        }
      }
    }

    method OnEscape(c: byte, ghost s: Rx)
      requires Rel(s) && state == GdbEscape
      modifies this, packet
      ensures Rel(Step(noack, size, s, c).0)
    {
      BodySnoc(s.wire, c);
      Store(Flip(c), c, s.wire);
      state := GdbCapture;
      if offset >= size { state := PacketIdle; }
    }

    /** The `CHECKSUM_LOWER` case. */
    method OnLower(c: byte, ghost s: Rx) returns (result: Option<nat>, effect: Effect)
      requires Rel(s) && s.Lower?
      modifies this, packet
      ensures var (s1, e) := Step(noack, size, s, c);
        && effect == e
        && (result == None ==> Rel(s1))
        && (result.Some? ==> Good() && Returned(result.value, s1))
    {
      effect := Silent;
      if !noack {
        rxChecksum := OrByte(rxChecksum, UnhexDigit(c));
        effect := Reply(if rxChecksum == checksum then ACK else NACK);
      }
      if noack || rxChecksum == checksum {
        packet[offset] := 0;
        return Some(offset), effect;
      }
      state := PacketIdle;
      result := None;
    }

    /** One turn of the loop, except for the start of a remote-control packet. */
    method OnChar(c: byte, ghost s: Rx) returns (result: Option<nat>, effect: Effect)
      requires Rel(s) && !(s == Idle && c == SOM)
      modifies this, packet
      ensures var (s1, e) := Step(noack, size, s, c);
        && effect == e
        && (result == None ==> Rel(s1))
        && (result.Some? ==> Good() && Returned(result.value, s1))
    {
      result, effect := None, Silent;
      match state {
        case PacketIdle =>
          packet[0] := c;
          if c == START {
            state, offset, checksum := GdbCapture, 0, 0;
          }
          if packet[0] == EOT {
            packet[1] := 0;
            return Some(1), Silent;
          }
        case GdbCapture => OnCapture(c, s);
        case GdbEscape => OnEscape(c, s);
        case ChecksumUpper =>
          if !noack { rxChecksum := UnhexDigit(c) * 16 % 256; }
          state := ChecksumLower;
        case ChecksumLower =>
          result, effect := OnLower(c, s);
      }
    }

    /** One byte of a remote-control packet. */
    method RemoteChar(c: byte, cmd0: nat, ghost s: Rx) returns (stop: bool, cmd: nat, effect: Effect)
      requires Good() && s.Remote? && packet[0] != EOT && offset == 0 && checksum == 0
      requires cmd0 == |s.cmd| <= size && packet[..cmd0] == s.cmd
      modifies packet, this`state
      ensures var (s1, e) := Step(noack, size, s, c);
        && effect == e && stop == !s1.Remote? && !s1.Done?
        && (!stop ==> packet[0] != EOT && cmd == |s1.cmd| <= size && packet[..cmd] == s1.cmd)
        && (stop ==> (packet[0] == EOT <==> s1 == Closed) && (s1 != Closed ==> Rel(s1)))
    {
      stop, cmd, effect := true, cmd0, Silent;
      if c == EOT {
        packet[0] := c;
        state := PacketIdle;
      } else if c == SOM {
        stop, cmd := false, 0;
      } else if c == EOM {
        packet[cmd] := 0;
        effect := Command(packet[..cmd]);
        packet[0] := 0;
        state := PacketIdle;
      } else if c == START {
        state := GdbCapture;
      } else if cmd < size {
        packet[cmd] := c;
        stop, cmd := false, cmd + 1;
      } else {
        packet[0] := 0;
        state := PacketIdle;
      }
    }

    /** A turn of the loop of `consume_remote_packet`, with the specification keeping pace. */
    method RemoteTurn(input: seq<byte>, used: nat, cmd0: nat, ghost s: Rx, ghost whole: Outcome,
                      ghost effects: seq<Effect>, ghost n: nat)
      returns (stop: bool, cmd: nat, effect: Effect, ghost s1: Rx)
      requires Good() && s.Remote? && packet[0] != EOT && offset == 0 && checksum == 0
      requires cmd0 == |s.cmd| <= size && packet[..cmd0] == s.cmd && used < |input|
      requires whole == Prepend(effects, n, FeedFrom(Receiver(noack, size), s, input, used))
      modifies packet, this`state
      ensures whole == Prepend(effects + Visible(effect), n + 1, FeedFrom(Receiver(noack, size), s1, input, used + 1))
      ensures stop == !s1.Remote? && !s1.Done?
      ensures !stop ==> packet[0] != EOT && cmd == |s1.cmd| <= size && packet[..cmd] == s1.cmd
      ensures stop ==> (packet[0] == EOT <==> s1 == Closed) && (s1 != Closed ==> Rel(s1))
    {
      FeedAdvance(noack, size, s, input, used, whole, effects, n);
      stop, cmd, effect := RemoteChar(input[used], cmd0, s);
      s1 := Step(noack, size, s, input[used]).0;
    }

    /** `consume_remote_packet`: swallow a remote-control packet.  `s` is where the specification
        is afterwards; `waiting` says the stream ran out first. */
    method ConsumeRemote(input: seq<byte>, used0: nat)
      returns (waiting: bool, used: nat, effects: seq<Effect>, ghost s: Rx)
      requires Good() && used0 <= |input| && packet[0] == SOM
      modifies packet, this`state, this`offset, this`checksum
      ensures used0 <= used <= |input| && !s.Done?
      ensures if waiting then used == |input| && !Final(s) else packet[0] == EOT <==> s == Closed
      ensures !waiting && s != Closed ==> Rel(s)
      ensures FeedFrom(Receiver(noack, size), Remote([]), input, used0)
        == Prepend(effects, used - used0, FeedFrom(Receiver(noack, size), s, input, used))
    {
      ghost var f := Receiver(noack, size);
      ghost var whole := FeedFrom(f, Remote([]), input, used0);
      used, effects, waiting := used0, [], true;
      offset, checksum := 0, 0;
      var cmd := 0;
      s := Remote([]);
      assert whole == Prepend([], 0, whole);
      while used < |input|
        invariant used0 <= used <= |input| && packet[0] != EOT && offset == 0 && checksum == 0
        invariant s.Remote? && cmd == |s.cmd| <= size && packet[..cmd] == s.cmd
        invariant whole == Prepend(effects, used - used0, FeedFrom(f, s, input, used))
      {
        var stop, effect;
        stop, cmd, effect, s := RemoteTurn(input, used, cmd, s, whole, effects, used - used0);
        used, effects := used + 1, effects + Visible(effect);
        if stop {
          waiting := false;
          return;
        }
      }
    }

    /** A turn of the main loop on an ordinary byte. */
    method Turn(input: seq<byte>, used: nat, ghost s: Rx, ghost whole: Outcome, ghost effects: seq<Effect>)
      returns (result: Option<nat>, effect: Effect, ghost s1: Rx)
      requires Rel(s) && used < |input| && !(s == Idle && input[used] == SOM)
      requires whole == Prepend(effects, used, FeedFrom(Receiver(noack, size), s, input, used))
      modifies this, packet
      ensures whole
           == Prepend(effects + Visible(effect), used + 1, FeedFrom(Receiver(noack, size), s1, input, used + 1))
      ensures result == None ==> Rel(s1)
      ensures result.Some? ==> Good() && Returned(result.value, s1)
    {
      FeedAdvance(noack, size, s, input, used, whole, effects, used);
      result, effect := OnChar(input[used], s);
      s1 := Step(noack, size, s, input[used]).0;
    }

    /** A turn of the main loop on the start of a remote-control packet. */
    method RemoteStart(input: seq<byte>, used0: nat, ghost whole: Outcome, ghost effects: seq<Effect>)
      returns (waiting: bool, result: Option<nat>, used: nat, es: seq<Effect>, ghost s: Rx)
      requires Rel(Idle) && used0 < |input| && input[used0] == SOM
      requires whole == Prepend(effects, used0, FeedFrom(Receiver(noack, size), Idle, input, used0))
      modifies this, packet
      ensures used0 < used <= |input|
      ensures whole == Prepend(effects + es, used, FeedFrom(Receiver(noack, size), s, input, used))
      ensures waiting ==> used == |input| && !Final(s) && result == None
      ensures !waiting && result == None ==> Rel(s)
      ensures result.Some? ==> Good() && Returned(result.value, s)
    {
      FeedAdvance(noack, size, Idle, input, used0, whole, effects, used0);
      packet[0] := SOM;
      waiting, used, es, s := ConsumeRemote(input, used0 + 1);
      assert effects + [] == effects;
      PrependTwice(effects, es, used0 + 1, used - used0 - 1, FeedFrom(Receiver(noack, size), s, input, used));
      result := None;
      if !waiting && packet[0] == EOT {
        packet[1] := 0;
        result := Some(1);
      }
    }

    /** `gdb_getpacket` on a stream: `None` while it is still waiting for more. */
    method GetPacket(input: seq<byte>) returns (result: Option<nat>, used: nat, effects: seq<Effect>)
      requires Rel(Idle)
      modifies this, packet
      ensures Good()
      ensures var o := Feed(Receiver(noack, size), Idle, input);
        && used == o.used && effects == o.effects
        && (result.Some? <==> Final(o.state))
        && (result.Some? ==> Returned(result.value, o.state))
    {
      ghost var f := Receiver(noack, size);
      ghost var whole := FeedFrom(f, Idle, input, 0);
      assert whole == Feed(f, Idle, input) by {
        assert input[0..] == input;
        FeedFromIsFeed(f, Idle, input, 0);
      }
      ghost var s := Idle;
      used, effects, result := 0, [], None;
      assert whole == Prepend([], 0, whole);
      while used < |input|
        invariant used <= |input| && Rel(s) && result == None
        invariant whole == Prepend(effects, used, FeedFrom(f, s, input, used))
      {
        if state == PacketIdle && input[used] == SOM {
          var waiting, es;
          waiting, result, used, es, s := RemoteStart(input, used, whole, effects);
          effects := effects + es;
          if waiting || result.Some? { return; }
        } else {
          var effect;
          result, effect, s := Turn(input, used, s, whole, effects);
          used, effects := used + 1, effects + Visible(effect);
          if result.Some? { return; }
        }
      }
    }
  }
}
