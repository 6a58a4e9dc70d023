/** GDB remote serial protocol framing: the printer, the receiver, and the byte-stream
    specification that ties them together. */
module GdbPacket {
  import opened Common
  import opened Hex

  const START: byte := 0x24      // '$'
  const END: byte := 0x23        // '#'
  const ACK: byte := 0x2b        // '+'
  const NACK: byte := 0x2d       // '-'
  const ESCAPE: byte := 0x7d     // '}'
  const RUNLENGTH: byte := 0x2a  // '*'
  const EOT: byte := 0x04
  const SOM: byte := 0x21        // '!', start of a remote-control packet
  const EOM: byte := 0x23        // '#', its end

  /** Exclusive or with 0x20: flip bit 5. */
  function Flip(c: byte): byte { if c / 32 % 2 == 1 then c - 32 else c + 32 }

  // ----- wire meaning ---------------------------------------------------------------------

  /** Addition modulo 256. */
  function Plus(x: byte, y: byte): byte { (x + y) % 256 }

  /** Sum of the bytes, modulo 256. */
  function Sum(wire: seq<byte>): byte { SumTo(wire, |wire|) }

  function SumTo(wire: seq<byte>, n: nat): byte
    requires n <= |wire|
  {
    if n == 0 then 0 else Plus(SumTo(wire, n - 1), wire[n - 1])
  }

  lemma {:induction false} SumToPrefix(a: seq<byte>, b: seq<byte>, n: nat)
    requires n <= |a| && a <= b
    ensures SumTo(a, n) == SumTo(b, n)
  {
    if n > 0 { SumToPrefix(a, b, n - 1); }
  }

  lemma {:induction false} SumSnoc(w: seq<byte>, c: byte)
    ensures Sum(w + [c]) == Plus(Sum(w), c)
  {
    SumToPrefix(w, w + [c], |w|);
  }

  /** What a packet body on the wire says: escaped bytes are restored, and a trailing lone
      escape says nothing yet. */
  function Payload(wire: seq<byte>): seq<byte> { PayloadTo(wire, |wire|) }

  function PayloadTo(wire: seq<byte>, n: nat): seq<byte>
    requires n <= |wire|
  {
    if n == 0 then []
    else if EscapingAt(wire, n - 1) then PayloadTo(wire, n - 1) + [Flip(wire[n - 1])]
    else if wire[n - 1] == ESCAPE then PayloadTo(wire, n - 1)
    else PayloadTo(wire, n - 1) + [wire[n - 1]]
  }

  /** Does the body end in an escape that has not been used up? */
  predicate Escaping(wire: seq<byte>) { EscapingAt(wire, |wire|) }

  predicate EscapingAt(wire: seq<byte>, n: nat)
    requires n <= |wire|
  {
    n > 0 && wire[n - 1] == ESCAPE && !EscapingAt(wire, n - 1)
  }

  lemma {:induction false} BodyPrefix(a: seq<byte>, b: seq<byte>, n: nat)
    requires n <= |a| && a <= b
    ensures PayloadTo(a, n) == PayloadTo(b, n) && EscapingAt(a, n) == EscapingAt(b, n)
  {
    if n > 0 { BodyPrefix(a, b, n - 1); }
  }

  // ----- receiver: specification -------------------------------------------------------------

  /** The receiver's state, as a function of the stream: only the raw bytes since the last
      start marker matter. */
  datatype Rx =
    | Idle
    | Body(wire: seq<byte>)
    | Upper(wire: seq<byte>)
    | Lower(wire: seq<byte>, hi: byte)
    | Remote(cmd: seq<byte>)
    | Done(packet: seq<byte>)
    | Closed

  /** What a received byte makes the receiver do besides changing state. */
  datatype Effect = Silent | Reply(c: byte) | Command(cmd: seq<byte>)

  /** Length of the payload once `c` has been taken into the body. */
  function Length(wire: seq<byte>, c: byte): nat {
    |Payload(wire)| + if !Escaping(wire) && c == ESCAPE then 0 else 1
  }

  function Step(noack: bool, size: nat, s: Rx, c: byte): (Rx, Effect) {
    match s
    case Idle =>
      if c == START then (Body([]), Silent)
      else if c == SOM then (Remote([]), Silent)
      else if c == EOT then (Closed, Silent)
      else (Idle, Silent)
    case Body(wire) =>
      if !Escaping(wire) && c == START then (Body([]), Silent)
      else if !Escaping(wire) && c == END then (Upper(wire), Silent)
      else if Length(wire, c) >= size then (Idle, Silent)
      else (Body(wire + [c]), Silent)
    case Upper(wire) => (Lower(wire, c), Silent)
    case Lower(wire, hi) =>
      if noack then (Done(Payload(wire)), Silent)
      else if PairValue(hi, c) == Sum(wire) then (Done(Payload(wire)), Reply(ACK))
      else (Idle, Reply(NACK))
    case Remote(cmd) =>
      if c == EOT then (Closed, Silent)
      else if c == SOM then (Remote([]), Silent)
      else if c == EOM then (Idle, Command(cmd))
      else if c == START then (Body([]), Silent)
      else if |cmd| < size then (Remote(cmd + [c]), Silent)
      else (Idle, Silent)
    case Done(_) => (s, Silent)
    case Closed => (s, Silent)
  }

  /** Feed a stream; stop at the first packet (or end of transmission). */
  datatype Outcome = Outcome(state: Rx, effects: seq<Effect>, used: nat)

  function Visible(e: Effect): seq<Effect> { if e.Silent? then [] else [e] }

  /** The outcome of a longer stream, given that of what follows its first `used` bytes. */
  function Prepend(effects: seq<Effect>, used: nat, o: Outcome): Outcome {
    Outcome(o.state, effects + o.effects, used + o.used)
  }

  lemma {:induction false} PrependTwice(a: seq<Effect>, b: seq<Effect>, m: nat, n: nat, o: Outcome)
    ensures Prepend(a, m, Prepend(b, n, o)) == Prepend(a + b, m + n, o)
  {
    assert a + (b + o.effects) == a + b + o.effects;
  }

  predicate Final(s: Rx) { s.Done? || s.Closed? }

  type Machine = (Rx, byte) -> (Rx, Effect)

  function Receiver(noack: bool, size: nat): Machine {
    (s: Rx, c: byte) => Step(noack, size, s, c)
  }

  function Feed(f: Machine, s: Rx, input: seq<byte>): (o: Outcome)
    ensures o.used <= |input|
    ensures Final(o.state) || o.used == |input|
    decreases |input|
  {
    if Final(s) || input == [] then Outcome(s, [], 0)
    else
      var (s1, e) := f(s, input[0]);
      Prepend(Visible(e), 1, Feed(f, s1, input[1..]))
  }

  // ----- printer: specification --------------------------------------------------------------

  predicate NeedsEscape(c: byte) { c == START || c == END || c == ESCAPE || c == RUNLENGTH }

  function EscapeByte(c: byte): seq<byte> {
    if NeedsEscape(c) then [ESCAPE, Flip(c)] else [c]
  }

  function EscapeAll(data: seq<byte>): seq<byte> {
    if data == [] then [] else EscapeAll(data[..|data| - 1]) + EscapeByte(data[|data| - 1])
  }

  function Frame(data: seq<byte>): seq<byte> {
    var body := EscapeAll(data);
    [START] + body + [END] + ByteHex(Sum(body))
  }

  // ----- round trip ----------------------------------------------------------------------------

  lemma {:induction false} BodySnoc(wire: seq<byte>, c: byte)
    ensures Sum(wire + [c]) == Plus(Sum(wire), c)
    ensures Escaping(wire + [c]) <==> c == ESCAPE && !Escaping(wire)
    ensures Payload(wire + [c]) == if Escaping(wire) then Payload(wire) + [Flip(c)]
                                   else if c == ESCAPE then Payload(wire) else Payload(wire) + [c]
  {
    SumSnoc(wire, c);
    BodyPrefix(wire, wire + [c], |wire|);
  }

  lemma {:induction false} FlipTwice(c: byte)
    ensures Flip(Flip(c)) == c
  {
  }

  lemma {:induction false} EscapeStep(w: seq<byte>, c: byte)
    requires !Escaping(w)
    ensures Payload(w + EscapeByte(c)) == Payload(w) + [c] && !Escaping(w + EscapeByte(c))
  {
    if NeedsEscape(c) {
      BodySnoc(w, ESCAPE);
      BodySnoc(w + [ESCAPE], Flip(c));
      assert w + EscapeByte(c) == w + [ESCAPE] + [Flip(c)];
      FlipTwice(c);
    } else {
      BodySnoc(w, c);
    }
  }

  /** Escaping is undone by the receiver's reading of the body. */
  lemma {:induction false} EscapeRoundTrip(data: seq<byte>)
    ensures Payload(EscapeAll(data)) == data && !Escaping(EscapeAll(data))
  {
    if data != [] {
      var n := |data| - 1;
      EscapeRoundTrip(data[..n]);
      EscapeStep(EscapeAll(data[..n]), data[n]);
      assert data == data[..n] + [data[n]];
    }
  }

  /** Feeding a stream in two pieces. */
  lemma {:induction false} FeedThen(f: Machine, s: Rx, a: seq<byte>, b: seq<byte>)
    ensures var o := Feed(f, s, a);
      Feed(f, s, a + b) == Prepend(o.effects, o.used, Feed(f, o.state, b))
    decreases |a|
  {
    if Final(s) {
    } else if a == [] {
      assert a + b == b;
    } else {
      var (s1, e) := f(s, a[0]);
      var o1 := Feed(f, s1, a[1..]);
      FeedThen(f, s1, a[1..], b);
      FeedHead(f, s, a, a[1..]);
      FeedHead(f, s, a + b, a[1..] + b);
      PrependTwice(Visible(e), o1.effects, 1, o1.used, Feed(f, o1.state, b));
    }
  }

  lemma {:induction false} FeedHead(f: Machine, s: Rx, input: seq<byte>, rest: seq<byte>)
    requires !Final(s) && input != [] && rest == input[1..]
    ensures var (s1, e) := f(s, input[0]);
      Feed(f, s, input) == Prepend(Visible(e), 1, Feed(f, s1, rest))
  {
  }

  lemma {:induction false} FeedOne(noack: bool, size: nat, s: Rx, c: byte)
    requires !Final(s)
    ensures var (s1, e) := Step(noack, size, s, c);
      Feed(Receiver(noack, size), s, [c]) == Outcome(s1, Visible(e), 1)
  {
    var f := Receiver(noack, size);
    assert f(s, c) == Step(noack, size, s, c);
    assert [c][1..] == [];
  }

  /** No start or end marker lies outside an escape, and the payload stays below `size`. */
  ghost predicate Quiet(size: nat, wire: seq<byte>) { QuietTo(size, wire, |wire|) }

  ghost predicate QuietTo(size: nat, wire: seq<byte>, n: nat)
    requires n <= |wire|
  {
    n == 0 ||
    (&& QuietTo(size, wire, n - 1)
     && (!EscapingAt(wire, n - 1) ==> wire[n - 1] != START && wire[n - 1] != END)
     && |PayloadTo(wire, n)| < size)
  }

  lemma {:induction false} QuietPrefix(size: nat, a: seq<byte>, b: seq<byte>, n: nat)
    requires n <= |a| && a <= b
    ensures QuietTo(size, a, n) == QuietTo(size, b, n)
  {
    if n > 0 {
      QuietPrefix(size, a, b, n - 1);
      BodyPrefix(a, b, n - 1);
      BodyPrefix(a, b, n);
    }
  }

  lemma {:induction false} QuietSnoc(size: nat, w: seq<byte>, c: byte)
    ensures Quiet(size, w + [c]) <==>
      Quiet(size, w) && (!Escaping(w) ==> c != START && c != END) && Length(w, c) < size
  {
    BodySnoc(w, c);
    BodyPrefix(w, w + [c], |w|);
    QuietPrefix(size, w, w + [c], |w|);
  }

  lemma {:induction false} FeedSnoc(f: Machine, s: Rx, a: seq<byte>, t: Rx, c: byte, u: Rx)
    requires Feed(f, s, a) == Outcome(t, [], |a|) && !Final(t) && f(t, c) == (u, Silent)
    ensures Feed(f, s, a + [c]) == Outcome(u, [], |a| + 1)
  {
    FeedThen(f, s, a, [c]);
    assert Feed(f, t, [c]) == Prepend([], 1, Feed(f, u, []));
  }

  lemma {:induction false} BodyStep(noack: bool, size: nat, w: seq<byte>, c: byte)
    requires Quiet(size, w + [c])
    ensures Quiet(size, w) && Step(noack, size, Body(w), c) == (Body(w + [c]), Silent)
  {
    QuietSnoc(size, w, c);
  }

  /** The receiver collects a quiet body byte for byte. */
  lemma {:induction false} FeedBody(noack: bool, size: nat, wire: seq<byte>)
    requires Quiet(size, wire)
    ensures Feed(Receiver(noack, size), Body([]), wire) == Outcome(Body(wire), [], |wire|)
  {
    if wire != [] {
      var n := |wire| - 1;
      var w, c := wire[..n], wire[n];
      assert wire == w + [c];
      BodyStep(noack, size, w, c);
      FeedBody(noack, size, w);
      FeedSnoc(Receiver(noack, size), Body([]), w, Body(w), c, Body(w + [c]));
    }
  }

  lemma {:induction false} QuietStep(size: nat, w: seq<byte>, c: byte)
    requires Quiet(size, w) && !Escaping(w) && |Payload(w)| + 1 < size
    ensures Quiet(size, w + EscapeByte(c))
  {
    if NeedsEscape(c) {
      QuietSnoc(size, w, ESCAPE);
      BodySnoc(w, ESCAPE);
      QuietSnoc(size, w + [ESCAPE], Flip(c));
      assert w + EscapeByte(c) == w + [ESCAPE] + [Flip(c)];
    } else {
      QuietSnoc(size, w, c);
    }
  }

  lemma {:induction false} EscapedIsQuiet(size: nat, data: seq<byte>)
    requires |data| < size
    ensures Quiet(size, EscapeAll(data))
  {
    if data != [] {
      var n := |data| - 1;
      EscapedIsQuiet(size, data[..n]);
      EscapeRoundTrip(data[..n]);
      QuietStep(size, EscapeAll(data[..n]), data[n]);
    }
  }

  /** A whole frame, from any state in which the receiver looks for a start marker. */
  lemma {:induction false} FeedFrame(noack: bool, size: nat, wire: seq<byte>, hi: byte, lo: byte)
    requires Quiet(size, wire) && !Escaping(wire)
    ensures var o := Feed(Receiver(noack, size), Idle, [START] + wire + [END, hi, lo]);
      var (s, e) := Step(noack, size, Lower(wire, hi), lo);
      o == Outcome(s, Visible(e), |wire| + 4)
  {
    var f := Receiver(noack, size);
    var tail := [END, hi, lo];
    FeedOne(noack, size, Idle, START);
    FeedBody(noack, size, wire);
    FeedThen(f, Idle, [START], wire);
    FeedThen(f, Idle, [START] + wire, tail);
    FeedTail(noack, size, wire, hi, lo);
  }

  lemma {:induction false} FeedTail(noack: bool, size: nat, wire: seq<byte>, hi: byte, lo: byte)
    requires !Escaping(wire)
    ensures var (s, e) := Step(noack, size, Lower(wire, hi), lo);
      Feed(Receiver(noack, size), Body(wire), [END, hi, lo]) == Outcome(s, Visible(e), 3)
  {
    var f := Receiver(noack, size);
    FeedHead(f, Body(wire), [END, hi, lo], [hi, lo]);
    FeedHead(f, Upper(wire), [hi, lo], [lo]);
    FeedOne(noack, size, Lower(wire, hi), lo);
  }

  lemma {:induction false} FeedFrameAlone(noack: bool, size: nat, data: seq<byte>)
    requires |data| < size
    ensures Feed(Receiver(noack, size), Idle, Frame(data))
      == Outcome(Done(data), if noack then [] else [Reply(ACK)], |Frame(data)|)
  {
    var body := EscapeAll(data);
    var hi, lo := ByteHex(Sum(body))[0], ByteHex(Sum(body))[1];
    EscapeRoundTrip(data);
    EscapedIsQuiet(size, data);
    PairRoundTrip(Sum(body));
    FeedFrame(noack, size, body, hi, lo);
    LastOfFrame(noack, size, body, data, hi, lo);
    FrameIs(data, body, hi, lo);
  }

  lemma {:induction false} FrameIs(data: seq<byte>, body: seq<byte>, hi: byte, lo: byte)
    requires body == EscapeAll(data) && [hi, lo] == ByteHex(Sum(body))
    ensures Frame(data) == [START] + body + [END, hi, lo] && |Frame(data)| == |body| + 4
  {
    assert [START] + body + [END] + [hi, lo] == [START] + body + [END, hi, lo];
  }

  lemma {:induction false} LastOfFrame(noack: bool, size: nat, body: seq<byte>, data: seq<byte>, hi: byte, lo: byte)
    requires Payload(body) == data && PairValue(hi, lo) == Sum(body)
    ensures var (s, e) := Step(noack, size, Lower(body, hi), lo);
      s == Done(data) && Visible(e) == if noack then [] else [Reply(ACK)]
  {
  }

  /** Round trip: for every byte string shorter than the buffer, the receiver, fed the frame the
      printer makes of it (and anything after), returns the string, having used exactly the
      frame, and acknowledges it unless acknowledgements are off. */
  lemma {:induction false} FramingRoundTrip(noack: bool, size: nat, data: seq<byte>, rest: seq<byte>)
    requires |data| < size
    ensures Feed(Receiver(noack, size), Idle, Frame(data) + rest)
      == Outcome(Done(data), if noack then [] else [Reply(ACK)], |Frame(data)|)
  {
    FeedFrameAlone(noack, size, data);
    var effects := Feed(Receiver(noack, size), Idle, Frame(data)).effects;
    FeedThen(Receiver(noack, size), Idle, Frame(data), rest);
    assert effects + [] == effects;
  }
}
